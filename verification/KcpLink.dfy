// One direction of a KCP connection, on unbounded sequence numbers: a sender,
// its receiver, and the datagrams each of them has output so far. Every
// datagram ever output may arrive any number of times, in any order, or never.
module KcpLink {
  import opened Circular
  import opened KcpModel
  import opened KcpWindow

  type Net = seq<seq<Wire>>

  /** `frags` are the fragments of all accepted messages, in order; `base` of
      them belong to messages already handed to the application. */
  datatype Dir = Dir(snd: Sender, rcv: Receiver, wnd: nat, frags: seq<Frag>, base: nat, snet: Net, rnet: Net)

  /** The receiver has the data of `sn`. */
  ghost predicate Held(r: Receiver, sn: int) {
    sn < r.nxt || exists i :: 0 <= i < |r.buf| && r.buf[i].sn == sn
  }

  ghost predicate Unacked(s: Sender, sn: int) {
    exists i :: 0 <= i < |s.buf| && s.buf[i].wire.sn == sn
  }

  /** A numbered segment carries the fragment of its number. */
  predicate Carries(frags: seq<Frag>, nxt: int, w: Wire) {
    0 <= w.sn < nxt <= |frags| && Payload(w) == frags[w.sn]
  }

  predicate DataOk(frags: seq<Frag>, nxt: int, w: Wire) {
    w.cmd == CMD_PUSH ==> Carries(frags, nxt, w)
  }

  /** What a segment from the receiver says about its data is true. */
  ghost predicate AckOk(r: Receiver, w: Wire) {
    0 <= w.una <= r.nxt && (w.cmd == CMD_ACK ==> 0 <= w.sn && Held(r, w.sn))
  }

  ghost predicate SenderLink(s: Sender, frags: seq<Frag>) {
    && SndWindow(EXACT, s) && 0 <= s.una
    && s.nxt <= |frags| && s.queue == frags[s.nxt..]
    && forall i :: 0 <= i < |s.buf| ==> s.buf[i].wire.cmd == CMD_PUSH && Carries(frags, s.nxt, s.buf[i].wire)
  }

  ghost predicate ReceiverLink(r: Receiver, wnd: nat, frags: seq<Frag>, nxt: int, base: nat) {
    && 0 < wnd < HALF && RcvWindow(EXACT, r, wnd)
    && base <= r.nxt <= nxt <= |frags|
    && (forall i :: 0 <= i < |r.buf| ==> Carries(frags, nxt, r.buf[i]))
    && |r.queue| == r.nxt - base <= wnd
    && forall i :: 0 <= i < |r.queue| ==> Payload(r.queue[i]) == frags[base + i]
  }

  /** Nothing is forgotten: what the sender no longer keeps, the receiver has. */
  ghost predicate Covered(s: Sender, r: Receiver) {
    && (forall sn :: 0 <= sn < s.nxt ==> Unacked(s, sn) || Held(r, sn))
    && (forall i :: 0 <= i < |r.acks| ==> 0 <= r.acks[i].sn && Held(r, r.acks[i].sn))
  }

  ghost predicate NetData(net: Net, frags: seq<Frag>, nxt: int) {
    forall i, j :: 0 <= i < |net| && 0 <= j < |net[i]| ==> DataOk(frags, nxt, net[i][j])
  }

  ghost predicate NetAcks(net: Net, r: Receiver) {
    forall i, j :: 0 <= i < |net| && 0 <= j < |net[i]| ==> AckOk(r, net[i][j])
  }

  ghost predicate Link(d: Dir) {
    && SenderLink(d.snd, d.frags)
    && ReceiverLink(d.rcv, d.wnd, d.frags, d.snd.nxt, d.base)
    && Covered(d.snd, d.rcv)
    && NetData(d.snet, d.frags, d.snd.nxt)
    && NetAcks(d.rnet, d.rcv)
  }

  // ---- the sender takes in what the receiver says ----

  /** Forgetting segments the receiver has keeps the link. */
  lemma ForgetLink(d: Dir, s': Sender)
    requires Link(d) && SndWindow(EXACT, s') && d.snd.una <= s'.una
    requires s'.nxt == d.snd.nxt && s'.queue == d.snd.queue
    requires forall i :: 0 <= i < |s'.buf| ==> s'.buf[i] in d.snd.buf
    requires forall i :: 0 <= i < |d.snd.buf| ==> d.snd.buf[i] in s'.buf || Held(d.rcv, d.snd.buf[i].wire.sn)
    ensures Link(d.(snd := s'))
  {
    forall sn | 0 <= sn < s'.nxt
      ensures Unacked(s', sn) || Held(d.rcv, sn)
    {
      if Unacked(d.snd, sn) {
        var i :| 0 <= i < |d.snd.buf| && d.snd.buf[i].wire.sn == sn;
        if d.snd.buf[i] in s'.buf {
          var j :| 0 <= j < |s'.buf| && s'.buf[j] == d.snd.buf[i];
        }
      }
    }
  }

  lemma UnaLink(d: Dir, una: int)
    requires Link(d) && una <= d.rcv.nxt
    ensures Link(d.(snd := ParseUna(EXACT, d.snd, una)))
  {
    ExactLawful();
    var s' := ParseUna(EXACT, d.snd, una);
    ParseUnaWindow(EXACT, d.snd, una);
    DropBelowKeeps(d.snd.buf, una);
    ForgetLink(d, s');
  }

  lemma DropBelowKeeps(buf: seq<SndSeg>, una: int)
    ensures var b := DropBelow(EXACT, buf, una);
            && (forall i :: 0 <= i < |b| ==> b[i] in buf)
            && (forall i :: 0 <= i < |buf| ==> buf[i] in b || buf[i].wire.sn < una)
  {
    DropBelowSuffix(EXACT, buf, una);
    var b := DropBelow(EXACT, buf, una);
    var n := |buf| - |b|;
    forall i | 0 <= i < |buf|
      ensures buf[i] in b || buf[i].wire.sn < una
    {
      if i >= n {
        assert b[i - n] == buf[i];
      }
    }
  }

  lemma DropOneKeeps(buf: seq<SndSeg>, sn: int)
    ensures var b := DropOne(EXACT, buf, sn);
            && (forall i :: 0 <= i < |b| ==> b[i] in buf)
            && (forall i :: 0 <= i < |buf| ==> buf[i] in b || buf[i].wire.sn == sn)
  {
    var n := DropOneAt(EXACT, buf, sn);
    var b := DropOne(EXACT, buf, sn);
    forall i | 0 <= i < |buf|
      ensures buf[i] in b || buf[i].wire.sn == sn
    {
      if n < |buf| && i != n {
        assert b[if i < n then i else i - 1] == buf[i];
      }
    }
  }

  lemma AckLink(d: Dir, sn: int)
    requires Link(d) && Held(d.rcv, sn)
    ensures Link(d.(snd := ParseAck(EXACT, d.snd, sn)))
  {
    ExactLawful();
    ParseAckWindow(EXACT, d.snd, sn);
    DropOneKeeps(d.snd.buf, sn);
    ForgetLink(d, ParseAck(EXACT, d.snd, sn));
  }

  lemma FastAckLink(d: Dir, sn: int)
    requires Link(d)
    ensures Link(d.(snd := ParseFastAck(EXACT, d.snd, sn)))
  {
    if InFlight(EXACT, d.snd, sn) {
      BumpKeepsWires(EXACT, d.snd.buf, sn);
      SameWiresLink(d, BumpSkipped(EXACT, d.snd.buf, sn));
    }
  }

  lemma SameWiresLink(d: Dir, buf: seq<SndSeg>)
    requires Link(d) && |buf| == |d.snd.buf|
    requires forall i :: 0 <= i < |buf| ==>
      && buf[i].wire.sn == d.snd.buf[i].wire.sn && buf[i].wire.cmd == CMD_PUSH
      && Payload(buf[i].wire) == Payload(d.snd.buf[i].wire)
    ensures Link(d.(snd := d.snd.(buf := buf)))
  {
    ExactLawful();
    SameNumbers(EXACT, d.snd, buf);
    var s' := d.snd.(buf := buf);
    forall sn | 0 <= sn < s'.nxt
      ensures Unacked(s', sn) || Held(d.rcv, sn)
    {
      if Unacked(d.snd, sn) {
        var i :| 0 <= i < |buf| && d.snd.buf[i].wire.sn == sn;
        assert buf[i].wire.sn == sn;
      }
    }
  }

  // ---- the receiver takes in data ----

  /** The receiver only ever gains data. */
  ghost predicate Gains(r: Receiver, r': Receiver) {
    r.nxt <= r'.nxt && forall sn :: Held(r, sn) ==> Held(r', sn)
  }

  lemma ReceiverStep(d: Dir, r': Receiver, base: nat)
    requires Link(d) && Gains(d.rcv, r')
    requires ReceiverLink(r', d.wnd, d.frags, d.snd.nxt, base)
    requires forall i :: 0 <= i < |r'.acks| ==> 0 <= r'.acks[i].sn && Held(r', r'.acks[i].sn)
    ensures Link(d.(rcv := r', base := base))
  {
    forall i, j | 0 <= i < |d.rnet| && 0 <= j < |d.rnet[i]|
      ensures AckOk(r', d.rnet[i][j])
    {
      assert AckOk(d.rcv, d.rnet[i][j]);
    }
  }

  /** Insert adds the segment if its number is new and keeps all others. */
  lemma InsertHolds(ar: Arith, buf: seq<Wire>, w: Wire)
    ensures var b := Insert(ar, buf, w);
            && (forall i :: 0 <= i < |buf| ==> buf[i] in b)
            && (forall i :: 0 <= i < |b| ==> b[i] in buf || b[i] == w)
            && (exists i :: 0 <= i < |b| && b[i].sn == w.sn)
  {
    var b := Insert(ar, buf, w);
    var p := Scan(ar, buf, w.sn, |buf|);
    if p > 0 && buf[p - 1].sn == w.sn {
    } else {
      forall i | 0 <= i < |buf|
        ensures buf[i] in b
      {
        assert b[if i < p then i else i + 1] == buf[i];
      }
      assert b[p] == w;
    }
  }

  /** Advance moves due segments to the queue and loses none. */
  lemma {:induction false} AdvanceLink(r: Receiver, wnd: nat, frags: seq<Frag>, nxt: int, base: nat)
    requires 0 < wnd < HALF && RcvShape(EXACT, r.nxt, r.buf, wnd)
    requires base <= r.nxt <= nxt <= |frags|
    requires forall i :: 0 <= i < |r.buf| ==> Carries(frags, nxt, r.buf[i])
    requires |r.queue| == r.nxt - base <= wnd
    requires forall i :: 0 <= i < |r.queue| ==> Payload(r.queue[i]) == frags[base + i]
    ensures var r' := Advance(EXACT, r, wnd);
            ReceiverLink(r', wnd, frags, nxt, base) && Gains(r, r') && r'.acks == r.acks
    decreases |r.buf|
  {
    if r.buf != [] && r.buf[0].sn == r.nxt && |r.queue| < wnd {
      var r1 := r.(buf := r.buf[1..], queue := r.queue + [r.buf[0]], nxt := r.nxt + 1);
      assert EXACT.norm(r.nxt + 1) == r1.nxt;
      assert Carries(frags, nxt, r.buf[0]);
      TakeHead(r);
      AdvanceLink(r1, wnd, frags, nxt, base);
    }
  }

  lemma TakeHead(r: Receiver)
    requires r.buf != [] && r.buf[0].sn == r.nxt
    ensures Gains(r, r.(buf := r.buf[1..], queue := r.queue + [r.buf[0]], nxt := r.nxt + 1))
  {
    var r1 := r.(buf := r.buf[1..], queue := r.queue + [r.buf[0]], nxt := r.nxt + 1);
    forall sn | Held(r, sn)
      ensures Held(r1, sn)
    {
      if sn > r.nxt {
        var i :| 0 <= i < |r.buf| && r.buf[i].sn == sn;
        assert r1.buf[i - 1].sn == sn;
      }
    }
  }

  lemma AcceptLink(r: Receiver, wnd: nat, frags: seq<Frag>, nxt: int, base: nat, w: Wire)
    requires ReceiverLink(r, wnd, frags, nxt, base) && Carries(frags, nxt, w)
    requires r.nxt <= w.sn < r.nxt + wnd
    ensures var r' := Advance(EXACT, r.(buf := Insert(EXACT, r.buf, w)), wnd);
            ReceiverLink(r', wnd, frags, nxt, base) && Gains(r, r') && Held(r', w.sn) && r'.acks == r.acks
  {
    ExactLawful();
    var r2 := r.(buf := Insert(EXACT, r.buf, w));
    InsertShape(EXACT, r.nxt, r.buf, wnd, w);
    InsertHolds(EXACT, r.buf, w);
    InsertLink(r, r2, w);
    AdvanceLink(r2, wnd, frags, nxt, base);
  }

  /** A data segment is acknowledged only if its data is then held. */
  lemma PushLink(d: Dir, w: Wire)
    requires Link(d) && Carries(d.frags, d.snd.nxt, w)
    ensures Link(d.(rcv := Push(EXACT, d.rcv, d.wnd, w)))
  {
    var r, r' := d.rcv, Push(EXACT, d.rcv, d.wnd, w);
    if w.sn < r.nxt + d.wnd {
      var r1 := r.(acks := r.acks + [Ack(w.sn, w.ts)]);
      if r.nxt <= w.sn {
        AcceptLink(r1, d.wnd, d.frags, d.snd.nxt, d.base, w);
      }
      ReceiverStep(d, r', d.base);
    }
  }

  lemma InsertLink(r: Receiver, r': Receiver, w: Wire)
    requires r'.nxt == r.nxt && r'.buf == Insert(EXACT, r.buf, w)
    ensures Gains(r, r') && Held(r', w.sn)
  {
    InsertHolds(EXACT, r.buf, w);
    forall sn | Held(r, sn)
      ensures Held(r', sn)
    {
      if sn >= r.nxt {
        var i :| 0 <= i < |r.buf| && r.buf[i].sn == sn;
        assert r.buf[i] in r'.buf;
      }
    }
  }

  // ---- the sender accepts, numbers and writes fragments ----

  lemma AcceptMoreLink(d: Dir, more: seq<Frag>)
    requires Link(d)
    ensures Link(d.(frags := d.frags + more, snd := d.snd.(queue := d.snd.queue + more)))
  {
    assert (d.frags + more)[d.snd.nxt..] == d.snd.queue + more;
    forall i, j | 0 <= i < |d.snet| && 0 <= j < |d.snet[i]|
      ensures DataOk(d.frags + more, d.snd.nxt, d.snet[i][j])
    {
      assert DataOk(d.frags, d.snd.nxt, d.snet[i][j]);
    }
  }

  lemma NumberLink(d: Dir, seg: SndSeg, s': Sender)
    requires Link(d) && d.snd.queue != [] && SndWindow(EXACT, s')
    requires seg.wire.cmd == CMD_PUSH && seg.wire.sn == d.snd.nxt && Payload(seg.wire) == d.snd.queue[0]
    requires s' == d.snd.(queue := d.snd.queue[1..], nxt := d.snd.nxt + 1, buf := d.snd.buf + [seg])
    ensures Link(d.(snd := s'))
  {
    var s := d.snd;
    assert s'.queue == d.frags[s'.nxt..];
    assert s'.buf[|s.buf|] == seg;
    forall sn | 0 <= sn < s'.nxt
      ensures Unacked(s', sn) || Held(d.rcv, sn)
    {
      if sn < s.nxt && Unacked(s, sn) {
        var i :| 0 <= i < |s.buf| && s.buf[i].wire.sn == sn;
        assert s'.buf[i].wire.sn == sn;
      }
    }
    forall i, j | 0 <= i < |d.snet| && 0 <= j < |d.snet[i]|
      ensures DataOk(d.frags, s'.nxt, d.snet[i][j])
    {
      assert DataOk(d.frags, s.nxt, d.snet[i][j]);
    }
  }

  lemma FillStepLink(d: Dir, seg: SndSeg, wnd: nat)
    requires Link(d) && d.snd.queue != [] && wnd <= MAX_FLIGHT && d.snd.nxt < d.snd.una + wnd
    requires seg.wire.cmd == CMD_PUSH && seg.wire.sn == d.snd.nxt && Payload(seg.wire) == d.snd.queue[0]
    ensures Link(d.(snd := d.snd.(queue := d.snd.queue[1..], nxt := d.snd.nxt + 1, buf := d.snd.buf + [seg])))
  {
    ExactLawful();
    FillWindowStep(EXACT, d.snd, wnd, seg);
    NumberLink(d, seg, d.snd.(queue := d.snd.queue[1..], nxt := d.snd.nxt + 1, buf := d.snd.buf + [seg]));
  }

  lemma FillUnfold(k: Kcb, wnd: nat)
    ensures Fill(EXACT, k, wnd) ==
            if k.snd.queue != [] && k.snd.nxt < k.snd.una + wnd then Fill(EXACT, NumberNext(EXACT, k), wnd) else k
  {
  }

  lemma NumberNextLink(d: Dir, k: Kcb, wnd: nat)
    requires Link(d) && k.snd == d.snd && wnd <= MAX_FLIGHT
    requires k.snd.queue != [] && k.snd.nxt < k.snd.una + wnd
    ensures Link(d.(snd := NumberNext(EXACT, k).snd))
  {
    var seg := Stamp(k, k.snd.queue[0], k.snd.nxt);
    FillStepLink(d, seg, wnd);
    assert NumberNext(EXACT, k).snd ==
           d.snd.(queue := d.snd.queue[1..], nxt := d.snd.nxt + 1, buf := d.snd.buf + [seg]);
  }

  lemma FillLink(d: Dir, k: Kcb, wnd: nat)
    requires Link(d) && k.snd == d.snd && wnd <= MAX_FLIGHT
    ensures Link(d.(snd := Fill(EXACT, k, wnd).snd))
  {
    var k1, d1 := k, d;
    while k1.snd.queue != [] && k1.snd.nxt < k1.snd.una + wnd
      invariant Link(d1) && d1 == d.(snd := k1.snd)
      invariant Fill(EXACT, k1, wnd) == Fill(EXACT, k, wnd)
      decreases |k1.snd.queue|
    {
      FillUnfold(k1, wnd);
      NumberNextLink(d1, k1, wnd);
      k1 := NumberNext(EXACT, k1);
      d1 := d1.(snd := k1.snd);
    }
    FillUnfold(k1, wnd);
  }

  lemma TouchLink(d: Dir, k: Kcb)
    requires Link(d) && k.snd == d.snd
    ensures Link(d.(snd := d.snd.(buf := TouchAll(k, d.snd.buf))))
  {
    SameWiresLink(d, TouchAll(k, d.snd.buf));
  }

  lemma {:induction false} DueData(k: Kcb, buf: seq<SndSeg>, frags: seq<Frag>, nxt: int)
    requires forall i :: 0 <= i < |buf| ==> buf[i].wire.cmd == CMD_PUSH && Carries(frags, nxt, buf[i].wire)
    ensures forall i :: 0 <= i < |DueWires(k, buf)| ==> DataOk(frags, nxt, DueWires(k, buf)[i])
  {
    if buf != [] {
      DueData(k, buf[..|buf| - 1], frags, nxt);
    }
  }

  lemma {:induction false} DueAreData(k: Kcb, buf: seq<SndSeg>)
    requires forall i :: 0 <= i < |buf| ==> buf[i].wire.cmd == CMD_PUSH
    ensures forall i :: 0 <= i < |DueWires(k, buf)| ==>
              DueWires(k, buf)[i].cmd == CMD_PUSH && DueWires(k, buf)[i].una == k.rcv.nxt
  {
    if buf != [] {
      DueAreData(k, buf[..|buf| - 1]);
    }
  }

  /** The sender's datagrams grow by good ones. */
  lemma SendMoreLink(d: Dir, more: Net)
    requires Link(d) && NetData(more, d.frags, d.snd.nxt)
    ensures Link(d.(snet := d.snet + more))
  {
  }

  /** The receiver's datagrams grow by truthful ones. */
  lemma SayMoreLink(d: Dir, more: Net)
    requires Link(d) && NetAcks(more, d.rcv)
    ensures Link(d.(rcv := d.rcv.(acks := []), rnet := d.rnet + more))
  {
    var r' := d.rcv.(acks := []);
    assert forall sn :: Held(d.rcv, sn) <==> Held(r', sn);
    forall i, j | 0 <= i < |d.rnet + more| && 0 <= j < |(d.rnet + more)[i]|
      ensures AckOk(r', (d.rnet + more)[i][j])
    {
      assert if i < |d.rnet| then AckOk(d.rcv, d.rnet[i][j]) else AckOk(d.rcv, more[i - |d.rnet|][j]);
    }
  }
}
