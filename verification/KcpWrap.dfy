// Wrapping sequence numbers behave like unbounded ones as long as no datagram
// names a number half the number space behind: reducing every number of a run
// on unbounded numbers gives the run on 32-bit numbers, step by step.
module KcpWrap {
  import opened Circular
  import opened KcpModel
  import opened KcpWindow
  import opened KcpLink

  function RedWire(ar: Arith, w: Wire): Wire {
    w.(sn := ar.norm(w.sn), una := ar.norm(w.una))
  }

  function RedWires(ar: Arith, ws: seq<Wire>): seq<Wire> {
    seq(|ws|, i requires 0 <= i < |ws| => RedWire(ar, ws[i]))
  }

  function RedSeg(ar: Arith, s: SndSeg): SndSeg {
    s.(wire := RedWire(ar, s.wire))
  }

  function RedBuf(ar: Arith, buf: seq<SndSeg>): seq<SndSeg> {
    seq(|buf|, i requires 0 <= i < |buf| => RedSeg(ar, buf[i]))
  }

  function RedAcks(ar: Arith, acks: seq<Ack>): seq<Ack> {
    seq(|acks|, i requires 0 <= i < |acks| => acks[i].(sn := ar.norm(acks[i].sn)))
  }

  function RedSender(ar: Arith, s: Sender): Sender {
    Sender(ar.norm(s.una), ar.norm(s.nxt), s.queue, RedBuf(ar, s.buf))
  }

  function RedReceiver(ar: Arith, r: Receiver): Receiver {
    Receiver(ar.norm(r.nxt), RedWires(ar, r.buf), RedWires(ar, r.queue), RedAcks(ar, r.acks))
  }

  function Red(ar: Arith, k: Kcb): Kcb {
    k.(snd := RedSender(ar, k.snd), rcv := RedReceiver(ar, k.rcv))
  }

  function RedMax(ar: Arith, m: MaxAck): MaxAck {
    if m.NoAck? then NoAck else MaxAck(ar.norm(m.sn))
  }

  // ---- the sender ----

  /** `x` is at most half the number space below `nxt` and not above it. */
  predicate Near(x: int, nxt: int) {
    nxt - HALF <= x <= nxt
  }

  lemma {:induction false} RedDropBelow(ar: Arith, buf: seq<SndSeg>, una: int)
    requires Mirror(ar)
    requires forall i :: 0 <= i < |buf| ==> -HALF <= una - buf[i].wire.sn < HALF
    ensures DropBelow(ar, RedBuf(ar, buf), ar.norm(una)) == RedBuf(ar, DropBelow(EXACT, buf, una))
  {
    if buf != [] {
      assert MirrorLaw(ar, una, buf[0].wire.sn, 0);
      assert RedBuf(ar, buf)[1..] == RedBuf(ar, buf[1..]);
      RedDropBelow(ar, buf[1..], una);
    }
  }

  lemma {:induction false} RedDropOne(ar: Arith, buf: seq<SndSeg>, sn: int)
    requires Mirror(ar)
    requires forall i :: 0 <= i < |buf| ==> -HALF <= sn - buf[i].wire.sn < HALF
    ensures DropOne(ar, RedBuf(ar, buf), ar.norm(sn)) == RedBuf(ar, DropOne(EXACT, buf, sn))
  {
    if buf != [] {
      assert MirrorLaw(ar, sn, buf[0].wire.sn, 0);
      assert RedBuf(ar, buf)[1..] == RedBuf(ar, buf[1..]);
      RedDropOne(ar, buf[1..], sn);
    }
  }

  lemma RedCons(ar: Arith, buf: seq<SndSeg>)
    requires buf != []
    ensures RedBuf(ar, buf)[1..] == RedBuf(ar, buf[1..])
  {
  }

  lemma RedConsed(ar: Arith, s: SndSeg, rest: seq<SndSeg>)
    ensures RedBuf(ar, [s] + rest) == [RedSeg(ar, s)] + RedBuf(ar, rest)
  {
  }

  lemma {:induction false} RedBump(ar: Arith, buf: seq<SndSeg>, sn: int)
    requires Mirror(ar)
    requires forall i :: 0 <= i < |buf| ==> -HALF <= sn - buf[i].wire.sn < HALF
    ensures BumpSkipped(ar, RedBuf(ar, buf), ar.norm(sn)) == RedBuf(ar, BumpSkipped(EXACT, buf, sn))
  {
    if buf != [] {
      assert MirrorLaw(ar, sn, buf[0].wire.sn, 0);
      RedBump(ar, buf[1..], sn);
      RedCons(ar, buf);
      var rest := BumpSkipped(EXACT, buf[1..], sn);
      RedConsed(ar, buf[0], rest);
      RedConsed(ar, Skipped(buf[0]), rest);
    }
  }

  lemma RedShrink(ar: Arith, s: Sender)
    ensures Shrink(RedSender(ar, s)) == RedSender(ar, Shrink(s))
  {
    assert s.buf != [] ==> RedBuf(ar, s.buf)[0] == RedSeg(ar, s.buf[0]);
  }

  lemma RedParseUna(ar: Arith, s: Sender, una: int)
    requires Mirror(ar) && SndWindow(EXACT, s) && Near(una, s.nxt)
    ensures ParseUna(ar, RedSender(ar, s), ar.norm(una)) == RedSender(ar, ParseUna(EXACT, s, una))
  {
    RedDropBelow(ar, s.buf, una);
    RedShrink(ar, s.(buf := DropBelow(EXACT, s.buf, una)));
  }

  lemma RedInFlight(ar: Arith, s: Sender, sn: int)
    requires Mirror(ar) && SndWindow(EXACT, s) && Near(sn, s.nxt)
    ensures InFlight(ar, RedSender(ar, s), ar.norm(sn)) == InFlight(EXACT, s, sn)
  {
    assert MirrorLaw(ar, sn, s.una, 0);
    assert MirrorLaw(ar, sn, s.nxt, 0);
  }

  lemma RedParseAck(ar: Arith, s: Sender, sn: int)
    requires Mirror(ar) && SndWindow(EXACT, s) && Near(sn, s.nxt)
    ensures ParseAck(ar, RedSender(ar, s), ar.norm(sn)) == RedSender(ar, ParseAck(EXACT, s, sn))
  {
    RedInFlight(ar, s, sn);
    RedDropOne(ar, s.buf, sn);
    RedShrink(ar, if InFlight(EXACT, s, sn) then s.(buf := DropOne(EXACT, s.buf, sn)) else s);
  }

  lemma RedFastAck(ar: Arith, s: Sender, sn: int)
    requires Mirror(ar) && SndWindow(EXACT, s) && Near(sn, s.nxt)
    ensures ParseFastAck(ar, RedSender(ar, s), ar.norm(sn)) == RedSender(ar, ParseFastAck(EXACT, s, sn))
  {
    RedInFlight(ar, s, sn);
    RedBump(ar, s.buf, sn);
  }

  // ---- the receiver ----

  lemma {:induction false} RedScan(ar: Arith, buf: seq<Wire>, sn: int, n: nat)
    requires Mirror(ar) && n <= |buf|
    requires forall i :: 0 <= i < |buf| ==> -HALF <= sn - buf[i].sn < HALF
    ensures Scan(ar, RedWires(ar, buf), ar.norm(sn), n) == Scan(EXACT, buf, sn, n)
  {
    if n > 0 {
      assert MirrorLaw(ar, sn, buf[n - 1].sn, 0);
      RedScan(ar, buf, sn, n - 1);
    }
  }

  lemma RedHole(ar: Arith, buf: seq<Wire>, w: Wire, p: nat)
    requires p <= |buf|
    ensures RedWires(ar, buf[..p] + [w] + buf[p..]) ==
            RedWires(ar, buf)[..p] + [RedWire(ar, w)] + RedWires(ar, buf)[p..]
  {
  }

  lemma RedInsert(ar: Arith, buf: seq<Wire>, w: Wire)
    requires Mirror(ar)
    requires forall i :: 0 <= i < |buf| ==> -HALF <= w.sn - buf[i].sn < HALF
    ensures Insert(ar, RedWires(ar, buf), RedWire(ar, w)) == RedWires(ar, Insert(EXACT, buf, w))
  {
    RedScan(ar, buf, w.sn, |buf|);
    var p := Scan(EXACT, buf, w.sn, |buf|);
    if p > 0 {
      assert MirrorLaw(ar, w.sn, buf[p - 1].sn, 0);
    }
    if !(p > 0 && buf[p - 1].sn == w.sn) {
      RedHole(ar, buf, w, p);
    }
  }

  /** Moving the first segment to the queue. */
  lemma RedMove(ar: Arith, r: Receiver, r1: Receiver)
    requires Mirror(ar) && r.buf != []
    requires r1 == r.(buf := r.buf[1..], queue := r.queue + [r.buf[0]], nxt := r.nxt + 1)
    ensures var s := RedReceiver(ar, r);
            RedReceiver(ar, r1)
            == s.(buf := s.buf[1..], queue := s.queue + [s.buf[0]], nxt := ar.norm(s.nxt + 1))
  {
    assert MirrorStep(ar, r.nxt, 0);
    assert RedWires(ar, r.buf)[1..] == RedWires(ar, r1.buf);
    assert RedWires(ar, r.queue) + [RedWire(ar, r.buf[0])] == RedWires(ar, r1.queue);
  }

  lemma {:induction false} RedAdvance(ar: Arith, r: Receiver, wnd: nat)
    requires Mirror(ar) && wnd < HALF && RcvShape(EXACT, r.nxt, r.buf, wnd)
    ensures Advance(ar, RedReceiver(ar, r), wnd) == RedReceiver(ar, Advance(EXACT, r, wnd))
    decreases |r.buf|
  {
    if r.buf != [] {
      assert MirrorLaw(ar, r.buf[0].sn, r.nxt, 0);
      if r.buf[0].sn == r.nxt && |r.queue| < wnd {
        var r1 := r.(buf := r.buf[1..], queue := r.queue + [r.buf[0]], nxt := r.nxt + 1);
        RedMove(ar, r, r1);
        RedAdvance(ar, r1, wnd);
        assert Advance(EXACT, r, wnd) == Advance(EXACT, r1, wnd);
      }
    }
  }

  /** A data segment that is neither too old nor too far ahead. */
  predicate NearData(sn: int, nxt: int, wnd: nat) {
    -HALF <= sn - (nxt + wnd) < HALF
  }

  lemma RedAcked(ar: Arith, r: Receiver, a: Ack)
    ensures RedReceiver(ar, r.(acks := r.acks + [a]))
            == RedReceiver(ar, r).(acks := RedAcks(ar, r.acks) + [Ack(ar.norm(a.sn), a.ts)])
  {
  }

  lemma RedParseData(ar: Arith, r: Receiver, wnd: nat, w: Wire)
    requires Mirror(ar) && 0 < wnd < HALF && RcvWindow(EXACT, r, wnd) && 0 <= w.sn - r.nxt < wnd
    ensures ParseData(ar, RedReceiver(ar, r), wnd, RedWire(ar, w)) == RedReceiver(ar, ParseData(EXACT, r, wnd, w))
  {
    assert MirrorLaw(ar, w.sn, r.nxt, wnd);
    assert MirrorLaw(ar, w.sn, r.nxt, 0);
    ExactLawful();
    InsertShape(EXACT, r.nxt, r.buf, wnd, w);
    RedInsert(ar, r.buf, w);
    RedAdvance(ar, r.(buf := Insert(EXACT, r.buf, w)), wnd);
    InWindow(EXACT, r, wnd, w);
    InWindow(ar, RedReceiver(ar, r), wnd, RedWire(ar, w));
  }

  lemma InWindow(ar: Arith, r: Receiver, wnd: nat, w: Wire)
    requires ar.diff(w.sn, r.nxt + wnd) < 0 && ar.diff(w.sn, r.nxt) >= 0
    ensures ParseData(ar, r, wnd, w) == Advance(ar, r.(buf := Insert(ar, r.buf, w)), wnd)
  {
  }

  lemma RedPush(ar: Arith, r: Receiver, wnd: nat, w: Wire)
    requires Mirror(ar) && 0 < wnd < HALF && RcvWindow(EXACT, r, wnd) && NearData(w.sn, r.nxt, wnd)
    ensures Push(ar, RedReceiver(ar, r), wnd, RedWire(ar, w)) == RedReceiver(ar, Push(EXACT, r, wnd, w))
  {
    assert MirrorLaw(ar, w.sn, r.nxt, wnd);
    assert MirrorLaw(ar, w.sn, r.nxt, 0);
    RedAcked(ar, r, Ack(w.sn, w.ts));
    if 0 <= w.sn - r.nxt < wnd {
      RedParseData(ar, r.(acks := r.acks + [Ack(w.sn, w.ts)]), wnd, w);
    }
  }

  // ---- ikcp_input ----

  /** What a segment must satisfy for wrapping not to show. */
  predicate FreshSeg(k: Kcb, w: Wire) {
    && Near(w.una, k.snd.nxt)
    && (w.cmd == CMD_ACK ==> Near(w.sn, k.snd.nxt))
    && (w.cmd == CMD_PUSH ==> NearData(w.sn, k.rcv.nxt, k.cf.rcvWnd))
  }

  lemma RedInputAck(ar: Arith, k: Kcb, w: Wire)
    requires Mirror(ar) && Windows(EXACT, k) && FreshSeg(k, w) && w.cmd == CMD_ACK
    ensures InputSeg(ar, Red(ar, k), RedWire(ar, w)) == Red(ar, InputSeg(EXACT, k, w))
  {
    var s := ParseUna(EXACT, k.snd, w.una);
    RedParseUna(ar, k.snd, w.una);
    assert SndWindow(EXACT, s) && s.nxt == k.snd.nxt by {
      ExactLawful();
      ParseUnaWindow(EXACT, k.snd, w.una);
    }
    RedParseAck(ar, s, w.sn);
  }

  lemma RedInputPush(ar: Arith, k: Kcb, w: Wire)
    requires Mirror(ar) && Windows(EXACT, k) && FreshSeg(k, w) && w.cmd == CMD_PUSH
    ensures InputSeg(ar, Red(ar, k), RedWire(ar, w)) == Red(ar, InputSeg(EXACT, k, w))
  {
    RedParseUna(ar, k.snd, w.una);
    RedPush(ar, k.rcv, k.cf.rcvWnd, w);
  }

  lemma RedInputSeg(ar: Arith, k: Kcb, w: Wire)
    requires Mirror(ar) && Windows(EXACT, k) && FreshSeg(k, w)
    ensures InputSeg(ar, Red(ar, k), RedWire(ar, w)) == Red(ar, InputSeg(EXACT, k, w))
  {
    if w.cmd == CMD_ACK {
      RedInputAck(ar, k, w);
    } else if w.cmd == CMD_PUSH {
      RedInputPush(ar, k, w);
    } else {
      RedParseUna(ar, k.snd, w.una);
    }
  }

  lemma RedNoteSeg(ar: Arith, m: MaxAck, w: Wire, nxt: int)
    requires Mirror(ar) && (m.MaxAck? ==> Near(m.sn, nxt)) && (w.cmd == CMD_ACK ==> Near(w.sn, nxt) && w.sn < nxt)
    requires m.MaxAck? ==> m.sn < nxt
    ensures NoteSeg(ar, RedMax(ar, m), RedWire(ar, w)) == RedMax(ar, NoteSeg(EXACT, m, w))
  {
    if w.cmd == CMD_ACK && m.MaxAck? {
      assert MirrorLaw(ar, w.sn, m.sn, 0);
    }
  }

  lemma RedInputEnd(ar: Arith, k: Kcb, m: MaxAck, prevUna: int)
    requires Mirror(ar) && Windows(EXACT, k) && (m.MaxAck? ==> Near(m.sn, k.snd.nxt))
    requires 0 <= k.snd.una - prevUna <= MAX_FLIGHT
    ensures InputEnd(ar, Red(ar, k), RedMax(ar, m), ar.norm(prevUna)) == Red(ar, InputEnd(EXACT, k, m, prevUna))
  {
    if m.MaxAck? {
      RedFastAck(ar, k.snd, m.sn);
    }
    assert MirrorLaw(ar, k.snd.una, prevUna, 0);
  }

  /** The numbers a segment names are less than half the number space old. */
  predicate Recent(k: Kcb, w: Wire) {
    && k.snd.nxt - HALF <= w.una
    && (w.cmd == CMD_ACK ==> k.snd.nxt - HALF <= w.sn)
    && (w.cmd == CMD_PUSH ==> k.rcv.nxt + k.cf.rcvWnd - HALF <= w.sn)
  }

  /** ... each at the moment the loop of ikcp_input reaches it. */
  predicate AllRecent(k: Kcb, ws: seq<Wire>)
    decreases |ws|
  {
    ws == [] || (Recent(k, ws[0]) && AllRecent(InputSeg(EXACT, k, ws[0]), ws[1..]))
  }

  /** Numbers a segment names are not ahead of the sender that issued them. */
  predicate Issued(k: Kcb, w: Wire) {
    && w.una <= k.snd.nxt
    && (w.cmd == CMD_ACK ==> w.sn < k.snd.nxt)
    && (w.cmd == CMD_PUSH ==> w.sn < k.rcv.nxt + k.cf.rcvWnd + HALF)
  }

  lemma {:induction false} AdvanceNxt(r: Receiver, wnd: nat)
    ensures r.nxt <= Advance(EXACT, r, wnd).nxt
    decreases |r.buf|
  {
    if r.buf != [] && r.buf[0].sn == r.nxt && |r.queue| < wnd {
      AdvanceNxt(r.(buf := r.buf[1..], queue := r.queue + [r.buf[0]], nxt := EXACT.norm(r.nxt + 1)), wnd);
    }
  }

  lemma SenderKeeps(s: Sender, una: int, sn: int)
    requires SndWindow(EXACT, s)
    ensures var s1 := ParseUna(EXACT, s, una); s1.nxt == s.nxt && s.una <= s1.una
    ensures var s2 := ParseAck(EXACT, ParseUna(EXACT, s, una), sn); s2.nxt == s.nxt && s.una <= s2.una
  {
    ExactLawful();
    ParseUnaWindow(EXACT, s, una);
    ParseAckWindow(EXACT, ParseUna(EXACT, s, una), sn);
  }

  lemma PushKeeps(r: Receiver, wnd: nat, w: Wire)
    ensures r.nxt <= Push(EXACT, r, wnd, w).nxt
  {
    AdvanceNxt(r.(acks := r.acks + [Ack(w.sn, w.ts)], buf := Insert(EXACT, r.buf, w)), wnd);
  }

  lemma InputSegKeeps(k: Kcb, w: Wire)
    requires Windows(EXACT, k)
    ensures var k' := InputSeg(EXACT, k, w);
            k'.cf == k.cf && k'.snd.nxt == k.snd.nxt && k.snd.una <= k'.snd.una && k.rcv.nxt <= k'.rcv.nxt
  {
    SenderKeeps(k.snd, w.una, w.sn);
    PushKeeps(k.rcv, k.cf.rcvWnd, w);
  }

  /** What the simulation of the loop of ikcp_input needs at its head. */
  ghost predicate Ready(k: Kcb, m: MaxAck, prevUna: int, ws: seq<Wire>) {
    && Windows(EXACT, k) && AllRecent(k, ws)
    && (forall i :: 0 <= i < |ws| ==> Issued(k, ws[i]) && ws[i].wnd <= MAX_FLIGHT)
    && (m.MaxAck? ==> Near(m.sn, k.snd.nxt) && m.sn < k.snd.nxt)
    && prevUna <= k.snd.una && k.snd.nxt - prevUna <= MAX_FLIGHT
  }

  lemma StayReady(k: Kcb, m: MaxAck, prevUna: int, ws: seq<Wire>)
    requires Ready(k, m, prevUna, ws) && ws != []
    ensures Ready(InputSeg(EXACT, k, ws[0]), NoteSeg(EXACT, m, ws[0]), prevUna, ws[1..])
  {
    InputSegKeeps(k, ws[0]);
    ExactLawful();
    InputSegWindows(EXACT, k, ws[0]);
  }

  lemma {:induction false} RedInputFrom(ar: Arith, k: Kcb, m: MaxAck, prevUna: int, ws: seq<Wire>)
    requires Mirror(ar) && Ready(k, m, prevUna, ws)
    ensures InputFrom(ar, Red(ar, k), RedMax(ar, m), ar.norm(prevUna), RedWires(ar, ws)) ==
            Red(ar, InputFrom(EXACT, k, m, prevUna, ws))
    decreases |ws|
  {
    if ws == [] {
      RedInputEnd(ar, k, m, prevUna);
    } else {
      RedInputSeg(ar, k, ws[0]);
      RedNoteSeg(ar, m, ws[0], k.snd.nxt);
      StayReady(k, m, prevUna, ws);
      assert RedWires(ar, ws)[1..] == RedWires(ar, ws[1..]);
      RedInputFrom(ar, InputSeg(EXACT, k, ws[0]), NoteSeg(EXACT, m, ws[0]), prevUna, ws[1..]);
    }
  }

  lemma RedInputSegs(ar: Arith, k: Kcb, ws: seq<Wire>)
    requires Mirror(ar) && Windows(EXACT, k) && AllRecent(k, ws)
    requires forall i :: 0 <= i < |ws| ==> Issued(k, ws[i]) && ws[i].wnd <= MAX_FLIGHT
    ensures InputSegs(ar, Red(ar, k), RedWires(ar, ws)) == Red(ar, InputSegs(EXACT, k, ws))
  {
    RedInputFrom(ar, k, NoAck, k.snd.una, ws);
  }

  // ---- ikcp_recv ----

  lemma {:induction false} RedFirstMessage(ar: Arith, q: seq<Wire>)
    ensures FirstMessage(RedWires(ar, q)) == FirstMessage(q)
  {
    if q != [] {
      assert RedWires(ar, q)[1..] == RedWires(ar, q[1..]);
      RedFirstMessage(ar, q[1..]);
    }
  }

  lemma RedRecv(ar: Arith, k: Kcb, len: int)
    requires Mirror(ar) && Windows(EXACT, k)
    ensures Recv(ar, Red(ar, k), len) == (Recv(EXACT, k, len).0, Red(ar, Recv(EXACT, k, len).1))
  {
    RedFirstMessage(ar, k.rcv.queue);
    var n := FirstMessage(k.rcv.queue).1;
    var r1 := if len < 0 then k.rcv else k.rcv.(queue := k.rcv.queue[n..]);
    RedTaken(ar, k.rcv, n);
    RedAdvance(ar, r1, k.cf.rcvWnd);
    assert Red(ar, k).rcv == RedReceiver(ar, k.rcv);
  }

  lemma RedTaken(ar: Arith, r: Receiver, n: nat)
    requires n <= |r.queue|
    ensures RedReceiver(ar, r.(queue := r.queue[n..]))
            == RedReceiver(ar, r).(queue := RedReceiver(ar, r).queue[n..])
  {
    assert RedWires(ar, r.queue)[n..] == RedWires(ar, r.queue[n..]);
  }

  // ---- ikcp_flush ----

  lemma RedNumberNext(ar: Arith, k: Kcb)
    requires Mirror(ar) && k.snd.queue != []
    ensures NumberNext(ar, Red(ar, k)) == Red(ar, NumberNext(EXACT, k))
  {
    var s := k.snd;
    var seg := Stamp(k, s.queue[0], s.nxt);
    assert MirrorStep(ar, s.nxt, 0);
    assert RedBuf(ar, s.buf + [seg]) == RedBuf(ar, s.buf) + [RedSeg(ar, seg)];
  }

  lemma RedFillMore(ar: Arith, k: Kcb, wnd: nat)
    requires Mirror(ar) && 0 <= k.snd.nxt - k.snd.una <= MAX_FLIGHT && wnd <= MAX_FLIGHT
    ensures Fill(ar, Red(ar, k), wnd)
            == if k.snd.queue != [] && k.snd.nxt < k.snd.una + wnd then Fill(ar, Red(ar, NumberNext(EXACT, k)), wnd)
               else Red(ar, k)
  {
    assert MirrorLaw(ar, k.snd.nxt, k.snd.una, wnd);
    if k.snd.queue != [] {
      RedNumberNext(ar, k);
    }
  }

  lemma {:induction false} RedFill(ar: Arith, k: Kcb, wnd: nat)
    requires Mirror(ar) && 0 <= k.snd.nxt - k.snd.una <= MAX_FLIGHT && wnd <= MAX_FLIGHT
    ensures Fill(ar, Red(ar, k), wnd) == Red(ar, Fill(EXACT, k, wnd))
    decreases |k.snd.queue|
  {
    FillUnfold(k, wnd);
    RedFillMore(ar, k, wnd);
    if k.snd.nxt < k.snd.una + wnd && k.snd.queue != [] {
      RedFill(ar, NumberNext(EXACT, k), wnd);
    }
  }

  lemma RedJudge(ar: Arith, k: Kcb, s: SndSeg)
    ensures Judge(Red(ar, k), RedSeg(ar, s)) == Judge(k, s)
  {
  }

  lemma RedTouch(ar: Arith, k: Kcb, s: SndSeg)
    ensures Judge(Red(ar, k), RedSeg(ar, s)) == Judge(k, s)
    ensures Touch(Red(ar, k), RedSeg(ar, s)) == RedSeg(ar, Touch(k, s))
  {
    RedJudge(ar, k, s);
    match Judge(k, s)
    case Keep =>
    case First =>
    case Timeout =>
    case Fast =>
  }

  lemma RedTouchAll(ar: Arith, k: Kcb, buf: seq<SndSeg>)
    ensures TouchAll(Red(ar, k), RedBuf(ar, buf)) == RedBuf(ar, TouchAll(k, buf))
  {
    forall i | 0 <= i < |buf|
      ensures Touch(Red(ar, k), RedSeg(ar, buf[i])) == RedSeg(ar, Touch(k, buf[i]))
    {
      RedTouch(ar, k, buf[i]);
    }
  }

  lemma {:induction false} RedDue(ar: Arith, k: Kcb, buf: seq<SndSeg>)
    ensures DueWires(Red(ar, k), RedBuf(ar, buf)) == RedWires(ar, DueWires(k, buf))
    ensures forall v :: CountJudged(Red(ar, k), RedBuf(ar, buf), v) == CountJudged(k, buf, v)
  {
    if buf != [] {
      var n := |buf| - 1;
      RedDue(ar, k, buf[..n]);
      RedTouch(ar, k, buf[n]);
      assert RedBuf(ar, buf)[..n] == RedBuf(ar, buf[..n]);
    }
  }

  lemma RedDead(ar: Arith, k: Kcb, buf: seq<SndSeg>)
    ensures (exists i :: 0 <= i < |buf| && DeadSeg(k, buf[i])) <==>
            (exists i :: 0 <= i < |RedBuf(ar, buf)| && DeadSeg(Red(ar, k), RedBuf(ar, buf)[i]))
  {
    forall i | 0 <= i < |buf|
      ensures DeadSeg(Red(ar, k), RedBuf(ar, buf)[i]) == DeadSeg(k, buf[i])
    {
      RedTouch(ar, k, buf[i]);
    }
  }

  lemma RedFlushFill(ar: Arith, k: Kcb)
    requires Mirror(ar) && Windows(EXACT, k)
    ensures FlushFill(ar, Red(ar, k)) == Red(ar, FlushFill(EXACT, k))
    ensures Windows(EXACT, FlushFill(EXACT, k))
  {
    var (clk, _) := ProbeTimer(k.clk, k.cong.rmtWnd);
    var k0 := k.(clk := clk, rcv := k.rcv.(acks := []), askSend := false, askTell := false);
    ExactLawful();
    FillWindow(EXACT, k0, SendWindow(k.cf, k.cong));
    RedFill(ar, k0, SendWindow(k.cf, k.cong));
    assert RedAcks(ar, []) == [];
  }

  lemma RedFlushBuf(ar: Arith, k: Kcb, wnd: nat)
    requires Mirror(ar) && 0 <= k.snd.nxt - k.snd.una <= MAX_FLIGHT
    ensures FlushBuf(Red(ar, k), wnd) == Red(ar, FlushBuf(k, wnd))
  {
    var buf := k.snd.buf;
    var lost, fast := CountJudged(k, buf, Timeout), CountJudged(k, buf, Fast);
    RedTouchAll(ar, k, buf);
    RedDead(ar, k, buf);
    RedDue(ar, k, buf);
    RedCong(ar, k, wnd, fast > 0, lost > 0);
    RedAfterPass(ar, k, TouchAll(k, buf), lost, exists i :: 0 <= i < |buf| && DeadSeg(k, buf[i]),
                 FlushCong(k, wnd, fast > 0, lost > 0));
  }

  lemma RedAfterPass(ar: Arith, k: Kcb, buf: seq<SndSeg>, lost: nat, dead: bool, cong: Cong)
    ensures AfterPass(Red(ar, k), RedBuf(ar, buf), lost, dead, cong) == Red(ar, AfterPass(k, buf, lost, dead, cong))
  {
  }

  lemma RedCong(ar: Arith, k: Kcb, wnd: nat, change: bool, lost: bool)
    requires Mirror(ar) && 0 <= k.snd.nxt - k.snd.una <= MAX_FLIGHT
    ensures FlushCong(Red(ar, k), wnd, change, lost) == FlushCong(k, wnd, change, lost)
  {
    assert MirrorStep(ar, k.snd.nxt, k.snd.una);
  }

  lemma RedFlushState(ar: Arith, k: Kcb)
    requires Mirror(ar) && Windows(EXACT, k)
    ensures FlushState(ar, Red(ar, k)) == Red(ar, FlushState(EXACT, k))
  {
    if k.clk.updated {
      RedFlushFill(ar, k);
      RedFlushBuf(ar, FlushFill(EXACT, k), SendWindow(k.cf, k.cong));
    }
  }

  lemma RedControl(ar: Arith, k: Kcb)
    requires Mirror(ar)
    ensures ControlWires(Red(ar, k)) == RedWires(ar, ControlWires(k))
  {
    var ask := k.askSend || ProbeTimer(k.clk, k.cong.rmtWnd).1;
    RedAckWires(ar, k);
    RedProbes(ar, k, ask, k.askTell);
    RedConcat(ar, AckWires(k), ProbeWires(k, ask, k.askTell));
  }

  lemma RedAckWires(ar: Arith, k: Kcb)
    ensures AckWires(Red(ar, k)) == RedWires(ar, AckWires(k))
  {
  }

  lemma RedProbes(ar: Arith, k: Kcb, ask: bool, tell: bool)
    requires Mirror(ar)
    ensures ProbeWires(Red(ar, k), ask, tell) == RedWires(ar, ProbeWires(k, ask, tell))
  {
  }

  lemma RedConcat(ar: Arith, a: seq<Wire>, b: seq<Wire>)
    ensures RedWires(ar, a + b) == RedWires(ar, a) + RedWires(ar, b)
  {
  }

  lemma RedFlushWires(ar: Arith, k: Kcb)
    requires Mirror(ar) && Windows(EXACT, k)
    ensures FlushWires(ar, Red(ar, k)) == RedWires(ar, FlushWires(EXACT, k))
  {
    if k.clk.updated {
      RedFlushFill(ar, k);
      var k1 := FlushFill(EXACT, k);
      RedDue(ar, k1, k1.snd.buf);
      RedControl(ar, k);
      RedConcat(ar, ControlWires(k), DueWires(k1, k1.snd.buf));
    }
  }

  function RedNet(ar: Arith, net: Net): Net {
    seq(|net|, i requires 0 <= i < |net| => RedWires(ar, net[i]))
  }

  lemma {:induction false} RedTotalSize(ar: Arith, ws: seq<Wire>)
    ensures TotalSize(RedWires(ar, ws)) == TotalSize(ws)
  {
    if ws != [] {
      assert RedWires(ar, ws)[..|ws| - 1] == RedWires(ar, ws[..|ws| - 1]);
      RedTotalSize(ar, ws[..|ws| - 1]);
    }
  }

  function RedPacking(ar: Arith, p: Packing): Packing {
    Packing(RedNet(ar, p.out), RedWires(ar, p.cur))
  }

  lemma RedPackOne(ar: Arith, p: Packing, w: Wire, mtu: nat)
    ensures PackOne(RedPacking(ar, p), RedWire(ar, w), mtu) == RedPacking(ar, PackOne(p, w, mtu))
  {
    RedTotalSize(ar, p.cur);
    assert RedNet(ar, p.out + [p.cur]) == RedNet(ar, p.out) + [RedWires(ar, p.cur)];
    assert RedWires(ar, p.cur + [w]) == RedWires(ar, p.cur) + [RedWire(ar, w)];
    assert RedWires(ar, [w]) == [RedWire(ar, w)];
  }

  lemma {:induction false} RedPackAll(ar: Arith, ws: seq<Wire>, mtu: nat)
    ensures PackAll(RedWires(ar, ws), mtu) == RedPacking(ar, PackAll(ws, mtu))
  {
    if ws != [] {
      var n := |ws| - 1;
      RedPackAll(ar, ws[..n], mtu);
      assert RedWires(ar, ws)[..n] == RedWires(ar, ws[..n]);
      RedPackOne(ar, PackAll(ws[..n], mtu), ws[n], mtu);
    }
  }

  lemma RedDatagrams(ar: Arith, ws: seq<Wire>, mtu: nat)
    ensures Datagrams(RedWires(ar, ws), mtu) == RedNet(ar, Datagrams(ws, mtu))
  {
    RedPackAll(ar, ws, mtu);
  }
}
