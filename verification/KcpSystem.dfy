// Two endpoints and the network between them, and the invariant of every run
// on unbounded sequence numbers.
module KcpSystem {
  import opened Circular
  import opened Seqs
  import opened KcpModel
  import opened KcpWindow
  import opened KcpMessages
  import opened KcpLink

  /** An endpoint, the messages it accepted and handed out, and every datagram
      it has output. */
  datatype Side = Side(k: Kcb, accepted: seq<Msg>, delivered: seq<Msg>, net: Net)

  datatype Sys = Sys(a: Side, b: Side)

  /** A call at one endpoint. `Input(i)` is the arrival of the i-th datagram the
      other side ever output, so datagrams are lost, repeated and reordered at will. */
  datatype Op = DoSend(msg: Msg) | DoRecv(len: int) | DoInput(i: nat) | DoFlush | DoUpdate(now: nat)

  datatype Event = Event(atA: bool, op: Op)

  function Act(ar: Arith, me: Side, peer: Net, op: Op): Side {
    match op
    case DoSend(msg) =>
      me.(k := Send(me.k, msg),
          accepted := if SendAccepts(me.k.cf, msg) then me.accepted + [msg] else me.accepted)
    case DoRecv(len) =>
      var (res, k) := Recv(ar, me.k, len);
      me.(k := k, delivered := if res.Received? && len >= 0 then me.delivered + [res.msg] else me.delivered)
    case DoInput(i) => if i < |peer| then me.(k := InputSegs(ar, me.k, peer[i])) else me
    case DoFlush =>
      me.(k := FlushState(ar, me.k), net := me.net + Datagrams(FlushWires(ar, me.k), me.k.cf.mtu))
    case DoUpdate(now) =>
      me.(k := UpdateState(ar, me.k, U32(now)),
          net := me.net + Datagrams(UpdateWires(ar, me.k, U32(now)), me.k.cf.mtu))
  }

  function Step(ar: Arith, s: Sys, e: Event): Sys {
    if e.atA then s.(a := Act(ar, s.a, s.b.net, e.op)) else s.(b := Act(ar, s.b, s.a.net, e.op))
  }

  function Start(cf: Conf): Side {
    Side(Create(cf), [], [], [])
  }

  /** The state after a run from two fresh control blocks. */
  function Run(ar: Arith, ca: Conf, cb: Conf, es: seq<Event>): Sys {
    if es == [] then Sys(Start(ca), Start(cb))
    else Step(ar, Run(ar, ca, cb, es[..|es| - 1]), es[|es| - 1])
  }

  /** The data flowing from `s` to `r`. */
  function DirOf(s: Side, r: Side): Dir {
    Dir(s.k.snd, r.k.rcv, r.k.cf.rcvWnd, Frags(Mss(s.k.cf), s.accepted),
        |Frags(Mss(s.k.cf), r.delivered)|, s.net, r.net)
  }

  ghost predicate Delivers(s: Side, r: Side) {
    && |r.delivered| <= |s.accepted| && r.delivered == s.accepted[..|r.delivered|]
    && forall i :: 0 <= i < |s.accepted| ==> SendAccepts(s.k.cf, s.accepted[i])
  }

  ghost predicate Flow(s: Side, r: Side) {
    Link(DirOf(s, r)) && Delivers(s, r) && s.k.cong.rmtWnd <= MAX_FLIGHT && SmallWindows(r.net)
  }

  /** Window fields fit their 16 bits. */
  ghost predicate SmallWindows(net: Net) {
    forall i, j :: 0 <= i < |net| && 0 <= j < |net[i]| ==> net[i][j].wnd <= MAX_FLIGHT
  }

  // ---- taking in a datagram ----

  lemma InputSegAsSender(d: Dir, k: Kcb, w: Wire)
    requires Link(d) && d.snd == k.snd && AckOk(d.rcv, w)
    ensures Link(d.(snd := InputSeg(EXACT, k, w).snd))
  {
    UnaLink(d, w.una);
    var d1 := d.(snd := ParseUna(EXACT, k.snd, w.una));
    if w.cmd == CMD_ACK {
      AckLink(d1, w.sn);
      assert d1.(snd := ParseAck(EXACT, d1.snd, w.sn)) == d.(snd := InputSeg(EXACT, k, w).snd);
    } else {
      assert d1 == d.(snd := InputSeg(EXACT, k, w).snd);
    }
  }

  lemma InputSegAsReceiver(d: Dir, k: Kcb, w: Wire)
    requires Link(d) && d.rcv == k.rcv && d.wnd == k.cf.rcvWnd && DataOk(d.frags, d.snd.nxt, w)
    ensures Link(d.(rcv := InputSeg(EXACT, k, w).rcv))
  {
    if w.cmd == CMD_PUSH {
      PushLink(d, w);
      assert InputSeg(EXACT, k, w).rcv == Push(EXACT, d.rcv, d.wnd, w);
    } else {
      assert d.(rcv := InputSeg(EXACT, k, w).rcv) == d;
    }
  }

  lemma {:induction false} InputFromAsSender(d: Dir, k: Kcb, m: MaxAck, prevUna: int, ws: seq<Wire>)
    requires Link(d) && d.snd == k.snd
    requires forall i :: 0 <= i < |ws| ==> AckOk(d.rcv, ws[i])
    ensures Link(d.(snd := InputFrom(EXACT, k, m, prevUna, ws).snd))
    decreases |ws|
  {
    var k' := InputFrom(EXACT, k, m, prevUna, ws);
    if ws == [] {
      if m.NoAck? {
        assert d.(snd := k'.snd) == d;
      } else {
        FastAckLink(d, m.sn);
        assert k'.snd == ParseFastAck(EXACT, d.snd, m.sn);
      }
    } else {
      InputSegAsSender(d, k, ws[0]);
      var k1 := InputSeg(EXACT, k, ws[0]);
      InputFromAsSender(d.(snd := k1.snd), k1, NoteSeg(EXACT, m, ws[0]), prevUna, ws[1..]);
      assert d.(snd := k1.snd).(snd := k'.snd) == d.(snd := k'.snd);
    }
  }

  lemma {:induction false} InputFromAsReceiver(d: Dir, k: Kcb, m: MaxAck, prevUna: int, ws: seq<Wire>)
    requires Link(d) && d.rcv == k.rcv && d.wnd == k.cf.rcvWnd
    requires forall i :: 0 <= i < |ws| ==> DataOk(d.frags, d.snd.nxt, ws[i])
    ensures Link(d.(rcv := InputFrom(EXACT, k, m, prevUna, ws).rcv))
    decreases |ws|
  {
    var k' := InputFrom(EXACT, k, m, prevUna, ws);
    if ws == [] {
      assert d.(rcv := k'.rcv) == d;
    } else {
      InputSegAsReceiver(d, k, ws[0]);
      var k1 := InputSeg(EXACT, k, ws[0]);
      InputFromAsReceiver(d.(rcv := k1.rcv), k1, NoteSeg(EXACT, m, ws[0]), prevUna, ws[1..]);
      assert d.(rcv := k1.rcv).(rcv := k'.rcv) == d.(rcv := k'.rcv);
    }
  }

  /** ikcp_input never changes the settings, and takes the peer's window from the wire. */
  lemma {:induction false} InputFromKeeps(ar: Arith, k: Kcb, m: MaxAck, prevUna: int, ws: seq<Wire>)
    requires k.cong.rmtWnd <= MAX_FLIGHT && forall i :: 0 <= i < |ws| ==> ws[i].wnd <= MAX_FLIGHT
    ensures var k' := InputFrom(ar, k, m, prevUna, ws);
            k'.cf == k.cf && k'.cong.rmtWnd <= MAX_FLIGHT
    decreases |ws|
  {
    if ws != [] {
      InputFromKeeps(ar, InputSeg(ar, k, ws[0]), NoteSeg(ar, m, ws[0]), prevUna, ws[1..]);
    }
  }

  lemma InputFlow(s: Side, r: Side, i: nat)
    requires Flow(s, r) && Flow(r, s) && i < |r.net|
    ensures Flow(Act(EXACT, s, r.net, DoInput(i)), r)
    ensures Flow(r, Act(EXACT, s, r.net, DoInput(i)))
  {
    var s' := Act(EXACT, s, r.net, DoInput(i));
    InputFromKeeps(EXACT, s.k, NoAck, s.k.snd.una, r.net[i]);
    InputFromAsSender(DirOf(s, r), s.k, NoAck, s.k.snd.una, r.net[i]);
    assert DirOf(s, r).(snd := s'.k.snd) == DirOf(s', r);
    InputFromAsReceiver(DirOf(r, s), s.k, NoAck, s.k.snd.una, r.net[i]);
    assert DirOf(r, s).(rcv := s'.k.rcv) == DirOf(r, s');
  }

  // ---- accepting and handing out messages ----

  /** What flows to an end looks at its receiving half only ... */
  lemma SameReceiverFlow(r: Side, s: Side, s': Side)
    requires Flow(r, s) && s'.k.rcv == s.k.rcv && s'.k.cf == s.k.cf && s'.delivered == s.delivered && s'.net == s.net
    ensures Flow(r, s')
  {
    assert DirOf(r, s') == DirOf(r, s);
  }

  /** ... and what flows from it at its sending half. */
  lemma SameSenderFlow(r: Side, s: Side, r': Side)
    requires Flow(r, s) && r'.k.snd == r.k.snd && r'.k.cf == r.k.cf && r'.k.cong == r.k.cong
    requires r'.accepted == r.accepted && r'.net == r.net
    ensures Flow(r', s)
  {
    assert DirOf(r', s) == DirOf(r, s);
  }

  lemma SendFlow(s: Side, r: Side, msg: Msg)
    requires Flow(s, r) && Flow(r, s)
    ensures Flow(Act(EXACT, s, r.net, DoSend(msg)), r)
    ensures Flow(r, Act(EXACT, s, r.net, DoSend(msg)))
  {
    var s' := Act(EXACT, s, r.net, DoSend(msg));
    SameReceiverFlow(r, s, s');
    if SendAccepts(s.k.cf, msg) {
      AcceptFlow(s, r, msg, s');
    } else {
      assert s' == s;
    }
  }

  lemma AcceptFlow(s: Side, r: Side, msg: Msg, s': Side)
    requires Flow(s, r) && SendAccepts(s.k.cf, msg)
    requires s' == s.(k := s'.k, accepted := s.accepted + [msg])
    requires s'.k == s.k.(snd := s.k.snd.(queue := s.k.snd.queue + Cut(Mss(s.k.cf), msg)))
    ensures Flow(s', r)
  {
    var d, more := DirOf(s, r), Cut(Mss(s.k.cf), msg);
    FragsSnoc(Mss(s.k.cf), s.accepted, msg);
    AcceptMoreLink(d, more);
    assert DirOf(s', r) == d.(frags := d.frags + more, snd := s'.k.snd);
  }

  /** The fragments of one more message. */
  lemma FragsNext(mss: nat, ms: seq<Msg>, n: nat)
    requires 0 < mss && n < |ms|
    ensures Frags(mss, ms[..n + 1]) == Frags(mss, ms[..n]) + Cut(mss, ms[n])
    ensures Frags(mss, ms[..n + 1]) <= Frags(mss, ms)
  {
    SliceLast(ms, n);
    FragsSnoc(mss, ms[..n], ms[n]);
    SliceBoth(ms, n + 1);
    FragsSplit(mss, ms[..n + 1], ms[n + 1..]);
  }

  /** A queue that is not empty holds a message that was not handed out. */
  lemma SomeLeft(s: Side, r: Side)
    requires Flow(s, r) && r.k.rcv.queue != []
    ensures |r.delivered| < |s.accepted|
  {
    SliceAll(s.accepted);
  }

  lemma FrontPayloads(q: seq<Wire>, frags: seq<Frag>, front: seq<Frag>, fs: seq<Frag>)
    requires |front + fs| <= |frags| && front + fs <= frags && |front| + |q| <= |frags|
    requires forall i :: 0 <= i < |q| ==> Payload(q[i]) == frags[|front| + i]
    ensures forall i :: 0 <= i < |q| && i < |fs| ==> Payload(q[i]) == fs[i]
  {
    forall i | 0 <= i < |q| && i < |fs|
      ensures Payload(q[i]) == fs[i]
    {
      assert frags[|front| + i] == (front + fs)[|front| + i];
    }
  }

  /** The receive queue starts with the first message not yet handed out. */
  lemma QueueStarts(s: Side, r: Side)
    requires Flow(s, r) && r.k.rcv.queue != []
    ensures |r.delivered| < |s.accepted|
    ensures var fs := Cut(Mss(s.k.cf), s.accepted[|r.delivered|]);
            forall i :: 0 <= i < |r.k.rcv.queue| && i < |fs| ==> Payload(r.k.rcv.queue[i]) == fs[i]
    ensures Frags(Mss(s.k.cf), s.accepted[..|r.delivered| + 1]) ==
            Frags(Mss(s.k.cf), r.delivered) + Cut(Mss(s.k.cf), s.accepted[|r.delivered|])
    ensures Frags(Mss(s.k.cf), s.accepted[..|r.delivered| + 1]) <= Frags(Mss(s.k.cf), s.accepted)
  {
    SomeLeft(s, r);
    var d, msg := DirOf(s, r), s.accepted[|r.delivered|];
    FragsNext(Mss(s.k.cf), s.accepted, |r.delivered|);
    FrontPayloads(d.rcv.queue, d.frags, Frags(Mss(s.k.cf), r.delivered), Cut(Mss(s.k.cf), msg));
  }

  /** Removing the first message's segments leaves the next one in front. */
  lemma PopLink(d: Dir, n: nat, r': Receiver)
    requires Link(d) && n <= |d.rcv.queue|
    requires r' == Advance(EXACT, d.rcv.(queue := d.rcv.queue[n..]), d.wnd)
    ensures Link(d.(rcv := r', base := d.base + n))
  {
    var r1 := d.rcv.(queue := d.rcv.queue[n..]);
    AdvanceLink(r1, d.wnd, d.frags, d.snd.nxt, d.base + n);
    assert forall sn :: Held(d.rcv, sn) ==> Held(r1, sn);
    assert forall i :: 0 <= i < |r1.acks| ==> 0 <= r1.acks[i].sn && Held(d.rcv, r1.acks[i].sn);
    ReceiverStep(d, r', d.base + n);
  }

  /** A peek moves segments but takes none. */
  lemma PeekFlow(s: Side, r: Side, len: int)
    requires Flow(s, r) && len < 0 && Recv(EXACT, r.k, len).0.Received?
    ensures Flow(s, Act(EXACT, r, s.net, DoRecv(len)))
  {
    var r' := Act(EXACT, r, s.net, DoRecv(len));
    var d := DirOf(s, r);
    AdvanceLink(r.k.rcv, d.wnd, d.frags, d.snd.nxt, d.base);
    ReceiverStep(d, r'.k.rcv, d.base);
    assert DirOf(s, r') == d.(rcv := r'.k.rcv, base := d.base);
  }

  lemma RecvFlow(s: Side, r: Side, len: int)
    requires Flow(s, r) && Flow(r, s)
    ensures Flow(s, Act(EXACT, r, s.net, DoRecv(len)))
    ensures Flow(Act(EXACT, r, s.net, DoRecv(len)), s)
  {
    var r' := Act(EXACT, r, s.net, DoRecv(len));
    SameSenderFlow(r, s, r');
    if Recv(EXACT, r.k, len).0.Received? {
      if len < 0 {
        PeekFlow(s, r, len);
      } else {
        RecvMessage(s, r, len);
      }
    } else {
      assert r' == r;
    }
  }

  /** A non-peek ikcp_recv returns the first accepted message not yet delivered. */
  lemma RecvMessage(s: Side, r: Side, len: int)
    requires Flow(s, r) && len >= 0 && Recv(EXACT, r.k, len).0.Received?
    ensures |r.delivered| < |s.accepted|
    ensures Recv(EXACT, r.k, len).0.msg == s.accepted[|r.delivered|]
    ensures Flow(s, Act(EXACT, r, s.net, DoRecv(len)))
  {
    var r' := Act(EXACT, r, s.net, DoRecv(len));
    var d := DirOf(s, r);
    QueueStarts(s, r);
    var msg := s.accepted[|r.delivered|];
    var n := |Cut(Mss(s.k.cf), msg)|;
    PeekWhole(Mss(s.k.cf), msg, r.k.rcv);
    FirstMessageIsCut(Mss(s.k.cf), msg, r.k.rcv.queue);
    assert r'.delivered == s.accepted[..|r.delivered| + 1];
    PopLink(d, n, r'.k.rcv);
    assert DirOf(s, r') == d.(rcv := r'.k.rcv, base := d.base + n);
  }

  /** In a reachable state ikcp_recv, also a peek, returns the next message if and only
      if all of it has arrived and it fits; otherwise it says why not and changes
      nothing. */
  lemma RecvExactly(s: Side, r: Side, len: int)
    requires Flow(s, r)
    ensures var (res, k') := Recv(EXACT, r.k, len);
            && (r.k.rcv.queue == [] ==> res == RecvError(-1))
            && (res.RecvError? ==> k' == r.k)
            && (r.k.rcv.queue != [] ==>
                  && |r.delivered| < |s.accepted|
                  && var msg := s.accepted[|r.delivered|];
                     res == if |r.k.rcv.queue| < |Cut(Mss(s.k.cf), msg)| then RecvError(-2)
                            else if |msg| > Abs(len) then RecvError(-3) else Received(msg))
  {
    if r.k.rcv.queue != [] {
      QueueStarts(s, r);
      RecvCut(Mss(s.k.cf), s.accepted[|r.delivered|], r.k, len);
    }
  }

  lemma RecvCut(mss: nat, msg: Msg, k: Kcb, len: int)
    requires 0 < mss && k.rcv.queue != []
    requires forall i :: 0 <= i < |k.rcv.queue| && i < |Cut(mss, msg)| ==> Payload(k.rcv.queue[i]) == Cut(mss, msg)[i]
    ensures Recv(EXACT, k, len).0 == if |k.rcv.queue| < |Cut(mss, msg)| then RecvError(-2)
                                     else if |msg| > Abs(len) then RecvError(-3) else Received(msg)
  {
    PeekWhole(mss, msg, k.rcv);
    if |k.rcv.queue| >= |Cut(mss, msg)| {
      FirstMessageIsCut(mss, msg, k.rcv.queue);
    }
  }

  // ---- writing ----

  ghost predicate AllIn(ds: Net, ws: seq<Wire>) {
    forall i, j :: 0 <= i < |ds| && 0 <= j < |ds[i]| ==> ds[i][j] in ws
  }

  lemma DatagramsAll(ws: seq<Wire>, mtu: nat)
    ensures AllIn(Datagrams(ws, mtu), ws)
  {
    PackAllFrom(ws, mtu);
  }

  lemma {:induction false} PackAllFrom(ws: seq<Wire>, mtu: nat)
    ensures AllIn(PackAll(ws, mtu).out + [PackAll(ws, mtu).cur], ws)
    ensures AllIn(PackAll(ws, mtu).out, ws)
  {
    if ws != [] {
      var n := |ws| - 1;
      PackAllFrom(ws[..n], mtu);
      var p, p' := PackAll(ws[..n], mtu), PackAll(ws, mtu);
      var ds, ds' := p.out + [p.cur], p'.out + [p'.cur];
      forall i, j | 0 <= i < |ds'| && 0 <= j < |ds'[i]|
        ensures ds'[i][j] in ws
      {
        if i < |ds| && j < |ds[i]| {
          assert ds[i][j] in ws[..n];
        }
      }
      forall i, j | 0 <= i < |p'.out| && 0 <= j < |p'.out[i]|
        ensures p'.out[i][j] in ws
      {
        assert ds'[i][j] in ws;
      }
    }
  }

  /** What ikcp_flush writes: truthful acknowledgements and carried data. */
  lemma FlushNxt(k: Kcb)
    ensures k.clk.updated ==> FlushState(EXACT, k).snd.nxt == FlushFill(EXACT, k).snd.nxt
  {
  }

  lemma FlushWiresOk(s: Side, r: Side, w: Wire)
    requires Flow(s, r) && Flow(r, s) && w in FlushWires(EXACT, s.k)
    ensures DataOk(DirOf(s, r).frags, FlushState(EXACT, s.k).snd.nxt, w)
    ensures AckOk(s.k.rcv, w) && w.wnd <= MAX_FLIGHT
  {
    var k1 := FlushFill(EXACT, s.k);
    FillFlow(s, r);
    FlushNxt(s.k);
    if w in DueWires(k1, k1.snd.buf) {
      DueData(k1, k1.snd.buf, DirOf(s, r).frags, k1.snd.nxt);
      DueAreData(k1, k1.snd.buf);
      DueWindows(k1, k1.snd.buf);
    } else {
      ControlOk(s.k, w);
    }
  }

  lemma ControlOk(k: Kcb, w: Wire)
    requires 0 <= k.rcv.nxt
    requires forall i :: 0 <= i < |k.rcv.acks| ==> 0 <= k.rcv.acks[i].sn && Held(k.rcv, k.rcv.acks[i].sn)
    requires w in ControlWires(k)
    ensures w.cmd != CMD_PUSH && AckOk(k.rcv, w) && w.wnd <= MAX_FLIGHT
  {
  }

  lemma {:induction false} DueWindows(k: Kcb, buf: seq<SndSeg>)
    ensures forall i :: 0 <= i < |DueWires(k, buf)| ==> DueWires(k, buf)[i].wnd <= MAX_FLIGHT
  {
    if buf != [] {
      DueWindows(k, buf[..|buf| - 1]);
    }
  }

  /** Filling snd_buf keeps the link, and changes nothing but the sender. */
  lemma FillFlow(s: Side, r: Side)
    requires Flow(s, r)
    ensures var k1 := FlushFill(EXACT, s.k);
            && Link(DirOf(s, r).(snd := k1.snd)) && k1.rcv == s.k.rcv.(acks := []) && k1.cf == s.k.cf
            && k1.cong == s.k.cong
  {
    var k := s.k;
    var (clk, _) := ProbeTimer(k.clk, k.cong.rmtWnd);
    var k0 := k.(clk := clk, rcv := k.rcv.(acks := []), askSend := false, askTell := false);
    ExactLawful();
    FillWindow(EXACT, k0, SendWindow(k.cf, k.cong));
    FillLink(DirOf(s, r), k0, SendWindow(k.cf, k.cong));
  }

  lemma FlushFlow(s: Side, r: Side)
    requires Flow(s, r) && Flow(r, s)
    ensures Flow(Act(EXACT, s, r.net, DoFlush), r)
    ensures Flow(r, Act(EXACT, s, r.net, DoFlush))
  {
    var s' := Act(EXACT, s, r.net, DoFlush);
    var more := Datagrams(FlushWires(EXACT, s.k), s.k.cf.mtu);
    DatagramsAll(FlushWires(EXACT, s.k), s.k.cf.mtu);
    forall i, j | 0 <= i < |more| && 0 <= j < |more[i]|
      ensures DataOk(DirOf(s, r).frags, s'.k.snd.nxt, more[i][j]) && AckOk(s.k.rcv, more[i][j])
      ensures more[i][j].wnd <= MAX_FLIGHT
    {
      FlushWiresOk(s, r, more[i][j]);
    }
    if s.k.clk.updated {
      FlushAsSender(s, r, more);
      FlushAsReceiver(s, r, more);
    } else {
      assert more == [];
      assert s' == s;
    }
  }

  lemma FlushAsSender(s: Side, r: Side, more: Net)
    requires Flow(s, r) && s.k.clk.updated
    requires NetData(more, DirOf(s, r).frags, FlushState(EXACT, s.k).snd.nxt)
    ensures Flow(s.(k := FlushState(EXACT, s.k), net := s.net + more), r)
  {
    var s' := s.(k := FlushState(EXACT, s.k), net := s.net + more);
    FillFlow(s, r);
    var k1 := FlushFill(EXACT, s.k);
    var d1 := DirOf(s, r).(snd := k1.snd);
    TouchLink(d1, k1);
    var d2 := d1.(snd := s'.k.snd);
    assert d2.snd == k1.snd.(buf := TouchAll(k1, k1.snd.buf));
    SendMoreLink(d2, more);
    assert DirOf(s', r) == d2.(snet := s.net + more);
  }

  lemma FlushAsReceiver(s: Side, r: Side, more: Net)
    requires Flow(s, r) && Flow(r, s) && s.k.clk.updated
    requires NetAcks(more, s.k.rcv) && SmallWindows(more)
    ensures Flow(r, s.(k := FlushState(EXACT, s.k), net := s.net + more))
  {
    var s' := s.(k := FlushState(EXACT, s.k), net := s.net + more);
    FillFlow(s, r);
    SayMoreLink(DirOf(r, s), more);
    assert DirOf(r, s') == DirOf(r, s).(rcv := s.k.rcv.(acks := []), rnet := s.net + more);
  }

  function Ticked(me: Side, now: nat): Side {
    me.(k := me.k.(clk := Tick(me.k.clk, me.k.cf.interval, U32(now)).0))
  }

  /** ikcp_update sets the clock and then flushes or does nothing more. */
  lemma UpdateIsFlush(ar: Arith, me: Side, peer: Net, now: nat)
    ensures Act(ar, me, peer, DoUpdate(now)) ==
            if Tick(me.k.clk, me.k.cf.interval, U32(now)).1
            then Act(ar, Ticked(me, now), peer, DoFlush) else Ticked(me, now)
  {
    assert Datagrams([], me.k.cf.mtu) == [];
    assert me.net + [] == me.net;
  }

  lemma TickedFlow(s: Side, r: Side, now: nat)
    requires Flow(s, r) && Flow(r, s)
    ensures Flow(Ticked(s, now), r) && Flow(r, Ticked(s, now))
  {
    assert DirOf(Ticked(s, now), r) == DirOf(s, r) && DirOf(r, Ticked(s, now)) == DirOf(r, s);
  }

  lemma UpdateFlow(s: Side, r: Side, now: nat)
    requires Flow(s, r) && Flow(r, s)
    ensures Flow(Act(EXACT, s, r.net, DoUpdate(now)), r)
    ensures Flow(r, Act(EXACT, s, r.net, DoUpdate(now)))
  {
    UpdateIsFlush(EXACT, s, r.net, now);
    TickedFlow(s, r, now);
    if Tick(s.k.clk, s.k.cf.interval, U32(now)).1 {
      FlushFlow(Ticked(s, now), r);
    }
  }

  // ---- every run ----

  lemma ActFlow(s: Side, r: Side, op: Op)
    requires Flow(s, r) && Flow(r, s)
    ensures Flow(Act(EXACT, s, r.net, op), r) && Flow(r, Act(EXACT, s, r.net, op))
  {
    match op
    case DoSend(msg) => SendFlow(s, r, msg);
    case DoRecv(len) => RecvFlow(r, s, len);
    case DoInput(i) => if i < |r.net| { InputFlow(s, r, i); }
    case DoFlush => FlushFlow(s, r);
    case DoUpdate(now) => UpdateFlow(s, r, now);
  }

  lemma StartFlow(ca: Conf, cb: Conf)
    ensures Flow(Start(ca), Start(cb))
  {
    ExactLawful();
    CreateWindows(EXACT, ca);
    CreateWindows(EXACT, cb);
  }

  /** The invariant holds in every reachable state, in both directions. */
  lemma {:induction false} RunFlow(ca: Conf, cb: Conf, es: seq<Event>)
    ensures var s := Run(EXACT, ca, cb, es); Flow(s.a, s.b) && Flow(s.b, s.a)
  {
    if es == [] {
      StartFlow(ca, cb);
      StartFlow(cb, ca);
    } else {
      var n := |es| - 1;
      RunFlow(ca, cb, es[..n]);
      var s := Run(EXACT, ca, cb, es[..n]);
      if es[n].atA {
        ActFlow(s.a, s.b, es[n].op);
      } else {
        ActFlow(s.b, s.a, es[n].op);
      }
    }
  }

  /** No receive deadlock: a queue of at least 127 segments starts with a
      complete message, so ikcp_peeksize is its length. */
  lemma NoDeadlock(s: Side, r: Side)
    requires Flow(s, r) && |r.k.rcv.queue| >= WND_RCV - 1
    ensures |r.delivered| < |s.accepted|
    ensures PeekSize(r.k.rcv) == |s.accepted[|r.delivered|]|
    ensures FirstMessage(r.k.rcv.queue).0 == s.accepted[|r.delivered|]
  {
    QueueStarts(s, r);
    var msg := s.accepted[|r.delivered|];
    CutShape(Mss(s.k.cf), msg);
    PeekWhole(Mss(s.k.cf), msg, r.k.rcv);
    FirstMessageIsCut(Mss(s.k.cf), msg, r.k.rcv.queue);
  }
}
