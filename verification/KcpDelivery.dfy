// The connection as it runs: 32-bit sequence numbers, datagrams of bytes.
// Reliable, in-order, exactly-once delivery and the absence of forgotten data
// are carried over from the run on unbounded numbers.
module KcpDelivery {
  import opened Circular
  import opened KcpModel
  import opened KcpWire
  import opened KcpWindow
  import opened KcpPacking
  import opened KcpMessages
  import opened KcpLink
  import opened KcpSystem
  import opened KcpWrap
  import opened KcpEndpoint

  datatype ByteSide = ByteSide(k: Kcb, accepted: seq<Msg>, delivered: seq<Msg>, net: seq<seq<Byte>>)
  datatype ByteSys = ByteSys(a: ByteSide, b: ByteSide)

  /** The call an operation makes; a datagram that does not exist makes none. */
  function CallOf(peer: seq<seq<Byte>>, op: Op): Call
    requires op.DoInput? ==> op.i < |peer|
  {
    match op
    case DoSend(msg) => CallSend(msg)
    case DoRecv(len) => CallRecv(len)
    case DoInput(i) => CallInput(peer[i])
    case DoFlush => CallFlush
    case DoUpdate(now) => CallUpdate(now)
  }

  function ByteAct(me: ByteSide, peer: seq<seq<Byte>>, op: Op): ByteSide {
    if op.DoInput? && op.i >= |peer| then me
    else
      var c := CallOf(peer, op);
      ByteSide(
        Do(me.k, c),
        if op.DoSend? && SendAccepts(me.k.cf, op.msg) then me.accepted + [op.msg] else me.accepted,
        if op.DoRecv? && op.len >= 0 && Recv(WRAP, me.k, op.len).0.Received?
          then me.delivered + [Recv(WRAP, me.k, op.len).0.msg] else me.delivered,
        me.net + Bytes(Output(me.k, c)))
  }

  function ByteStep(s: ByteSys, e: Event): ByteSys {
    if e.atA then s.(a := ByteAct(s.a, s.b.net, e.op)) else s.(b := ByteAct(s.b, s.a.net, e.op))
  }

  /** Two control blocks exchanging bytes. */
  function ByteRun(ca: Conf, cb: Conf, es: seq<Event>): ByteSys {
    if es == [] then ByteSys(ByteSide(Create(ca), [], [], []), ByteSide(Create(cb), [], [], []))
    else ByteStep(ByteRun(ca, cb, es[..|es| - 1]), es[|es| - 1])
  }

  // ---- from bytes to segments ----

  function ToBytes(s: Side): ByteSide {
    ByteSide(s.k, s.accepted, s.delivered, Bytes(s.net))
  }

  ghost predicate GoodNet(conv: nat, net: Net) {
    forall i :: 0 <= i < |net| ==> net[i] != [] && OwnWires(conv, net[i])
  }

  ghost predicate GoodSide(s: Side, conv: nat) {
    Sound(s.k) && s.k.cf.conv == conv && GoodNet(conv, s.net)
  }

  lemma DatagramsGood(cf: Conf, ws: seq<Wire>)
    requires AllWritable(cf, ws)
    ensures GoodNet(cf.conv, Datagrams(ws, cf.mtu))
  {
    var ds := Datagrams(ws, cf.mtu);
    DatagramsFit(ws, cf.mtu);
    DatagramsAll(ws, cf.mtu);
    forall i | 0 <= i < |ds|
      ensures ds[i] != [] && OwnWires(cf.conv, ds[i])
    {
      forall j | 0 <= j < |ds[i]|
        ensures Writable(cf, ds[i][j])
      {
        assert ds[i][j] in ws;
      }
    }
  }

  lemma OutputGood(k: Kcb, c: Call)
    requires Encodable(k)
    ensures GoodNet(k.cf.conv, Output(k, c))
  {
    if c.CallFlush? {
      FlushWritable(k);
      DatagramsGood(k.cf, FlushWires(WRAP, k));
    } else if c.CallUpdate? {
      var (clk, flush) := Tick(k.clk, k.cf.interval, U32(c.now));
      if flush {
        FlushWritable(k.(clk := clk));
      }
      DatagramsGood(k.cf, UpdateWires(WRAP, k, U32(c.now)));
    }
  }

  lemma BytesConcat(a: Net, b: Net)
    ensures Bytes(a + b) == Bytes(a) + Bytes(b)
  {
  }

  /** An operation on segments is the call on bytes. */
  lemma ActIsCall(me: Side, peer: Net, op: Op)
    requires GoodNet(me.k.cf.conv, peer) && (op.DoInput? ==> op.i < |peer|)
    ensures var c := CallOf(Bytes(peer), op);
            && Act(WRAP, me, peer, op).k == Do(me.k, c)
            && Act(WRAP, me, peer, op).net == me.net + Output(me.k, c)
  {
    if op.DoInput? {
      InputIsCall(me, peer, op);
    } else if op.DoFlush? {
      FlushIsCall(me, peer);
    } else if op.DoUpdate? {
      UpdateIsCall(me, peer, op.now);
    } else {
      LocalIsCall(me, peer, op);
    }
  }

  /** Only flushes put anything out. */
  lemma NothingOut(net: Net, k: Kcb, c: Call)
    requires !c.CallFlush? && !c.CallUpdate?
    ensures net + Output(k, c) == net
  {
    assert net + [] == net;
  }

  lemma LocalIsCall(me: Side, peer: Net, op: Op)
    requires op.DoSend? || op.DoRecv?
    ensures var c := CallOf(Bytes(peer), op);
            && Act(WRAP, me, peer, op).k == Do(me.k, c)
            && Act(WRAP, me, peer, op).net == me.net + Output(me.k, c)
  {
    NothingOut(me.net, me.k, CallOf(Bytes(peer), op));
  }

  lemma FlushIsCall(me: Side, peer: Net)
    ensures var me' := Act(WRAP, me, peer, DoFlush);
            me'.k == Do(me.k, CallFlush) && me'.net == me.net + Output(me.k, CallFlush)
  {
  }

  lemma UpdateIsCall(me: Side, peer: Net, now: nat)
    ensures var me' := Act(WRAP, me, peer, DoUpdate(now));
            me'.k == Do(me.k, CallUpdate(now)) && me'.net == me.net + Output(me.k, CallUpdate(now))
  {
  }

  lemma InputIsCall(me: Side, peer: Net, op: Op)
    requires GoodNet(me.k.cf.conv, peer) && op.DoInput? && op.i < |peer|
    ensures var c := CallOf(Bytes(peer), op);
            && Act(WRAP, me, peer, op).k == Do(me.k, c)
            && Act(WRAP, me, peer, op).net == me.net + Output(me.k, c)
  {
    InputEncoded(WRAP, me.k, peer[op.i]);
    NothingOut(me.net, me.k, CallOf(Bytes(peer), op));
  }

  /** A call on bytes does what the call on segments does. */
  lemma ActAgrees(me: Side, peer: Side, conv: nat, op: Op)
    requires GoodSide(me, conv) && GoodSide(peer, conv)
    ensures ByteAct(ToBytes(me), Bytes(peer.net), op) == ToBytes(Act(WRAP, me, peer.net, op))
    ensures GoodSide(Act(WRAP, me, peer.net, op), conv)
  {
    if !op.DoInput? || op.i < |peer.net| {
      var c := CallOf(Bytes(peer.net), op);
      ActIsCall(me, peer.net, op);
      BytesConcat(me.net, Output(me.k, c));
      GoodAfter(me, conv, c, Act(WRAP, me, peer.net, op));
    }
  }

  lemma GoodAfter(me: Side, conv: nat, c: Call, me': Side)
    requires GoodSide(me, conv) && me'.k == Do(me.k, c) && me'.net == me.net + Output(me.k, c)
    ensures GoodSide(me', conv)
  {
    DoSound(me.k, c);
    DoKeeps(me.k, c);
    OutputGood(me.k, c);
    GoodAppend(conv, me.net, Output(me.k, c));
  }

  lemma GoodAppend(conv: nat, a: Net, b: Net)
    requires GoodNet(conv, a) && GoodNet(conv, b)
    ensures GoodNet(conv, a + b)
  {
  }

  lemma {:induction false} InputBytesKeeps(k: Kcb, m: MaxAck, prevUna: int, cmd: int, d: seq<Byte>)
    ensures InputBytesFrom(WRAP, k, m, prevUna, cmd, d).1.cf == k.cf
    decreases |d|
  {
    var p := ParseOne(k.cf.conv, d);
    if p.Got? {
      InputBytesKeeps(InputSeg(WRAP, k, p.w), NoteSeg(WRAP, m, p.w), prevUna, p.w.cmd, p.rest);
    }
  }

  lemma {:induction false} FillKeeps(ar: Arith, k: Kcb, wnd: nat)
    ensures Fill(ar, k, wnd).cf == k.cf
    decreases |k.snd.queue|
  {
    if k.snd.queue != [] {
      FillKeeps(ar, NumberNext(ar, k), wnd);
    }
  }

  lemma FlushKeeps(ar: Arith, k: Kcb)
    ensures FlushState(ar, k).cf == k.cf
  {
    var (clk, _) := ProbeTimer(k.clk, k.cong.rmtWnd);
    FillKeeps(ar, k.(clk := clk, rcv := k.rcv.(acks := []), askSend := false, askTell := false),
              SendWindow(k.cf, k.cong));
  }

  /** No call changes the settings. */
  lemma DoKeeps(k: Kcb, c: Call)
    ensures Do(k, c).cf == k.cf
  {
    match c
    case CallSend(_) =>
    case CallRecv(_) =>
    case CallInput(d) => InputBytesKeeps(k, NoAck, k.snd.una, 0, d);
    case CallFlush => FlushKeeps(WRAP, k);
    case CallUpdate(now) => FlushKeeps(WRAP, k.(clk := Tick(k.clk, k.cf.interval, U32(now)).0));
  }

  lemma {:induction false} RunAgrees(ca: Conf, cb: Conf, es: seq<Event>)
    requires ca.conv == cb.conv
    ensures var s := Run(WRAP, ca, cb, es);
            && ByteRun(ca, cb, es) == ByteSys(ToBytes(s.a), ToBytes(s.b))
            && GoodSide(s.a, ca.conv) && GoodSide(s.b, ca.conv)
  {
    if es == [] {
      AlwaysSound(ca, []);
      AlwaysSound(cb, []);
      assert Bytes([]) == [];
    } else {
      var n := |es| - 1;
      RunAgrees(ca, cb, es[..n]);
      var s := Run(WRAP, ca, cb, es[..n]);
      if es[n].atA {
        ActAgrees(s.a, s.b, ca.conv, es[n].op);
      } else {
        ActAgrees(s.b, s.a, ca.conv, es[n].op);
      }
    }
  }

  // ---- from wrapping to unbounded numbers ----

  function RedSide(ar: Arith, s: Side): Side {
    Side(Red(ar, s.k), s.accepted, s.delivered, RedNet(ar, s.net))
  }

  /** No datagram outlives half the number space: when one arrives, the numbers
      it names are less than 2^31 behind. */
  predicate RecentStep(s: Sys, e: Event) {
    var (me, peer) := if e.atA then (s.a, s.b) else (s.b, s.a);
    e.op.DoInput? && e.op.i < |peer.net| ==> AllRecent(me.k, peer.net[e.op.i])
  }

  predicate RecentRun(ca: Conf, cb: Conf, es: seq<Event>) {
    es == [] ||
    (RecentRun(ca, cb, es[..|es| - 1]) && RecentStep(Run(EXACT, ca, cb, es[..|es| - 1]), es[|es| - 1]))
  }

  /** A sender is never more than the receive window and its own flight ahead. */
  lemma FlightBound(d: Dir)
    requires Link(d)
    ensures d.snd.una <= d.rcv.nxt + d.wnd
  {
    var sn := d.rcv.nxt + d.wnd;
    assert !Held(d.rcv, sn);
    assert 0 <= sn < d.snd.nxt ==> Unacked(d.snd, sn);
    assert Unacked(d.snd, sn) ==> d.snd.una <= sn;
  }

  lemma FlowWindows(s: Side, r: Side)
    requires Flow(s, r) && Flow(r, s)
    ensures Windows(EXACT, s.k)
  {
  }

  lemma FlowIssued(s: Side, r: Side, i: nat, j: nat)
    requires Flow(s, r) && Flow(r, s) && i < |r.net| && j < |r.net[i]|
    ensures Issued(s.k, r.net[i][j]) && r.net[i][j].wnd <= MAX_FLIGHT
  {
    var w := r.net[i][j];
    assert AckOk(r.k.rcv, w);
    assert DataOk(DirOf(r, s).frags, r.k.snd.nxt, w);
    FlightBound(DirOf(r, s));
  }

  lemma RedNetConcat(ar: Arith, a: Net, b: Net)
    ensures RedNet(ar, a + b) == RedNet(ar, a) + RedNet(ar, b)
  {
  }

  lemma RedFlushAct(ar: Arith, me: Side, peer: Net)
    requires Mirror(ar) && Windows(EXACT, me.k)
    ensures Act(ar, RedSide(ar, me), RedNet(ar, peer), DoFlush) == RedSide(ar, Act(EXACT, me, peer, DoFlush))
  {
    var mtu := me.k.cf.mtu;
    RedFlushState(ar, me.k);
    assert Datagrams(FlushWires(ar, Red(ar, me.k)), mtu) == RedNet(ar, Datagrams(FlushWires(EXACT, me.k), mtu)) by {
      RedFlushWires(ar, me.k);
      RedDatagrams(ar, FlushWires(EXACT, me.k), mtu);
    }
    RedNetConcat(ar, me.net, Datagrams(FlushWires(EXACT, me.k), mtu));
  }

  lemma RedUpdateAct(ar: Arith, me: Side, peer: Net, now: nat)
    requires Mirror(ar) && Windows(EXACT, me.k)
    ensures Act(ar, RedSide(ar, me), RedNet(ar, peer), DoUpdate(now))
            == RedSide(ar, Act(EXACT, me, peer, DoUpdate(now)))
  {
    UpdateIsFlush(EXACT, me, peer, now);
    UpdateIsFlush(ar, RedSide(ar, me), RedNet(ar, peer), now);
    assert Ticked(RedSide(ar, me), now) == RedSide(ar, Ticked(me, now));
    if Tick(me.k.clk, me.k.cf.interval, U32(now)).1 {
      RedFlushAct(ar, Ticked(me, now), peer);
    }
  }

  lemma RedSendAct(ar: Arith, me: Side, peer: Net, msg: seq<Byte>)
    ensures Act(ar, RedSide(ar, me), RedNet(ar, peer), DoSend(msg)) == RedSide(ar, Act(EXACT, me, peer, DoSend(msg)))
  {
  }

  lemma RedRecvAct(ar: Arith, me: Side, peer: Net, len: int)
    requires Mirror(ar) && Windows(EXACT, me.k)
    ensures Act(ar, RedSide(ar, me), RedNet(ar, peer), DoRecv(len)) == RedSide(ar, Act(EXACT, me, peer, DoRecv(len)))
  {
    RedRecv(ar, me.k, len);
  }

  lemma RedInputAct(ar: Arith, me: Side, peer: Net, i: nat)
    requires Mirror(ar) && Windows(EXACT, me.k) && i < |peer| && AllRecent(me.k, peer[i])
    requires forall j | 0 <= j < |peer[i]| :: Issued(me.k, peer[i][j]) && peer[i][j].wnd <= MAX_FLIGHT
    ensures Act(ar, RedSide(ar, me), RedNet(ar, peer), DoInput(i)) == RedSide(ar, Act(EXACT, me, peer, DoInput(i)))
  {
    RedInputSegs(ar, me.k, peer[i]);
  }

  lemma RedAct(ar: Arith, s: Side, r: Side, op: Op)
    requires Mirror(ar) && Flow(s, r) && Flow(r, s)
    requires op.DoInput? && op.i < |r.net| ==> AllRecent(s.k, r.net[op.i])
    ensures Act(ar, RedSide(ar, s), RedNet(ar, r.net), op) == RedSide(ar, Act(EXACT, s, r.net, op))
  {
    match op
    case DoSend(msg) => RedSendAct(ar, s, r.net, msg);
    case DoRecv(len) =>
      FlowWindows(s, r);
      RedRecvAct(ar, s, r.net, len);
    case DoInput(i) =>
      if i < |r.net| {
        FlowWindows(s, r);
        FlowIssuedAll(s, r, i);
        RedInputAct(ar, s, r.net, i);
      }
    case DoFlush =>
      FlowWindows(s, r);
      RedFlushAct(ar, s, r.net);
    case DoUpdate(now) =>
      FlowWindows(s, r);
      RedUpdateAct(ar, s, r.net, now);
  }

  lemma FlowIssuedAll(s: Side, r: Side, i: nat)
    requires Flow(s, r) && Flow(r, s) && i < |r.net|
    ensures forall j | 0 <= j < |r.net[i]| :: Issued(s.k, r.net[i][j]) && r.net[i][j].wnd <= MAX_FLIGHT
  {
    forall j | 0 <= j < |r.net[i]|
      ensures Issued(s.k, r.net[i][j]) && r.net[i][j].wnd <= MAX_FLIGHT
    {
      FlowIssued(s, r, i, j);
    }
  }

  /** Reducing every number of the unbounded run gives the 32-bit run. */
  lemma {:induction false} RedRun(ca: Conf, cb: Conf, es: seq<Event>)
    requires RecentRun(ca, cb, es)
    ensures var x := Run(EXACT, ca, cb, es);
            Run(WRAP, ca, cb, es) == Sys(RedSide(WRAP, x.a), RedSide(WRAP, x.b))
  {
    WrapMirror();
    if es != [] {
      var n := |es| - 1;
      RedRun(ca, cb, es[..n]);
      RunFlow(ca, cb, es[..n]);
      var x := Run(EXACT, ca, cb, es[..n]);
      if es[n].atA {
        RedAct(WRAP, x.a, x.b, es[n].op);
      } else {
        RedAct(WRAP, x.b, x.a, es[n].op);
      }
    } else {
      RedStart(WRAP, ca);
      RedStart(WRAP, cb);
    }
  }

  lemma RedStart(ar: Arith, cf: Conf)
    requires Mirror(ar)
    ensures RedSide(ar, Start(cf)) == Start(cf)
  {
  }

  /** The run on bytes is the unbounded run with its numbers reduced. */
  lemma ByteRunIsRed(ca: Conf, cb: Conf, es: seq<Event>)
    requires ca.conv == cb.conv && RecentRun(ca, cb, es)
    ensures var x := Run(EXACT, ca, cb, es);
            ByteRun(ca, cb, es) == ByteSys(ToBytes(RedSide(WRAP, x.a)), ToBytes(RedSide(WRAP, x.b)))
  {
    RunAgrees(ca, cb, es);
    RedRun(ca, cb, es);
  }

  // ---- the main results ----

  /** Exactly-once, in-order delivery. Over any interleaving of calls at both
      ends, with datagrams lost, repeated and reordered, the messages returned
      by ikcp_recv are a prefix of those accepted by ikcp_send at the other end. */
  lemma InOrderDelivery(ca: Conf, cb: Conf, es: seq<Event>)
    requires ca.conv == cb.conv && RecentRun(ca, cb, es)
    ensures var s := ByteRun(ca, cb, es);
            s.b.delivered <= s.a.accepted && s.a.delivered <= s.b.accepted
  {
    ByteRunIsRed(ca, cb, es);
    RunFlow(ca, cb, es);
  }

  /** In the data flowing from `s` to `r`, every number issued is still with the
      sender or already with the receiver, every acknowledgement queued or in
      flight names data the receiver has, and every `una` in flight is at most
      its rcv_nxt. */
  ghost predicate Remembered(s: Side, r: Side) {
    && (forall sn :: 0 <= sn < s.k.snd.nxt ==> Unacked(s.k.snd, sn) || Held(r.k.rcv, sn))
    && (forall i :: 0 <= i < |r.k.rcv.acks| ==> Held(r.k.rcv, r.k.rcv.acks[i].sn))
    && (forall i, j :: 0 <= i < |r.net| && 0 <= j < |r.net[i]| ==>
          && (r.net[i][j].cmd == CMD_ACK ==> Held(r.k.rcv, r.net[i][j].sn))
          && r.net[i][j].una <= r.k.rcv.nxt)
  }

  lemma FlowRemembers(s: Side, r: Side)
    requires Flow(s, r)
    ensures Remembered(s, r)
  {
    forall i, j | 0 <= i < |r.net| && 0 <= j < |r.net[i]|
      ensures AckOk(r.k.rcv, r.net[i][j])
    {
    }
  }

  /** Nothing is forgotten in either direction, in the terms of the unbounded
      run that the run of bytes is the reduction of. */
  lemma NothingForgotten(ca: Conf, cb: Conf, es: seq<Event>)
    requires ca.conv == cb.conv && RecentRun(ca, cb, es)
    ensures var x := Run(EXACT, ca, cb, es);
            && ByteRun(ca, cb, es) == ByteSys(ToBytes(RedSide(WRAP, x.a)), ToBytes(RedSide(WRAP, x.b)))
            && Remembered(x.a, x.b) && Remembered(x.b, x.a)
  {
    ByteRunIsRed(ca, cb, es);
    RunFlow(ca, cb, es);
    var x := Run(EXACT, ca, cb, es);
    FlowRemembers(x.a, x.b);
    FlowRemembers(x.b, x.a);
  }

  /** A queue of 127 segments or more starts with the next accepted message. */
  ghost predicate Readable(accepted: seq<Msg>, delivered: seq<Msg>, rcv: Receiver) {
    |rcv.queue| >= WND_RCV - 1 ==>
      && |delivered| < |accepted|
      && FirstMessage(rcv.queue).0 == accepted[|delivered|]
      && PeekSize(rcv) == |accepted[|delivered|]|
  }

  lemma FlowReadable(s: Side, r: Side)
    requires Flow(s, r)
    ensures Readable(s.accepted, r.delivered, RedReceiver(WRAP, r.k.rcv))
  {
    if |r.k.rcv.queue| >= WND_RCV - 1 {
      NoDeadlock(s, r);
      RedFirstMessage(WRAP, r.k.rcv.queue);
    }
  }

  /** A receiver whose queue holds 127 segments or more can always be read, at
      either end. */
  lemma NeverStuck(ca: Conf, cb: Conf, es: seq<Event>)
    requires ca.conv == cb.conv && RecentRun(ca, cb, es)
    ensures var s := ByteRun(ca, cb, es);
            Readable(s.a.accepted, s.b.delivered, s.b.k.rcv) && Readable(s.b.accepted, s.a.delivered, s.a.k.rcv)
  {
    ByteRunIsRed(ca, cb, es);
    RunFlow(ca, cb, es);
    var x := Run(EXACT, ca, cb, es);
    FlowReadable(x.a, x.b);
    FlowReadable(x.b, x.a);
  }

  // ---- when numbers cannot get old ----

  /** The messages a run of calls gets accepted at one end. */
  function AcceptedBy(cf: Conf, es: seq<Event>, atA: bool): seq<Msg> {
    if es == [] then []
    else
      var e := es[|es| - 1];
      AcceptedBy(cf, es[..|es| - 1], atA)
      + (if e.atA == atA && e.op.DoSend? && SendAccepts(cf, e.op.msg) then [e.op.msg] else [])
  }

  /** The fragments sent from an end with settings `c` to one with settings `d`
      are too few for the number space and the receive window to be used up. */
  predicate Few(c: Conf, d: Conf, msgs: seq<Msg>) {
    |Frags(Mss(c), msgs)| + d.rcvWnd <= HALF
  }

  lemma {:induction false} InputKeeps(ar: Arith, k: Kcb, m: MaxAck, prevUna: int, ws: seq<Wire>)
    ensures InputFrom(ar, k, m, prevUna, ws).cf == k.cf
    decreases |ws|
  {
    if ws != [] {
      InputKeeps(ar, InputSeg(ar, k, ws[0]), NoteSeg(ar, m, ws[0]), prevUna, ws[1..]);
    }
  }

  lemma ActKeeps(ar: Arith, me: Side, peer: Net, op: Op)
    ensures Act(ar, me, peer, op).k.cf == me.k.cf
  {
    match op
    case DoSend(_) =>
    case DoRecv(_) =>
    case DoInput(i) => if i < |peer| { InputKeeps(ar, me.k, NoAck, me.k.snd.una, peer[i]); }
    case DoFlush => FlushKeeps(ar, me.k);
    case DoUpdate(now) => FlushKeeps(ar, me.k.(clk := Tick(me.k.clk, me.k.cf.interval, U32(now)).0));
  }

  lemma AcceptedInStep(ar: Arith, s: Sys, e: Event)
    ensures var t := Step(ar, s, e);
            var taken := e.op.DoSend? && SendAccepts((if e.atA then s.a else s.b).k.cf, e.op.msg);
            && t.a.k.cf == s.a.k.cf && t.b.k.cf == s.b.k.cf
            && t.a.accepted == s.a.accepted + (if e.atA && taken then [e.op.msg] else [])
            && t.b.accepted == s.b.accepted + (if !e.atA && taken then [e.op.msg] else [])
  {
    if e.atA {
      ActKeeps(ar, s.a, s.b.net, e.op);
    } else {
      ActKeeps(ar, s.b, s.a.net, e.op);
    }
  }

  lemma {:induction false} AcceptedInRun(ar: Arith, ca: Conf, cb: Conf, es: seq<Event>)
    ensures var s := Run(ar, ca, cb, es);
            && s.a.k.cf == ca && s.a.accepted == AcceptedBy(ca, es, true)
            && s.b.k.cf == cb && s.b.accepted == AcceptedBy(cb, es, false)
  {
    if es != [] {
      var n := |es| - 1;
      AcceptedInRun(ar, ca, cb, es[..n]);
      AcceptedInStep(ar, Run(ar, ca, cb, es[..n]), es[n]);
    }
  }

  lemma {:induction false} FewAreRecent(d: Dir, k: Kcb, ws: seq<Wire>)
    requires Link(d) && d.rcv == k.rcv && d.wnd == k.cf.rcvWnd
    requires |d.frags| + d.wnd <= HALF && k.snd.nxt <= HALF
    requires forall i :: 0 <= i < |ws| ==>
      DataOk(d.frags, d.snd.nxt, ws[i]) && 0 <= ws[i].una && (ws[i].cmd == CMD_ACK ==> 0 <= ws[i].sn)
    ensures AllRecent(k, ws)
    decreases |ws|
  {
    if ws != [] {
      InputSegAsReceiver(d, k, ws[0]);
      var k1 := InputSeg(EXACT, k, ws[0]);
      FewAreRecent(d.(rcv := k1.rcv), k1, ws[1..]);
    }
  }

  lemma FewStep(s: Side, r: Side, i: nat)
    requires Flow(s, r) && Flow(r, s) && i < |r.net|
    requires Few(s.k.cf, r.k.cf, s.accepted) && Few(r.k.cf, s.k.cf, r.accepted)
    ensures AllRecent(s.k, r.net[i])
  {
    forall j | 0 <= j < |r.net[i]|
      ensures AckOk(r.k.rcv, r.net[i][j]) && DataOk(DirOf(r, s).frags, r.k.snd.nxt, r.net[i][j])
    {
    }
    FewAreRecent(DirOf(r, s), s.k, r.net[i]);
  }

  /** A connection that carries fewer than 2^31 fragments, less the receive
      window, each way delivers whatever the network does. */
  lemma {:induction false} FewRunsAreRecent(ca: Conf, cb: Conf, es: seq<Event>)
    requires Few(ca, cb, AcceptedBy(ca, es, true)) && Few(cb, ca, AcceptedBy(cb, es, false))
    ensures RecentRun(ca, cb, es)
  {
    if es != [] {
      var n := |es| - 1;
      FragsSplit(Mss(ca), AcceptedBy(ca, es[..n], true),
                 AcceptedBy(ca, es, true)[|AcceptedBy(ca, es[..n], true)|..]);
      FragsSplit(Mss(cb), AcceptedBy(cb, es[..n], false),
                 AcceptedBy(cb, es, false)[|AcceptedBy(cb, es[..n], false)|..]);
      FewRunsAreRecent(ca, cb, es[..n]);
      AcceptedInRun(EXACT, ca, cb, es[..n]);
      RunFlow(ca, cb, es[..n]);
      var x := Run(EXACT, ca, cb, es[..n]);
      var (me, peer) := if es[n].atA then (x.a, x.b) else (x.b, x.a);
      if es[n].op.DoInput? && es[n].op.i < |peer.net| {
        FewStep(me, peer, es[n].op.i);
      }
    }
  }
}
