// No reachable state is stuck: from each there are updates, deliveries and reads
// after which every accepted message has been handed out, in both directions.
module KcpProgress {
  import opened Circular
  import opened Seqs
  import opened KcpModel
  import opened KcpWindow
  import opened KcpMessages
  import opened KcpLink
  import opened KcpSystem
  import opened KcpRounds
  import opened KcpDelivery

  // ---- continuations ----

  /** Nothing more is sent. */
  predicate Quiet(es: seq<Event>) { forall i | 0 <= i < |es| :: !es[i].op.DoSend? }

  function RunFrom(x: Sys, es: seq<Event>): Sys {
    if es == [] then x else Step(EXACT, RunFrom(x, es[..|es| - 1]), es[|es| - 1])
  }

  /** The window that an end tells is not zero while its queue holds less than
      the longest message: the window has 16 bits in the header. */
  predicate Shows(cf: Conf) { cf.rcvWnd % 0x1_0000 >= WND_RCV - 1 }

  ghost predicate Live(x: Sys) { Flow(x.a, x.b) && Flow(x.b, x.a) }

  ghost predicate SideLater(s: Side, t: Side) {
    && t.k.cf == s.k.cf && t.accepted == s.accepted && |s.delivered| <= |t.delivered|
    && s.k.rcv.nxt <= t.k.rcv.nxt && s.k.snd.nxt <= t.k.snd.nxt
  }

  ghost predicate Reaches(x: Sys, y: Sys) { exists es :: Quiet(es) && RunFrom(x, es) == y }

  /** Some calls and deliveries lead from `x` to `y`. */
  ghost predicate To(x: Sys, y: Sys) {
    Reaches(x, y) && Live(y) && SideLater(x.a, y.a) && SideLater(x.b, y.b)
  }

  lemma {:induction false} RunFromAppend(x: Sys, a: seq<Event>, b: seq<Event>)
    ensures RunFrom(x, a + b) == RunFrom(RunFrom(x, a), b)
    decreases |b|
  {
    if b == [] {
      assert a + b == a;
    } else {
      var n := |b| - 1;
      AppendLast(a, b);
      RunFromAppend(x, a, b[..n]);
      assert (a + b)[..|a + b| - 1] == a + b[..n];
    }
  }

  lemma ToTrans(x: Sys, y: Sys, z: Sys)
    requires To(x, y) && To(y, z)
    ensures To(x, z)
  {
    ReachTrans(x, y, z);
  }

  lemma ReachTrans(x: Sys, y: Sys, z: Sys)
    requires Reaches(x, y) && Reaches(y, z)
    ensures Reaches(x, z)
  {
    var a :| Quiet(a) && RunFrom(x, a) == y;
    var b :| Quiet(b) && RunFrom(y, b) == z;
    RunFromAppend(x, a, b);
    assert Quiet(a + b);
  }

  lemma ToSelf(x: Sys)
    requires Live(x)
    ensures To(x, x)
  {
    assert Quiet([]) && RunFrom(x, []) == x;
  }

  lemma FlushLater(k: Kcb)
    ensures var k' := FlushState(EXACT, k);
            && k'.cf == k.cf && k'.rcv == (if k.clk.updated then k.rcv.(acks := []) else k.rcv)
            && k.snd.nxt <= k'.snd.nxt
  {
    FlushFillAppends(k);
  }

  lemma ActLater(s: Side, peer: Net, op: Op)
    requires !op.DoSend?
    ensures SideLater(s, Act(EXACT, s, peer, op))
  {
    match op
    case DoRecv(len) =>
      var n := FirstMessage(s.k.rcv.queue).1;
      AdvanceMonotone(if len < 0 then s.k.rcv else s.k.rcv.(queue := s.k.rcv.queue[n..]), s.k.cf.rcvWnd);
    case DoInput(i) =>
      if i < |peer| {
        InputMonotone(s.k, NoAck, s.k.snd.una, peer[i]);
      }
    case DoFlush => FlushLater(s.k);
    case DoUpdate(now) => FlushLater(Ticked(s, now).k);
  }

  lemma StepTo(x: Sys, e: Event)
    requires Live(x) && !e.op.DoSend?
    ensures To(x, Step(EXACT, x, e))
  {
    if e.atA {
      ActFlow(x.a, x.b, e.op);
      ActLater(x.a, x.b.net, e.op);
    } else {
      ActFlow(x.b, x.a, e.op);
      ActLater(x.b, x.a.net, e.op);
    }
    assert Quiet([e]) && [e][..0] == [] && RunFrom(x, [e]) == Step(EXACT, x, e);
  }

  // ---- the two ends change places ----

  function Flip(x: Sys): Sys { Sys(x.b, x.a) }

  function FlipAll(es: seq<Event>): seq<Event> {
    seq(|es|, i requires 0 <= i < |es| => es[i].(atA := !es[i].atA))
  }

  lemma {:induction false} FlipRun(x: Sys, es: seq<Event>)
    ensures RunFrom(Flip(x), FlipAll(es)) == Flip(RunFrom(x, es))
    decreases |es|
  {
    if es != [] {
      var n := |es| - 1;
      FlipRun(x, es[..n]);
      FlipFront(es);
      FlipStep(RunFrom(x, es[..n]), es[n]);
    }
  }

  lemma FlipFront(es: seq<Event>)
    requires es != []
    ensures var n := |es| - 1; FlipAll(es)[..n] == FlipAll(es[..n]) && FlipAll(es)[n] == es[n].(atA := !es[n].atA)
  {
  }

  lemma FlipStep(x: Sys, e: Event)
    ensures Step(EXACT, Flip(x), e.(atA := !e.atA)) == Flip(Step(EXACT, x, e))
  {
  }

  lemma FlipTo(x: Sys, y: Sys)
    requires To(x, y)
    ensures To(Flip(x), Flip(y))
  {
    var es :| Quiet(es) && RunFrom(x, es) == y;
    FlipRun(x, es);
    assert Quiet(FlipAll(es));
  }

  // ---- single moves ----

  /** `a` flushes at time `now`. */
  lemma FlushA(x: Sys, now: nat) returns (y: Sys)
    requires Live(x)
    ensures To(x, y) && y == x.(a := FlushAt(x.a, x.b.net, now))
  {
    y := Step(EXACT, x, Event(true, DoUpdate(now)));
    StepTo(x, Event(true, DoUpdate(now)));
    UpdateIsFlush(EXACT, x.a, x.b.net, now);
    if !Tick(x.a.k.clk, x.a.k.cf.interval, U32(now)).1 {
      var z := Step(EXACT, y, Event(true, DoFlush));
      StepTo(y, Event(true, DoFlush));
      ToTrans(x, y, z);
      y := z;
    }
  }

  lemma FlushB(x: Sys, now: nat) returns (y: Sys)
    requires Live(x)
    ensures To(x, y) && y == x.(b := FlushAt(x.b, x.a.net, now))
  {
    var z := FlushA(Flip(x), now);
    FlipTo(Flip(x), z);
    y := Flip(z);
  }

  /** The i-th datagram of `a` arrives at `b`. */
  lemma InputB(x: Sys, i: nat) returns (y: Sys)
    requires Live(x) && i < |x.a.net|
    ensures To(x, y) && y == x.(b := x.b.(k := InputSegs(EXACT, x.b.k, x.a.net[i])))
  {
    y := Step(EXACT, x, Event(false, DoInput(i)));
    StepTo(x, Event(false, DoInput(i)));
  }

  lemma InputA(x: Sys, i: nat) returns (y: Sys)
    requires Live(x) && i < |x.b.net|
    ensures To(x, y) && y == x.(a := x.a.(k := InputSegs(EXACT, x.a.k, x.b.net[i])))
  {
    var z := InputB(Flip(x), i);
    FlipTo(Flip(x), z);
    y := Flip(z);
  }

  // ---- one direction, from `a` to `b` ----

  function Sent(x: Sys): seq<Frag> { Frags(Mss(x.a.k.cf), x.a.accepted) }

  function Read(x: Sys): nat { |Frags(Mss(x.a.k.cf), x.b.delivered)| }

  /** The queue of `b` is too short to hold a window of segments. */
  ghost predicate Roomy(x: Sys) { |x.b.k.rcv.queue| < WND_RCV - 1 }

  lemma LiveNumbers(x: Sys)
    requires Live(x)
    ensures x.b.k.rcv.nxt <= x.a.k.snd.nxt <= |Sent(x)|
    ensures Read(x) <= x.b.k.rcv.nxt && |x.b.k.rcv.queue| == x.b.k.rcv.nxt - Read(x)
    ensures x.a.k.snd.queue == Sent(x)[x.a.k.snd.nxt..] && WND_RCV <= x.b.k.cf.rcvWnd
  {
    assert Link(DirOf(x.a, x.b));
  }

  /** What is numbered and not received is still with the sender. */
  lemma Missing(x: Sys) returns (n: nat)
    requires Live(x) && Roomy(x) && x.b.k.rcv.nxt < x.a.k.snd.nxt
    ensures n < |x.a.k.snd.buf| && x.a.k.snd.buf[n].wire.sn == x.b.k.rcv.nxt
    ensures x.a.k.snd.buf[n].wire.cmd == CMD_PUSH
  {
    var d := DirOf(x.a, x.b);
    if Held(d.rcv, d.rcv.nxt) {
      HeadDue(d.rcv, d.wnd);
    }
    assert Unacked(d.snd, d.rcv.nxt);
    n :| n < |x.a.k.snd.buf| && x.a.k.snd.buf[n].wire.sn == x.b.k.rcv.nxt;
  }

  /** `a` writes a segment of its snd_buf again. */
  lemma ResendA(x: Sys, n: nat) returns (y: Sys, i: nat, w: Wire)
    requires Live(x) && n < |x.a.k.snd.buf|
    ensures To(x, y) && y == x.(a := FlushAt(x.a, x.b.net, x.a.k.snd.buf[n].resendTs))
    ensures i < |y.a.net| && w in y.a.net[i]
    ensures w.cmd == x.a.k.snd.buf[n].wire.cmd && w.sn == x.a.k.snd.buf[n].wire.sn
  {
    y := FlushA(x, x.a.k.snd.buf[n].resendTs);
    w := ResendWritten(x.a, x.b.net, n);
    i :| i < |y.a.net| && w in y.a.net[i];
  }

  /** The segment that `b` expects arrives. */
  lemma DeliverNext(x: Sys, i: nat, w: Wire) returns (y: Sys)
    requires Live(x) && Roomy(x) && i < |x.a.net| && w in x.a.net[i] && w.cmd == CMD_PUSH && w.sn == x.b.k.rcv.nxt
    ensures To(x, y) && y.b.k.rcv.nxt > x.b.k.rcv.nxt
    ensures y == x.(b := x.b.(k := y.b.k)) && y.b.k.rcv.acks != []
  {
    y := InputB(x, i);
    LiveNumbers(x);
    InputAsks(x.b.k, NoAck, x.b.k.snd.una, x.a.net[i], w);
    InputExpected(DirOf(x.a, x.b), x.b.k, NoAck, x.b.k.snd.una, x.a.net[i], w);
  }

  /** Numbered data gets through. */
  lemma PushOn(x: Sys) returns (y: Sys)
    requires Live(x) && Roomy(x) && x.b.k.rcv.nxt < x.a.k.snd.nxt
    ensures To(x, y) && y.b.k.rcv.nxt > x.b.k.rcv.nxt
  {
    var n := Missing(x);
    var z, i, w := ResendA(x, n);
    y := DeliverNext(z, i, w);
    ToTrans(x, z, y);
  }

  /** `b` has something to answer, and all data that was numbered. */
  ghost predicate Answers(x: Sys) {
    && Live(x) && Roomy(x) && x.b.k.rcv.nxt == x.a.k.snd.nxt
    && (x.b.k.rcv.acks != [] || x.b.k.askTell)
  }

  /** Nothing but the state of `a` and the answers of `b` has changed. */
  ghost predicate Waits(x: Sys, y: Sys) {
    To(x, y) && y.b.delivered == x.b.delivered && y.b.k.rcv.nxt == x.b.k.rcv.nxt && y.a.k.snd.nxt == x.a.k.snd.nxt
  }

  lemma WaitsRoomy(x: Sys, y: Sys)
    requires Live(x) && Roomy(x) && Waits(x, y)
    ensures Roomy(y)
  {
    LiveNumbers(x);
    LiveNumbers(y);
  }

  /** Old data asks for an acknowledgement, unless more data is numbered first. */
  lemma AskAcks(x: Sys) returns (y: Sys)
    requires Live(x) && Roomy(x) && x.b.k.rcv.nxt == x.a.k.snd.nxt && x.a.k.snd.buf != []
    ensures (To(x, y) && y.b == x.b && x.a.k.snd.nxt < y.a.k.snd.nxt) || (Waits(x, y) && Answers(y))
  {
    var z, i, w := ResendA(x, 0);
    LiveNumbers(x);
    OldHead(x);
    if z.a.k.snd.nxt > x.a.k.snd.nxt {
      y := z;
    } else {
      y := AskWith(z, i, w);
      ToTrans(x, z, y);
      WaitsRoomy(x, y);
    }
  }

  lemma OldHead(x: Sys)
    requires Live(x) && x.a.k.snd.buf != []
    ensures x.a.k.snd.buf[0].wire.cmd == CMD_PUSH && x.a.k.snd.buf[0].wire.sn < x.a.k.snd.nxt
  {
    assert SenderLink(x.a.k.snd, DirOf(x.a, x.b).frags);
  }

  /** A datagram with old data or a probe arrives at `b`. */
  lemma AskWith(x: Sys, i: nat, w: Wire) returns (y: Sys)
    requires Live(x) && Roomy(x) && x.b.k.rcv.nxt == x.a.k.snd.nxt && i < |x.a.net| && w in x.a.net[i]
    requires (w.cmd == CMD_PUSH && w.sn < x.b.k.rcv.nxt) || w.cmd == CMD_WASK
    ensures Waits(x, y) && Answers(y)
  {
    y := InputB(x, i);
    InputAsks(x.b.k, NoAck, x.b.k.snd.una, x.a.net[i], w);
    LiveNumbers(y);
    WaitsRoomy(x, y);
  }

  /** A closed window is probed. */
  lemma AskProbe(x: Sys) returns (y: Sys)
    requires Live(x) && Roomy(x) && x.b.k.rcv.nxt == x.a.k.snd.nxt && Learned(x.a.k, 0)
    ensures Waits(x, y) && Answers(y)
  {
    if x.a.k.clk.probeWait == 0 {
      var z := FlushA(x, 0);
      ClosedFlush(x.a, x.b.net, 0);
      y := ProbeDue(z);
      ToTrans(x, z, y);
    } else {
      y := ProbeDue(x);
    }
  }

  lemma ProbeDue(x: Sys) returns (y: Sys)
    requires Live(x) && Roomy(x) && x.b.k.rcv.nxt == x.a.k.snd.nxt && Learned(x.a.k, 0) && x.a.k.clk.probeWait > 0
    ensures Waits(x, y) && Answers(y)
  {
    var z := FlushA(x, x.a.k.clk.tsProbe);
    var w := ClosedProbe(x.a, x.b.net);
    var i :| 0 <= i < |z.a.net| && w in z.a.net[i];
    y := AskWith(z, i, w);
    ToTrans(x, z, y);
  }

  /** With a closed window nothing is numbered, and the probe's timer runs. */
  lemma ClosedFlush(s: Side, peer: Net, now: nat)
    requires Learned(s.k, 0)
    ensures var s' := FlushAt(s, peer, now);
            && Learned(s'.k, 0) && s'.k.snd.nxt == s.k.snd.nxt
            && (s.k.clk.probeWait == 0 ==> s'.k.clk.probeWait > 0)
  {
    FlushAtParts(s, peer, now);
    var k := Ticked(s, now).k;
    FillUnfold(Cleared(k), SendWindow(k.cf, k.cong));
    assert FlushFill(EXACT, k) == Cleared(k);
    ProbeWaits(k.clk);
  }

  lemma ProbeWaits(c: Clock)
    ensures c.probeWait == 0 ==> ProbeTimer(c, 0).0.probeWait > 0
    ensures c.probeWait > 0 && TimeDiff(c.current, c.tsProbe) >= 0 ==> ProbeTimer(c, 0).1
  {
  }

  lemma ClosedProbe(s: Side, peer: Net) returns (w: Wire)
    requires Learned(s.k, 0) && s.k.clk.probeWait > 0
    ensures w.cmd == CMD_WASK && OnNet(FlushAt(s, peer, s.k.clk.tsProbe).net, w)
    ensures FlushAt(s, peer, s.k.clk.tsProbe).k.snd.nxt == s.k.snd.nxt
  {
    var now := s.k.clk.tsProbe;
    FlushAtParts(s, peer, now);
    ClosedFlush(s, peer, now);
    var k := Ticked(s, now).k;
    SameTime(now);
    ProbeWaits(k.clk);
    w := AckWire(k, if k.rcv.acks == [] then Ack(0, 0) else k.rcv.acks[|k.rcv.acks| - 1]).(cmd := CMD_WASK);
    assert w in ControlWires(k);
    Written(s, peer, now, w);
  }

  /** `b` writes its answer. */
  lemma AnswerB(x: Sys) returns (y: Sys, i: nat)
    requires Answers(x)
    ensures To(x, y) && y == x.(b := FlushAt(x.b, x.a.net, 0)) && y.b.k.rcv.nxt == x.b.k.rcv.nxt
    ensures i < |y.b.net| && y.b.net[i] != []
    ensures forall w | w in y.b.net[i] :: w.una == x.b.k.rcv.nxt && w.wnd == WndUnused(x.b.k)
  {
    y := FlushB(x, 0);
    var k := Ticked(x.b, 0).k;
    FlushAtParts(x.b, x.a.net, 0);
    FlushLater(k);
    SameWindow(x.b.k, k);
    var w := AnswerWritten(k);
    var more := Datagrams(FlushWires(EXACT, k), k.cf.mtu);
    DatagramsHave(FlushWires(EXACT, k), k.cf.mtu, w);
    var j :| 0 <= j < |more| && w in more[j];
    i := |x.b.net| + j;
    assert y.b.net[i] == more[j];
    AnswerTells(k, j);
  }

  lemma SameWindow(k: Kcb, k': Kcb)
    requires k'.cf == k.cf && k'.rcv.queue == k.rcv.queue
    ensures WndUnused(k') == WndUnused(k)
  {
  }

  /** The answer acknowledges all data and tells the window. */
  lemma Tell(x: Sys) returns (y: Sys)
    requires Answers(x)
    ensures Waits(x, y) && Learned(y.a.k, WndUnused(x.b.k)) && y.b == FlushAt(x.b, x.a.net, 0)
  {
    var z, i := AnswerB(x);
    y := Learn(z, i, WndUnused(x.b.k));
    ToTrans(x, z, y);
    FlushAtParts(x.b, x.a.net, 0);
  }

  /** A datagram that acknowledges all and tells one window arrives at `a`. */
  lemma Learn(x: Sys, i: nat, wnd: nat) returns (y: Sys)
    requires Live(x) && i < |x.b.net| && x.b.net[i] != []
    requires forall w | w in x.b.net[i] :: w.una == x.a.k.snd.nxt && w.wnd == wnd
    ensures To(x, y) && y.b == x.b && Learned(y.a.k, wnd) && y.a.k.snd.nxt == x.a.k.snd.nxt
    ensures y.a.k.snd.queue == x.a.k.snd.queue
  {
    y := InputA(x, i);
    NumbersBelow(x);
    InputLearned(x.a.k, NoAck, x.a.k.snd.una, x.b.net[i], wnd);
    InputMonotone(x.a.k, NoAck, x.a.k.snd.una, x.b.net[i]);
  }

  lemma WindowShown(x: Sys)
    requires Roomy(x) && Shows(x.b.k.cf)
    ensures WndUnused(x.b.k) > 0
  {
    RoomShown(x.b.k.cf.rcvWnd, |x.b.k.rcv.queue|);
  }

  lemma RoomShown(wnd: nat, used: nat)
    requires wnd % 0x1_0000 >= WND_RCV - 1 > used
    ensures used < wnd && (wnd - used) % 0x1_0000 > 0
  {
    assert wnd == wnd / 0x1_0000 * 0x1_0000 + wnd % 0x1_0000;
    assert (wnd - used) % 0x1_0000 == wnd % 0x1_0000 - used;
  }

  lemma AnswerTells(k: Kcb, i: nat)
    requires i < |Datagrams(FlushWires(EXACT, k), k.cf.mtu)|
    ensures forall v | v in Datagrams(FlushWires(EXACT, k), k.cf.mtu)[i] :: v.una == k.rcv.nxt && v.wnd == WndUnused(k)
  {
    var ds := Datagrams(FlushWires(EXACT, k), k.cf.mtu);
    DatagramsAll(FlushWires(EXACT, k), k.cf.mtu);
    forall v: Wire | v in ds[i] ensures v.una == k.rcv.nxt && v.wnd == WndUnused(k) {
      var j :| 0 <= j < |ds[i]| && ds[i][j] == v;
      FlushTells(k, v);
    }
  }

  lemma NumbersBelow(x: Sys)
    requires Live(x)
    ensures forall i :: 0 <= i < |x.a.k.snd.buf| ==> x.a.k.snd.buf[i].wire.sn < x.a.k.snd.nxt
  {
    assert SenderLink(x.a.k.snd, DirOf(x.a, x.b).frags);
  }

  /** With an open window a waiting fragment is numbered. */
  lemma NumberMore(x: Sys, wnd: nat) returns (y: Sys)
    requires Live(x) && 0 < wnd && Learned(x.a.k, wnd) && x.a.k.snd.queue != []
    ensures To(x, y) && y.b == x.b && y.a.k.snd.nxt > x.a.k.snd.nxt
  {
    y := FlushA(x, 0);
    OpenFlush(x.a, x.b.net);
    if y.a.k.snd.nxt == x.a.k.snd.nxt {
      var z := FlushA(y, 0);
      OpenFlush(y.a, y.b.net);
      ToTrans(x, y, z);
      y := z;
    }
  }

  lemma OpenFlush(s: Side, peer: Net)
    requires s.k.cong.rmtWnd > 0 && Learned(s.k, s.k.cong.rmtWnd) && s.k.snd.queue != []
    ensures var s' := FlushAt(s, peer, 0);
            && s'.k.cf == s.k.cf && s'.k.cong.rmtWnd == s.k.cong.rmtWnd && s'.k.cong.cwnd > 0
            && (s.k.cong.cwnd > 0 ==> s'.k.snd.nxt > s.k.snd.nxt)
            && (s'.k.snd.nxt <= s.k.snd.nxt ==> Learned(s'.k, s.k.cong.rmtWnd) && s'.k.snd == s.k.snd)
  {
    FlushAtParts(s, peer, 0);
    var k := Ticked(s, 0).k;
    FlushFillAppends(k);
    FlushCwnd(k);
    assert s.k.cong.cwnd > 0 ==> SendWindow(k.cf, k.cong) > 0;
  }

  lemma FlushCwnd(k: Kcb)
    requires k.clk.updated
    ensures var k' := FlushState(EXACT, k);
            && k'.cong.rmtWnd == k.cong.rmtWnd && k'.cong.cwnd > 0 && k'.cf == k.cf
            && k'.snd == FlushFill(EXACT, k).snd.(buf := k'.snd.buf) && |k'.snd.buf| == |FlushFill(EXACT, k).snd.buf|
  {
    FlushFillAppends(k);
  }

  /** All data that was numbered is there, more waits: number some of it. */
  lemma Refill(x: Sys) returns (y: Sys)
    requires Live(x) && Shows(x.b.k.cf) && Roomy(x) && x.b.k.rcv.nxt == x.a.k.snd.nxt < |Sent(x)|
    ensures To(x, y) && Roomy(y) && x.b.k.rcv.nxt == y.b.k.rcv.nxt < y.a.k.snd.nxt
  {
    var z, wnd := Open(x);
    if z.a.k.snd.nxt > x.a.k.snd.nxt {
      y := z;
    } else {
      LiveNumbers(z);
      y := NumberMore(z, wnd);
      ToTrans(x, z, y);
      WaitsRoomy(x, z);
    }
  }

  /** The sender learns an open window, or has numbered more on the way. */
  lemma Open(x: Sys) returns (y: Sys, wnd: nat)
    requires Live(x) && Shows(x.b.k.cf) && Roomy(x) && x.b.k.rcv.nxt == x.a.k.snd.nxt
    ensures (To(x, y) && y.b == x.b && x.a.k.snd.nxt < y.a.k.snd.nxt)
            || (Waits(x, y) && 0 < wnd && Learned(y.a.k, wnd))
  {
    wnd := 0;
    if x.a.k.snd.buf != [] {
      y := AskAcks(x);
      if y.a.k.snd.nxt == x.a.k.snd.nxt {
        y, wnd := TellFrom(x, y);
      }
    } else {
      EmptyIsLearned(x);
      if x.a.k.cong.rmtWnd == 0 {
        var z := AskProbe(x);
        y, wnd := TellFrom(x, z);
      } else {
        ToSelf(x);
        y, wnd := x, x.a.k.cong.rmtWnd;
      }
    }
  }

  lemma TellFrom(x: Sys, y: Sys) returns (z: Sys, wnd: nat)
    requires Waits(x, y) && Answers(y) && Shows(x.b.k.cf)
    ensures Waits(x, z) && 0 < wnd && Learned(z.a.k, wnd)
  {
    z := Tell(y);
    wnd := WndUnused(y.b.k);
    WindowShown(y);
    ToTrans(x, y, z);
  }

  lemma EmptyIsLearned(x: Sys)
    requires Live(x) && x.a.k.snd.buf == []
    ensures Learned(x.a.k, x.a.k.cong.rmtWnd)
  {
    assert SenderLink(x.a.k.snd, DirOf(x.a, x.b).frags);
  }

  /** One more fragment arrives. */
  lemma Round(x: Sys) returns (y: Sys)
    requires Live(x) && Shows(x.b.k.cf) && Roomy(x) && x.b.k.rcv.nxt < |Sent(x)|
    ensures To(x, y) && y.b.k.rcv.nxt > x.b.k.rcv.nxt
  {
    LiveNumbers(x);
    if x.b.k.rcv.nxt < x.a.k.snd.nxt {
      y := PushOn(x);
    } else {
      var z := Refill(x);
      y := PushOn(z);
      ToTrans(x, z, y);
    }
  }

  // ---- reading ----

  /** The application takes a message. */
  lemma ReadOne(x: Sys) returns (y: Sys)
    requires Live(x) && x.b.k.rcv.queue != [] && PeekSize(x.b.k.rcv) >= 0
    ensures To(x, y) && |y.b.delivered| == |x.b.delivered| + 1
  {
    var e := Event(false, DoRecv(PeekSize(x.b.k.rcv)));
    y := Step(EXACT, x, e);
    StepTo(x, e);
  }

  lemma DeliveredBound(x: Sys)
    requires Live(x)
    ensures |x.b.delivered| <= |x.a.accepted| && x.b.delivered <= x.a.accepted
  {
  }

  /** The application reads until the queue has room. */
  lemma {:induction false} Drain(x: Sys) returns (y: Sys)
    requires Live(x)
    ensures To(x, y) && Roomy(y)
    decreases |x.a.accepted| - |x.b.delivered|
  {
    if Roomy(x) {
      ToSelf(x);
      y := x;
    } else {
      NoDeadlock(x.a, x.b);
      var z := ReadOne(x);
      DeliveredBound(z);
      y := Drain(z);
      ToTrans(x, z, y);
    }
  }

  /** When all fragments are there, all messages can be read. */
  lemma {:induction false} ReadAll(x: Sys) returns (y: Sys)
    requires Live(x) && x.b.k.rcv.nxt == |Sent(x)|
    ensures To(x, y) && y.b.delivered == y.a.accepted
    decreases |x.a.accepted| - |x.b.delivered|
  {
    DeliveredBound(x);
    if |x.b.delivered| == |x.a.accepted| {
      ToSelf(x);
      y := x;
    } else {
      NextIsWhole(x);
      var z := ReadOne(x);
      DeliveredBound(z);
      LiveNumbers(z);
      y := ReadAll(z);
      ToTrans(x, z, y);
    }
  }

  lemma NextIsWhole(x: Sys)
    requires Live(x) && x.b.k.rcv.nxt == |Sent(x)| && |x.b.delivered| < |x.a.accepted|
    ensures x.b.k.rcv.queue != [] && PeekSize(x.b.k.rcv) >= 0
  {
    var mss, n := Mss(x.a.k.cf), |x.b.delivered|;
    LiveNumbers(x);
    FragsNext(mss, x.a.accepted, n);
    CutShape(mss, x.a.accepted[n]);
    QueueStarts(x.a, x.b);
    PeekWhole(mss, x.a.accepted[n], x.b.k.rcv);
  }

  // ---- both directions ----

  /** All that `a` accepted is handed out at `b`. */
  lemma {:induction false} Finish(x: Sys) returns (y: Sys)
    requires Live(x) && Shows(x.b.k.cf)
    ensures To(x, y) && y.b.delivered == y.a.accepted
    decreases |Sent(x)| - x.b.k.rcv.nxt
  {
    LiveNumbers(x);
    if x.b.k.rcv.nxt == |Sent(x)| {
      y := ReadAll(x);
    } else {
      var z := Drain(x);
      if z.b.k.rcv.nxt == |Sent(z)| {
        y := ReadAll(z);
        ToTrans(x, z, y);
      } else {
        LiveNumbers(z);
        var u := Round(z);
        LiveNumbers(u);
        y := Finish(u);
        ToTrans(x, z, u);
        ToTrans(x, u, y);
      }
    }
  }

  lemma FinishBoth(x: Sys) returns (y: Sys)
    requires Live(x) && Shows(x.a.k.cf) && Shows(x.b.k.cf)
    ensures To(x, y) && y.b.delivered == y.a.accepted && y.a.delivered == y.b.accepted
  {
    var z := Finish(x);
    var u := Finish(Flip(z));
    FlipTo(Flip(z), u);
    y := Flip(u);
    StaysFinished(z, y);
    ToTrans(x, z, y);
  }

  lemma StaysFinished(x: Sys, y: Sys)
    requires To(x, y) && x.b.delivered == x.a.accepted
    ensures y.b.delivered == y.a.accepted
  {
    DeliveredBound(y);
  }

  lemma {:induction false} RunOn(ca: Conf, cb: Conf, es: seq<Event>, more: seq<Event>)
    ensures Run(EXACT, ca, cb, es + more) == RunFrom(Run(EXACT, ca, cb, es), more)
    decreases |more|
  {
    if more == [] {
      assert es + more == es;
    } else {
      var n := |more| - 1;
      AppendLast(es, more);
      RunOn(ca, cb, es, more[..n]);
      assert (es + more)[..|es + more| - 1] == es + more[..n];
    }
  }

  lemma {:induction false} RunKeepsConf(ca: Conf, cb: Conf, es: seq<Event>)
    ensures var x := Run(EXACT, ca, cb, es); x.a.k.cf == ca && x.b.k.cf == cb
    decreases |es|
  {
    if es != [] {
      var n := |es| - 1;
      RunKeepsConf(ca, cb, es[..n]);
      var x := Run(EXACT, ca, cb, es[..n]);
      if !es[n].op.DoSend? {
        ActLater(if es[n].atA then x.a else x.b, if es[n].atA then x.b.net else x.a.net, es[n].op);
      }
    }
  }

  /** Some calls and deliveries that send nothing more hand out, at both ends,
      all that had been accepted. */
  ghost predicate CanFinish(ca: Conf, cb: Conf, es: seq<Event>) {
    exists more :: Quiet(more) && Finishes(Run(EXACT, ca, cb, es), Run(EXACT, ca, cb, es + more))
  }

  predicate Finishes(x: Sys, y: Sys) {
    && y.a.accepted == x.a.accepted && y.b.accepted == x.b.accepted
    && y.b.delivered == x.a.accepted && y.a.delivered == x.b.accepted
  }

  /** No run leads to a state from which this cannot be done. */
  lemma AlwaysCanFinish(ca: Conf, cb: Conf, es: seq<Event>)
    requires Shows(ca) && Shows(cb)
    ensures CanFinish(ca, cb, es)
  {
    var x := Run(EXACT, ca, cb, es);
    RunFlow(ca, cb, es);
    RunKeepsConf(ca, cb, es);
    var y := FinishBoth(x);
    var more :| Quiet(more) && RunFrom(x, more) == y;
    RunOn(ca, cb, es, more);
    assert Finishes(x, Run(EXACT, ca, cb, es + more));
  }

  // ---- on bytes ----

  lemma {:induction false} QuietAccepts(cf: Conf, es: seq<Event>, more: seq<Event>, atA: bool)
    requires Quiet(more)
    ensures AcceptedBy(cf, es + more, atA) == AcceptedBy(cf, es, atA)
    decreases |more|
  {
    if more == [] {
      assert es + more == es;
    } else {
      var n := |more| - 1;
      AppendLast(es, more);
      QuietAccepts(cf, es, more[..n], atA);
      assert (es + more)[..|es + more| - 1] == es + more[..n];
    }
  }

  predicate ByteFinishes(x: ByteSys, y: ByteSys) {
    && y.a.accepted == x.a.accepted && y.b.accepted == x.b.accepted
    && y.b.delivered == x.a.accepted && y.a.delivered == x.b.accepted
  }

  /** CanFinish, of the 32-bit protocol on bytes. */
  ghost predicate BytesCanFinish(ca: Conf, cb: Conf, es: seq<Event>) {
    exists more :: Quiet(more) && ByteFinishes(ByteRun(ca, cb, es), ByteRun(ca, cb, es + more))
  }

  /** The ends know each other, and so little has been accepted that no datagram
      can be too old. */
  ghost predicate Young(ca: Conf, cb: Conf, es: seq<Event>) {
    ca.conv == cb.conv && Few(ca, cb, AcceptedBy(ca, es, true)) && Few(cb, ca, AcceptedBy(cb, es, false))
  }

  lemma FinishesAlike(ca: Conf, cb: Conf, es: seq<Event>, more: seq<Event>)
    requires Young(ca, cb, es) && Quiet(more)
    ensures ByteFinishes(ByteRun(ca, cb, es), ByteRun(ca, cb, es + more))
            <==> Finishes(Run(EXACT, ca, cb, es), Run(EXACT, ca, cb, es + more))
  {
    QuietAccepts(ca, es, more, true);
    QuietAccepts(cb, es, more, false);
    FewRunsAreRecent(ca, cb, es);
    FewRunsAreRecent(ca, cb, es + more);
    ByteRunIsRed(ca, cb, es);
    ByteRunIsRed(ca, cb, es + more);
  }

  lemma CanFinishAlike(ca: Conf, cb: Conf, es: seq<Event>)
    requires Young(ca, cb, es)
    ensures BytesCanFinish(ca, cb, es) <==> CanFinish(ca, cb, es)
  {
    forall more | Quiet(more)
      ensures ByteFinishes(ByteRun(ca, cb, es), ByteRun(ca, cb, es + more))
              <==> Finishes(Run(EXACT, ca, cb, es), Run(EXACT, ca, cb, es + more))
    {
      FinishesAlike(ca, cb, es, more);
    }
  }

  /** No young connection leads to a state from which this cannot be done. */
  lemma BytesAlwaysCanFinish(ca: Conf, cb: Conf, es: seq<Event>)
    requires Young(ca, cb, es) && Shows(ca) && Shows(cb)
    ensures BytesCanFinish(ca, cb, es)
  {
    AlwaysCanFinish(ca, cb, es);
    CanFinishAlike(ca, cb, es);
  }
}
