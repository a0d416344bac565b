// When an end can be served: its window as the header tells it must not be zero
// while its queue is too short to hold a message. Otherwise some peer gets stuck.
module KcpStuck {
  import opened Circular
  import opened Seqs
  import opened Division
  import opened KcpModel
  import opened KcpWindow
  import opened KcpMessages
  import opened KcpLink
  import opened KcpSystem
  import opened KcpDelivery
  import opened KcpRounds
  import opened KcpProgress

  // ---- a state that nothing leaves ----

  predicate TellsZero(net: Net) { forall i, j :: 0 <= i < |net| && 0 <= j < |net[i]| ==> net[i][j].wnd == 0 }

  /** A message that was accepted at `a` is not whole at `b`. */
  ghost predicate Incomplete(x: Sys) {
    var n := |x.b.delivered|;
    n < |x.a.accepted| && |x.b.k.rcv.queue| < |Cut(Mss(x.a.k.cf), x.a.accepted[n])|
  }

  /** `a` has nothing in flight and believes that the window of `b` is closed,
      and `b` has never told anything else. */
  ghost predicate Stuck(x: Sys) {
    && Live(x) && Learned(x.a.k, 0) && x.b.k.rcv.nxt == x.a.k.snd.nxt
    && WndUnused(x.b.k) == 0 && TellsZero(x.b.net) && Incomplete(x)
  }

  lemma SegStays(k: Kcb, w: Wire)
    requires Learned(k, 0) && w.wnd == 0
    ensures Learned(InputSeg(EXACT, k, w), 0) && InputSeg(EXACT, k, w).snd.nxt == k.snd.nxt
  {
  }

  lemma {:induction false} InputStays(k: Kcb, m: MaxAck, prevUna: int, ws: seq<Wire>)
    requires Learned(k, 0) && forall j :: 0 <= j < |ws| ==> ws[j].wnd == 0
    ensures var k' := InputFrom(EXACT, k, m, prevUna, ws); Learned(k', 0) && k'.snd.nxt == k.snd.nxt
    decreases |ws|
  {
    if ws == [] {
      EndMonotone(k, m, prevUna);
    } else {
      SegStays(k, ws[0]);
      InputStays(InputSeg(EXACT, k, ws[0]), NoteSeg(EXACT, m, ws[0]), prevUna, ws[1..]);
    }
  }

  lemma FlushStays(k: Kcb)
    requires Learned(k, 0)
    ensures var k' := FlushState(EXACT, k); Learned(k', 0) && k'.snd.nxt == k.snd.nxt
  {
    FillUnfold(Cleared(k), SendWindow(k.cf, k.cong));
    assert k.clk.updated ==> FlushFill(EXACT, k) == Cleared(k);
  }

  /** Whatever is called at `a`, it goes on waiting. */
  lemma WaiterStays(s: Side, peer: Net, op: Op)
    requires Learned(s.k, 0) && TellsZero(peer)
    ensures var s' := Act(EXACT, s, peer, op); Learned(s'.k, 0) && s'.k.snd.nxt == s.k.snd.nxt && s'.k.cf == s.k.cf
    ensures s.accepted <= Act(EXACT, s, peer, op).accepted
  {
    match op
    case DoSend(_) =>
    case DoRecv(_) =>
    case DoInput(i) =>
      if i < |peer| {
        InputStays(s.k, NoAck, s.k.snd.una, peer[i]);
        InputMonotone(s.k, NoAck, s.k.snd.una, peer[i]);
      }
    case DoFlush =>
      FlushStays(s.k);
      FlushLater(s.k);
    case DoUpdate(now) =>
      FlushStays(Ticked(s, now).k);
      FlushLater(Ticked(s, now).k);
  }

  lemma DatagramsZero(k: Kcb)
    requires WndUnused(k) == 0
    ensures TellsZero(Datagrams(FlushWires(EXACT, k), k.cf.mtu))
  {
    var ds: Net := Datagrams(FlushWires(EXACT, k), k.cf.mtu);
    forall i, j | 0 <= i < |ds| && 0 <= j < |ds[i]| ensures ds[i][j].wnd == 0 {
      AnswerTells(k, i);
      assert ds[i][j] in ds[i];
    }
  }

  lemma ZeroMore(a: Net, b: Net)
    requires TellsZero(a) && TellsZero(b)
    ensures TellsZero(a + b)
  {
  }

  lemma FlushZero(s: Side, peer: Net)
    requires WndUnused(s.k) == 0 && TellsZero(s.net)
    ensures var s' := Act(EXACT, s, peer, DoFlush);
            && TellsZero(s'.net) && WndUnused(s'.k) == 0 && s'.k.rcv.nxt == s.k.rcv.nxt
            && s'.delivered == s.delivered && s'.k.rcv.queue == s.k.rcv.queue
  {
    DatagramsZero(s.k);
    ZeroMore(s.net, Datagrams(FlushWires(EXACT, s.k), s.k.cf.mtu));
    FlushLater(s.k);
    SameWindow(s.k, FlushState(EXACT, s.k));
  }

  /** ... and whatever is called at `b`, it hands out nothing and tells no window. */
  lemma TellerStays(x: Sys, op: Op)
    requires Stuck(x)
    ensures var t := Act(EXACT, x.b, x.a.net, op);
            && TellsZero(t.net) && WndUnused(t.k) == 0 && t.k.rcv.nxt == x.b.k.rcv.nxt
            && t.delivered == x.b.delivered && |t.k.rcv.queue| == |x.b.k.rcv.queue|
  {
    match op
    case DoSend(_) =>
    case DoRecv(_) => NotWhole(x);
    case DoInput(i) =>
      if i < |x.a.net| {
        TellerReads(x, i);
      }
    case DoFlush => FlushZero(x.b, x.a.net);
    case DoUpdate(now) =>
      UpdateIsFlush(EXACT, x.b, x.a.net, now);
      SameWindow(x.b.k, Ticked(x.b, now).k);
      FlushZero(Ticked(x.b, now), x.a.net);
  }

  lemma TellerReads(x: Sys, i: nat)
    requires Stuck(x) && i < |x.a.net|
    ensures var k := InputSegs(EXACT, x.b.k, x.a.net[i]);
            WndUnused(k) == 0 && k.rcv.nxt == x.b.k.rcv.nxt && |k.rcv.queue| == |x.b.k.rcv.queue|
  {
    var y := InputB(x, i);
    LiveNumbers(x);
    LiveNumbers(y);
    SameLength(x.b.k, y.b.k);
  }

  lemma SameLength(k: Kcb, k': Kcb)
    requires k'.cf == k.cf && |k'.rcv.queue| == |k.rcv.queue|
    ensures WndUnused(k') == WndUnused(k)
  {
  }

  lemma NotWhole(x: Sys)
    requires Stuck(x)
    ensures x.b.k.rcv.queue == [] || PeekSize(x.b.k.rcv) < 0
  {
    if x.b.k.rcv.queue != [] {
      QueueStarts(x.a, x.b);
      PeekWhole(Mss(x.a.k.cf), x.a.accepted[|x.b.delivered|], x.b.k.rcv);
    }
  }

  lemma StuckStep(x: Sys, e: Event)
    requires Stuck(x)
    ensures Stuck(Step(EXACT, x, e)) && Step(EXACT, x, e).b.delivered == x.b.delivered
    ensures |x.a.accepted| <= |Step(EXACT, x, e).a.accepted|
  {
    if e.atA {
      ActFlow(x.a, x.b, e.op);
      WaiterStays(x.a, x.b.net, e.op);
    } else {
      ActFlow(x.b, x.a, e.op);
      TellerStays(x, e.op);
    }
  }

  /** Nothing that follows, not even more sends, leads out of it. */
  lemma {:induction false} StuckForever(x: Sys, es: seq<Event>)
    requires Stuck(x)
    ensures Stuck(RunFrom(x, es)) && RunFrom(x, es).b.delivered == x.b.delivered
    decreases |es|
  {
    if es != [] {
      StuckForever(x, es[..|es| - 1]);
      StuckStep(RunFrom(x, es[..|es| - 1]), es[|es| - 1]);
    }
  }

  lemma StuckCannot(ca: Conf, cb: Conf, es: seq<Event>)
    requires Stuck(Run(EXACT, ca, cb, es))
    ensures !CanFinish(ca, cb, es)
  {
    var x := Run(EXACT, ca, cb, es);
    forall more | Quiet(more) ensures !Finishes(x, Run(EXACT, ca, cb, es + more)) {
      RunOn(ca, cb, es, more);
      StuckForever(x, more);
    }
  }

  // ---- a window of a multiple of 2^16 ----

  /** `b` tells its window before anything has arrived. */
  ghost predicate Untouched(x: Sys) {
    && Live(x) && WndUnused(x.b.k) == 0 && TellsZero(x.b.net)
    && x.b.k.rcv.nxt == 0 && x.b.delivered == [] && x.a.k.snd.nxt == 0
  }

  lemma FlushUntouched(x: Sys, now: nat) returns (y: Sys)
    requires Untouched(x)
    ensures Untouched(y) && To(x, y) && y == x.(b := FlushAt(x.b, x.a.net, now)) && y.b.k.snd.una == x.b.k.snd.una
  {
    y := FlushB(x, now);
    SameWindow(x.b.k, Ticked(x.b, now).k);
    FlushZero(Ticked(x.b, now), x.a.net);
    FlushUna(x.b, x.a.net, now);
  }

  lemma FlushUna(s: Side, peer: Net, now: nat)
    ensures FlushAt(s, peer, now).k.snd.una == s.k.snd.una
  {
    FlushAtParts(s, peer, now);
    FlushKeepsNumbers(Ticked(s, now).k);
  }

  /** `b` writes data of its own. */
  lemma WriteFirst(x: Sys) returns (y: Sys, i: nat)
    requires Untouched(x) && Learned(x.b.k, WND_RCV) && x.b.k.snd.queue != []
    ensures Untouched(y) && To(x, y) && y.a == x.a && i < |y.b.net| && y.b.net[i] != []
  {
    var x1 := FlushUntouched(x, 0);
    OpenFlush(x.b, x.a.net);
    var x2 := x1;
    if x1.b.k.snd.nxt == x.b.k.snd.nxt {
      x2 := FlushUntouched(x1, 0);
      OpenFlush(x1.b, x1.a.net);
      ToTrans(x, x1, x2);
    }
    FlightIsThere(x2);
    y := FlushUntouched(x2, x2.b.k.snd.buf[0].resendTs);
    var w := ResendWritten(x2.b, x2.a.net, 0);
    i :| i < |y.b.net| && w in y.b.net[i];
    ToTrans(x, x2, y);
  }

  lemma FlightIsThere(x: Sys)
    requires Live(x) && x.b.k.snd.una < x.b.k.snd.nxt
    ensures x.b.k.snd.buf != []
  {
    assert SenderLink(x.b.k.snd, DirOf(x.b, x.a).frags);
  }

  lemma TellEarly(x: Sys) returns (y: Sys)
    requires Untouched(x) && Learned(x.b.k, WND_RCV) && x.b.k.snd.queue != [] && x.a.accepted != []
    ensures To(x, y) && Stuck(y)
  {
    var z, i := WriteFirst(x);
    assert forall w | w in z.b.net[i] :: w.una == 0 && w.wnd == 0 by {
      EarlyUna(z, i);
    }
    y := Learn(z, i, 0);
    ToTrans(x, z, y);
    LiveNumbers(y);
    CutShape(Mss(y.a.k.cf), y.a.accepted[0]);
  }

  lemma EarlyUna(x: Sys, i: nat)
    requires Untouched(x) && i < |x.b.net|
    ensures forall w | w in x.b.net[i] :: w.una == 0 && w.wnd == 0
  {
    forall w | w in x.b.net[i] ensures w.una == 0 && w.wnd == 0 {
      var j :| 0 <= j < |x.b.net[i]| && x.b.net[i][j] == w;
      assert AckOk(DirOf(x.a, x.b).rcv, DirOf(x.a, x.b).rnet[i][j]);
    }
  }

  // ---- a window of up to 126 more ----

  /** `a` has numbered as many fragments as its window lets it; none is acknowledged. */
  ghost predicate Feeding(x: Sys, q: nat) {
    && Live(x) && 0 < q < WND_RCV - 1 && x.b.net == [] && x.b.delivered == []
    && x.a.k.snd.una == 0 && x.a.k.snd.nxt == q && x.a.k.cf.sndWnd == q
  }

  lemma FullFlush(s: Side, peer: Net, now: nat)
    requires s.k.snd.nxt >= s.k.snd.una + s.k.cf.sndWnd
    ensures var s' := FlushAt(s, peer, now); s'.k.snd.una == s.k.snd.una && s'.k.snd.nxt == s.k.snd.nxt
  {
    FlushAtParts(s, peer, now);
    var k := Ticked(s, now).k;
    FillUnfold(Cleared(k), SendWindow(k.cf, k.cong));
    assert FlushFill(EXACT, k) == Cleared(k);
  }

  lemma FeedOne(x: Sys, q: nat) returns (y: Sys)
    requires Feeding(x, q) && x.b.k.rcv.nxt < q
    ensures Feeding(y, q) && To(x, y) && x.b.k.rcv.nxt < y.b.k.rcv.nxt && y.b.k.rcv.acks != []
  {
    LiveNumbers(x);
    var n := Missing(x);
    var z, i, w := ResendA(x, n);
    FullFlush(x.a, x.b.net, x.a.k.snd.buf[n].resendTs);
    y := DeliverNext(z, i, w);
    ToTrans(x, z, y);
  }

  lemma {:induction false} FeedAll(x: Sys, q: nat) returns (y: Sys)
    requires Feeding(x, q) && (x.b.k.rcv.nxt < q || x.b.k.rcv.acks != [])
    ensures Feeding(y, q) && To(x, y) && y.b.k.rcv.nxt == q && y.b.k.rcv.acks != []
    decreases q - x.b.k.rcv.nxt
  {
    LiveNumbers(x);
    if x.b.k.rcv.nxt == q {
      ToSelf(x);
      y := x;
    } else {
      var z := FeedOne(x, q);
      LiveNumbers(z);
      y := FeedAll(z, q);
      ToTrans(x, z, y);
    }
  }

  lemma TellLate(x: Sys, q: nat) returns (y: Sys)
    requires Feeding(x, q) && x.b.k.rcv.nxt == 0 && x.b.k.cf.rcvWnd % 0x1_0000 == q
    requires x.a.accepted != [] && |Cut(Mss(x.a.k.cf), x.a.accepted[0])| > q
    ensures To(x, y) && Stuck(y)
  {
    var z := FeedAll(x, q);
    LiveNumbers(z);
    y := Tell(z);
    ToTrans(x, z, y);
    LiveNumbers(y);
    WindowGone(z.b.k, q);
    SameWindow(z.b.k, Ticked(z.b, 0).k);
    FlushZero(Ticked(z.b, 0), z.a.net);
  }

  lemma WindowGone(k: Kcb, q: nat)
    requires |k.rcv.queue| == q == k.cf.rcvWnd % 0x1_0000
    ensures WndUnused(k) == 0
  {
    var wnd := k.cf.rcvWnd;
    assert wnd == wnd / 0x1_0000 * 0x1_0000 + q;
  }

  /** Filling goes to the end of the window. */
  lemma {:induction false} FillsWindow(k: Kcb, wnd: nat)
    requires k.snd.nxt <= k.snd.una + wnd <= k.snd.nxt + |k.snd.queue|
    ensures Fill(EXACT, k, wnd).snd.nxt == k.snd.una + wnd
    decreases |k.snd.queue|
  {
    FillUnfold(k, wnd);
    if k.snd.nxt < k.snd.una + wnd {
      FillsWindow(NumberNext(EXACT, k), wnd);
    }
  }

  // ---- the runs ----

  /** A peer with a send window of `q` and no congestion control. */
  function Peer(conv: nat, q: nat): (c: Conf)
    requires conv < M32 && 0 < q < WND_RCV
    ensures Shows(c) && c.sndWnd == q && c.noCwnd && c.conv == conv && c.rcvWnd == WND_RCV
  {
    Settings(conv, MTU_DEF, q, WND_RCV, INTERVAL, false, RTO_MIN, 0, FASTACK_LIMIT, true, DEADLINK)
  }

  /** An end that has accepted one message and done nothing else. */
  function Sender1(cf: Conf, msg: Msg): Side {
    Side(Create(cf).(snd := Sender(0, 0, Cut(Mss(cf), msg), [])), [msg], [], [])
  }

  lemma SendFirst(cf: Conf, peer: Net, msg: Msg)
    requires SendAccepts(cf, msg)
    ensures Act(EXACT, Start(cf), peer, DoSend(msg)) == Sender1(cf, msg)
  {
    assert [] + Cut(Mss(cf), msg) == Cut(Mss(cf), msg);
    assert [] + [msg] == [msg];
  }

  lemma RunSnoc(ca: Conf, cb: Conf, es: seq<Event>, e: Event)
    ensures Run(EXACT, ca, cb, es + [e]) == Step(EXACT, Run(EXACT, ca, cb, es), e)
    ensures Live(Run(EXACT, ca, cb, es + [e]))
  {
    assert (es + [e])[..|es|] == es;
    RunFlow(ca, cb, es + [e]);
  }

  lemma OneSend(ca: Conf, cb: Conf, msg: Msg) returns (es: seq<Event>)
    requires SendAccepts(ca, msg)
    ensures Run(EXACT, ca, cb, es) == Sys(Sender1(ca, msg), Start(cb)) && Live(Run(EXACT, ca, cb, es))
  {
    es := [] + [Event(true, DoSend(msg))];
    RunSnoc(ca, cb, [], Event(true, DoSend(msg)));
    SendFirst(ca, [], msg);
  }

  lemma TwoSends(ca: Conf, cb: Conf) returns (es: seq<Event>)
    ensures Run(EXACT, ca, cb, es) == Sys(Sender1(ca, [0]), Sender1(cb, [0])) && Live(Run(EXACT, ca, cb, es))
  {
    var one := OneSend(ca, cb, [0]);
    es := one + [Event(false, DoSend([0]))];
    RunSnoc(ca, cb, one, Event(false, DoSend([0])));
    SendFirst(cb, [], [0]);
  }

  /** Each end has accepted less than a window of fragments. */
  ghost predicate Small(ca: Conf, cb: Conf, x: Sys) {
    |Frags(Mss(ca), x.a.accepted)| < WND_RCV && |Frags(Mss(cb), x.b.accepted)| < WND_RCV
  }

  lemma OneIsSmall(cf: Conf, msg: Msg)
    requires SendAccepts(cf, msg)
    ensures |Frags(Mss(cf), [msg])| < WND_RCV && Frags(Mss(cf), []) == []
  {
    CutShape(Mss(cf), msg);
    FragsSnoc(Mss(cf), [], msg);
    assert [] + [msg] == [msg];
  }

  lemma StuckFromZero(ca: Conf, cb: Conf) returns (es: seq<Event>)
    requires cb.rcvWnd % 0x1_0000 == 0
    ensures Stuck(Run(EXACT, ca, cb, es)) && Small(ca, cb, Run(EXACT, ca, cb, es))
  {
    var first := TwoSends(ca, cb);
    var x := Run(EXACT, ca, cb, first);
    WindowGone(x.b.k, 0);
    CutShape(Mss(cb), [0]);
    OneIsSmall(ca, [0]);
    OneIsSmall(cb, [0]);
    var y := TellEarly(x);
    es := Reached(ca, cb, first, y);
  }

  lemma LongMessage(mss: nat, q: nat) returns (msg: Msg)
    requires 0 < mss
    ensures |msg| == q * mss + 1 && |Cut(mss, msg)| == q + 1
  {
    msg := seq(q * mss + 1, _ => 0);
    CutShape(mss, msg);
    CountLong(mss, q);
  }

  lemma CountLong(mss: nat, q: nat)
    requires 0 < mss
    ensures FragmentCount(mss, q * mss + 1) == q + 1
  {
    Multiples(mss, q);
    DivUnique(q * mss + 1 + mss - 1, mss, q + 1, 0);
  }

  lemma Multiples(mss: nat, q: nat)
    requires 0 < mss
    ensures q * mss + 1 + mss - 1 == (q + 1) * mss && (q > 0 ==> mss <= q * mss) && (q == 0 ==> q * mss == 0)
  {
  }

  /** What the first flush leaves: `q` fragments are numbered. */
  lemma FeedStart(x: Sys, q: nat) returns (y: Sys)
    requires Live(x) && 0 < q < WND_RCV - 1 && x.b.net == [] && x.b.delivered == []
    requires x.a.k.snd.una == 0 == x.a.k.snd.nxt && |x.a.k.snd.queue| == q + 1
    requires x.a.k.cf.sndWnd == q && x.a.k.cf.noCwnd && x.a.k.cong.rmtWnd == WND_RCV
    ensures Feeding(y, q) && To(x, y) && y.b == x.b
  {
    y := FlushA(x, 0);
    var k := Ticked(x.a, 0).k;
    FlushAtParts(x.a, x.b.net, 0);
    FillsWindow(Cleared(k), q);
    FlushFillAppends(k);
    FlushKeepsNumbers(k);
    assert SendWindow(k.cf, k.cong) == q;
  }

  lemma FlushKeepsNumbers(k: Kcb)
    requires k.clk.updated
    ensures FlushState(EXACT, k).cf == k.cf
    ensures FlushState(EXACT, k).snd.nxt == FlushFill(EXACT, k).snd.nxt
    ensures FlushState(EXACT, k).snd.una == k.snd.una
  {
    FlushFillAppends(k);
  }

  lemma StuckFromSome(cb: Conf, q: nat) returns (ca: Conf, es: seq<Event>)
    requires q == cb.rcvWnd % 0x1_0000 && 0 < q < WND_RCV - 1
    ensures Shows(ca) && ca == Peer(cb.conv, q)
    ensures Stuck(Run(EXACT, ca, cb, es)) && Small(ca, cb, Run(EXACT, ca, cb, es))
  {
    ca := Peer(cb.conv, q);
    var msg := LongMessage(Mss(ca), q);
    OneIsSmall(ca, msg);
    OneIsSmall(cb, [0]);
    var first := OneSend(ca, cb, msg);
    var x := Run(EXACT, ca, cb, first);
    var y := FeedStart(x, q);
    var z := TellLate(y, q);
    ToTrans(x, y, z);
    es := Reached(ca, cb, first, z);
  }

  lemma Reached(ca: Conf, cb: Conf, first: seq<Event>, y: Sys) returns (es: seq<Event>)
    requires To(Run(EXACT, ca, cb, first), y)
    ensures Run(EXACT, ca, cb, es) == y
  {
    var more :| Quiet(more) && RunFrom(Run(EXACT, ca, cb, first), more) == y;
    es := first + more;
    RunOn(ca, cb, first, more);
  }

  /** An end with other settings and a peer that gets stuck. */
  lemma SomeGetStuck(cb: Conf) returns (ca: Conf, es: seq<Event>)
    requires !Shows(cb)
    ensures Shows(ca) && ca.conv == cb.conv && ca.rcvWnd == WND_RCV
    ensures !CanFinish(ca, cb, es) && Small(ca, cb, Run(EXACT, ca, cb, es))
  {
    var q := cb.rcvWnd % 0x1_0000;
    if q == 0 {
      ca := Peer(cb.conv, 1);
      es := StuckFromZero(ca, cb);
    } else {
      ca, es := StuckFromSome(cb, q);
    }
    StuckCannot(ca, cb, es);
  }

  /** With these settings, and only with these, an end can be served by every
      peer: after any run all that was accepted can still be handed out. */
  lemma ServedByAll(cb: Conf)
    ensures Shows(cb) <==> forall ca: Conf, es | Shows(ca) :: CanFinish(ca, cb, es)
  {
    if Shows(cb) {
      forall ca: Conf, es | Shows(ca) ensures CanFinish(ca, cb, es) {
        AlwaysCanFinish(ca, cb, es);
      }
    } else {
      var ca, es := SomeGetStuck(cb);
    }
  }

  /** The same of young connections on bytes, for windows that leave room in the
      number space. */
  lemma ServedOnBytes(cb: Conf)
    requires cb.rcvWnd + WND_RCV <= HALF
    ensures Shows(cb) <==> forall ca: Conf, es | Shows(ca) && Young(ca, cb, es) :: BytesCanFinish(ca, cb, es)
  {
    if Shows(cb) {
      forall ca: Conf, es | Shows(ca) && Young(ca, cb, es) ensures BytesCanFinish(ca, cb, es) {
        BytesAlwaysCanFinish(ca, cb, es);
      }
    } else {
      var ca, es := SomeGetStuck(cb);
      AcceptedInRun(EXACT, ca, cb, es);
      assert Young(ca, cb, es);
      CanFinishAlike(ca, cb, es);
    }
  }
}
