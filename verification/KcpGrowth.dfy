// The congestion window over runs: what each datagram adds to it, what a flush
// takes from it, and how much it lets be in flight.
module KcpGrowth {
  import opened Circular
  import opened KcpModel
  import opened KcpWindow
  import opened KcpWire
  import opened KcpSystem
  import opened KcpRuns
  import opened KcpEndpoint
  import opened KcpCongestion
  import opened KcpFast
  import Seqs
  import R = KcpResend

  // ---- one datagram ----

  /** What one additive increase adds, in bytes. */
  function Inch(c: Cong, mss: nat): nat
    requires 0 < c.incr
  {
    Quot(mss * mss, c.incr) + mss / 16
  }

  /** `n` is the least number of segments that hold `bytes`. */
  predicate Holds(n: int, bytes: int, mss: nat) { (n - 1) * mss < bytes <= n * mss }

  /** At or above ssthresh: `incr` grows by less than a segment, and once it has
      reached a segment more than the window, the window follows. */
  ghost predicate Inched(c: Cong, c': Cong, mss: nat)
    requires 0 < c.incr
  {
    var bytes := c.incr + Inch(c, mss);
    if bytes < (c.cwnd + 1) * mss then c'.cwnd == c.cwnd && c'.incr == bytes
    else exists n :: Holds(n, bytes, mss) && c.cwnd < n <= c.cwnd + 2
           && c'.cwnd == Min(n, c'.rmtWnd) && c'.incr == if n <= c'.rmtWnd then bytes else c'.rmtWnd * mss
  }

  /** The window before and after a datagram that advances snd_una: up to ssthresh it
      grows by a whole segment, above by part of one, and never above the peer's. */
  ghost predicate Grown(c: Cong, c': Cong, mss: nat) {
    && c'.ssthresh == c.ssthresh
    && if c.cwnd >= c'.rmtWnd then c'.cwnd == c.cwnd && c'.incr == c.incr
       else if c.cwnd < c.ssthresh then c'.cwnd == c.cwnd + 1 && c'.incr == c.incr + mss
       else c.incr > 0 && Inched(c, c', mss)
  }

  lemma PlainInch(cf: Conf, c: Cong)
    requires Roomy(cf) && CongOk(cf, c) && c.ssthresh <= c.cwnd < c.rmtWnd
    ensures c.incr > 0
    ensures var bytes := c.incr + Inch(c, Mss(cf));
            && bytes < M32 && bytes <= (c.cwnd + 2) * Mss(cf)
            && Creep(c, Mss(cf)) == c.(incr := bytes,
                 cwnd := if (c.cwnd + 1) * Mss(cf) <= bytes then Quot(bytes + Mss(cf) - 1, Mss(cf)) else c.cwnd)
  {
    var mss := Mss(cf);
    MulMono(2, c.cwnd, mss);
    CreepStep(c.cwnd * mss, c.incr, mss);
    MulAdd(c.cwnd, 1, mss);
    MulAdd(c.cwnd, 2, mss);
    MulAdd(c.cwnd, 3, mss);
    MulMono(c.cwnd + 3, Top(cf) + 2, mss);
    MulMono(65537, Top(cf) + 2, mss);
    MulMono(mss, 65537, mss);
    CreepPlain(c, mss);
  }

  lemma CreepInches(cf: Conf, c: Cong)
    requires Roomy(cf) && CongOk(cf, c) && c.ssthresh <= c.cwnd < c.rmtWnd
    ensures c.incr > 0 && Inched(c, Grow(c, Mss(cf)), Mss(cf))
  {
    var mss := Mss(cf);
    PlainInch(cf, c);
    var bytes := c.incr + Inch(c, mss);
    WholeSegments(cf, c.rmtWnd);
    if (c.cwnd + 1) * mss <= bytes {
      var n := Quot(bytes + mss - 1, mss);
      CeilStep(c.cwnd, bytes, mss);
      MulAdd(n, -1, mss);
      assert Holds(n, bytes, mss);
    }
  }

  lemma GrowGrows(cf: Conf, c: Cong)
    requires Roomy(cf) && CongOk(cf, c)
    ensures Grown(c, Grow(c, Mss(cf)), Mss(cf)) && Grow(c, Mss(cf)).rmtWnd == c.rmtWnd
  {
    if c.cwnd < c.rmtWnd {
      if c.cwnd < c.ssthresh {
        SlowStart(cf, c);
      } else {
        CreepInches(cf, c);
      }
    }
  }

  /** The window that the last segment of a datagram announces. */
  function Announced(conv: nat, wnd: nat, d: seq<Byte>): nat
    decreases |d|
  {
    match ParseOne(conv, d)
    case Got(w, rest) => Announced(conv, w.wnd, rest)
    case _ => wnd
  }

  predicate Advances(una: int, una': int) { TimeDiff(una', una) > 0 }

  lemma {:induction false} InputGrowsFrom(k: Kcb, c: Cong, m: MaxAck, prevUna: int, cmd: int, d: seq<Byte>)
    requires Roomy(k.cf) && CongOk(k.cf, k.cong) && k.cong == c.(rmtWnd := k.cong.rmtWnd)
    ensures var k' := InputBytesFrom(WRAP, k, m, prevUna, cmd, d).1;
            && k'.cong.rmtWnd == Announced(k.cf.conv, k.cong.rmtWnd, d)
            && if Whole(k.cf.conv, d) && Advances(prevUna, k'.snd.una) then Grown(c, k'.cong, Mss(k.cf))
               else k'.cong == c.(rmtWnd := k'.cong.rmtWnd)
    decreases |d|
  {
    match ParseOne(k.cf.conv, d)
    case Stop => GrowGrows(k.cf, k.cong); AtEnd(k, c, m, prevUna);
    case Fail(_) =>
    case Got(w, rest) =>
      InputSegCong(k, w);
      SameConv(k, w);
      InputGrowsFrom(InputSeg(WRAP, k, w), c, NoteSeg(WRAP, m, w), prevUna, w.cmd, rest);
  }

  lemma AtEnd(k: Kcb, c: Cong, m: MaxAck, prevUna: int)
    requires k.cong == c.(rmtWnd := k.cong.rmtWnd) && Grown(k.cong, Grow(k.cong, Mss(k.cf)), Mss(k.cf))
    requires Grow(k.cong, Mss(k.cf)).rmtWnd == k.cong.rmtWnd
    ensures var k' := InputEnd(WRAP, k, m, prevUna);
            && k'.cong.rmtWnd == k.cong.rmtWnd
            && if Advances(prevUna, k'.snd.una) then Grown(c, k'.cong, Mss(k.cf)) else k'.cong == k.cong
  {
  }

  /** A datagram that is read to its end. */
  predicate Reads(k: Kcb, d: seq<Byte>) { |d| >= OVERHEAD && Whole(k.cf.conv, d) }

  /** ikcp_input, whatever the bytes: the window grows if and only if the datagram is
      read to its end and advances snd_una, and then by what is said above. */
  lemma InputGrows(k: Kcb, d: seq<Byte>)
    requires Roomy(k.cf) && CongOk(k.cf, k.cong)
    ensures var k' := InputBytes(WRAP, k, d).1;
            && k'.cong.rmtWnd == (if |d| >= OVERHEAD then Announced(k.cf.conv, k.cong.rmtWnd, d) else k.cong.rmtWnd)
            && if Reads(k, d) && Advances(k.snd.una, k'.snd.una) then Grown(k.cong, k'.cong, Mss(k.cf))
               else k'.cong == k.cong.(rmtWnd := k'.cong.rmtWnd)
  {
    if |d| >= OVERHEAD {
      InputGrowsFrom(k, k.cong, NoAck, k.snd.una, 0, d);
    }
  }

  // ---- one flush ----

  /** A segment is sent because its deadline has come. */
  ghost predicate Late(buf: seq<SndSeg>, now: nat) {
    exists i :: 0 <= i < |buf| && buf[i].xmit > 0 && R.Overdue(R.ArmOfSeg(buf[i]), now)
  }

  /** A segment is sent because it was passed over. */
  ghost predicate Passed(cf: Conf, buf: seq<SndSeg>, now: nat) {
    exists i :: 0 <= i < |buf| && buf[i].xmit > 0 && !R.Overdue(R.ArmOfSeg(buf[i]), now)
      && R.FastDue(cf, buf[i].fastAck, buf[i].xmit)
  }

  /** The window before and after a flush that had `flight` segments in flight and
      could send up to `wnd`. */
  predicate Cut(cf: Conf, c: Cong, c': Cong, late: bool, passed: bool, flight: nat, wnd: nat) {
    && c'.rmtWnd == c.rmtWnd
    && if late then c'.cwnd == 1 && c'.incr == Mss(cf) && c'.ssthresh == (if wnd < 4 then 2 else wnd / 2)
       else if passed then
         && c'.ssthresh == (if flight < 4 then 2 else flight / 2)
         && c'.cwnd == (if cf.fastResend > 0 then c'.ssthresh + cf.fastResend else c'.ssthresh - 1)
         && c'.incr == c'.cwnd * Mss(cf)
       else c'.ssthresh == c.ssthresh && Opened(c, c', Mss(cf))
  }

  /** A window is not left closed. */
  predicate Opened(c: Cong, c': Cong, mss: nat) {
    if c.cwnd == 0 then c'.cwnd == 1 && c'.incr == mss else c'.cwnd == c.cwnd && c'.incr == c.incr
  }

  lemma {:induction false} Judged(k: Kcb, buf: seq<SndSeg>, v: Verdict)
    ensures CountJudged(k, buf, v) > 0 <==> exists i :: 0 <= i < |buf| && Judge(k, buf[i]) == v
    decreases |buf|
  {
    if buf != [] {
      var n := |buf| - 1;
      Judged(k, buf[..n], v);
      if i :| 0 <= i < n && Judge(k, buf[i]) == v {
        assert buf[..n][i] == buf[i];
      }
    }
  }

  lemma JudgedLate(k: Kcb, buf: seq<SndSeg>)
    ensures CountJudged(k, buf, Timeout) > 0 <==> Late(buf, k.clk.current)
    ensures CountJudged(k, buf, Fast) > 0 <==> Passed(k.cf, buf, k.clk.current)
  {
    Judged(k, buf, Timeout);
    Judged(k, buf, Fast);
  }

  lemma CutPlain(k: Kcb, wnd: nat, change: bool, lost: bool, flight: nat)
    requires Roomy(k.cf) && flight == U32(k.snd.nxt - k.snd.una) <= MAX_FLIGHT
    ensures Cut(k.cf, k.cong, FlushCong(k, wnd, change, lost), lost, change, flight, wnd)
  {
    var th := Max(flight / 2, THRESH_MIN);
    ResentBound(k.cf, th);
    WholeSegments(k.cf, U32(th + Resent(k.cf)));
    if k.cf.fastResend <= 0 {
      Residue(th + Resent(k.cf), 1, th - 1);
    }
  }

  /** ikcp_flush: a timeout cuts the window to one segment and ssthresh to half of
      what could be sent; otherwise segments passed over cut ssthresh to half of what
      is in flight; otherwise nothing changes. */
  lemma FlushCuts(k: Kcb)
    requires Sound(k) && k.clk.updated && Roomy(k.cf) && CongOk(k.cf, k.cong)
    ensures var k1 := FlushFill(WRAP, k);
            Cut(k.cf, k.cong, FlushState(WRAP, k).cong, Late(k1.snd.buf, k.clk.current),
                Passed(k.cf, k1.snd.buf, k.clk.current), U32(k1.snd.nxt - k1.snd.una), SendWindow(k.cf, k.cong))
  {
    R.FillOfFlush(k);
    FlushFillCong(k);
    PassCuts(FlushFill(WRAP, k), SendWindow(k.cf, k.cong), k.clk.current);
  }

  lemma PassCuts(k: Kcb, wnd: nat, now: nat)
    requires Roomy(k.cf) && U32(k.snd.nxt - k.snd.una) <= MAX_FLIGHT && now == k.clk.current
    ensures Cut(k.cf, k.cong, FlushBuf(k, wnd).cong, Late(k.snd.buf, now), Passed(k.cf, k.snd.buf, now),
                U32(k.snd.nxt - k.snd.una), wnd)
  {
    JudgedLate(k, k.snd.buf);
    CutPlain(k, wnd, CountJudged(k, k.snd.buf, Fast) > 0, CountJudged(k, k.snd.buf, Timeout) > 0,
             U32(k.snd.nxt - k.snd.una));
  }

  /** The window of a flush is the least of three, or of two without congestion control. */
  lemma WindowIsLeast(cf: Conf, c: Cong)
    ensures var w := SendWindow(cf, c);
            && w <= cf.sndWnd && w <= c.rmtWnd && (cf.noCwnd || w <= c.cwnd)
            && (w == cf.sndWnd || w == c.rmtWnd || (!cf.noCwnd && w == c.cwnd))
  {
  }

  /** How many numbers are in flight. */
  function Flight(s: Sender): nat { U32(s.nxt - s.una) }

  lemma FlightRoom(s: Sender, wnd: nat)
    requires SndWindow(WRAP, s) && wnd <= MAX_FLIGHT
    ensures WRAP.diff(s.nxt, s.una + wnd) < 0 <==> Flight(s) < wnd
  {
    var room: int := wnd;
    FlightCount(s);
    U32Add(s.nxt - s.una, -room);
  }

  lemma OneMore(nxt: int, una: int)
    requires U32(nxt - una) < MAX_FLIGHT
    ensures U32(U32(nxt + 1) - una) == U32(nxt - una) + 1
  {
    U32Add(nxt - una, 1);
    U32Add(nxt + 1, -una);
  }

  lemma NextWindow(s: Sender, wnd: nat, seg: SndSeg)
    requires SndWindow(WRAP, s) && wnd <= MAX_FLIGHT && Flight(s) < wnd && seg.wire.sn == s.nxt
    ensures SndWindow(WRAP, s.(nxt := U32(s.nxt + 1), buf := s.buf + [seg]))
  {
    WrapLawful();
    FlightRoom(s, wnd);
    FillWindowStep(WRAP, s, wnd, seg);
  }

  lemma QueueApart(s: Sender, q: seq<Frag>)
    requires SndWindow(WRAP, s)
    ensures SndWindow(WRAP, s.(queue := q))
  {
  }

  lemma NextFlight(k: Kcb, wnd: nat)
    requires SndWindow(WRAP, k.snd) && wnd <= MAX_FLIGHT && Flight(k.snd) < wnd && k.snd.queue != []
    ensures var s' := NumberNext(WRAP, k).snd;
            SndWindow(WRAP, s') && Flight(s') == Flight(k.snd) + 1 && s'.queue == k.snd.queue[1..]
  {
    var s, seg := k.snd, Stamp(k, k.snd.queue[0], k.snd.nxt);
    OneMore(s.nxt, s.una);
    NextWindow(s, wnd, seg);
    QueueApart(s.(nxt := U32(s.nxt + 1), buf := s.buf + [seg]), s.queue[1..]);
  }

  /** Numbers are given out until the window is full or nothing waits. */
  predicate Stops(flight: nat, waiting: nat, flight': nat, waiting': nat, wnd: nat) {
    && waiting' <= waiting && flight' == flight + (waiting - waiting')
    && (waiting' == waiting || flight' <= wnd)
    && (waiting' == 0 || wnd <= flight')
  }

  /** The numbering of ikcp_flush stops exactly there. */
  lemma {:induction false} FillStops(k: Kcb, wnd: nat)
    requires SndWindow(WRAP, k.snd) && wnd <= MAX_FLIGHT
    ensures var s' := Fill(WRAP, k, wnd).snd;
            Stops(Flight(k.snd), |k.snd.queue|, Flight(s'), |s'.queue|, wnd)
    decreases |k.snd.queue|
  {
    FlightRoom(k.snd, wnd);
    if Flight(k.snd) < wnd && k.snd.queue != [] {
      NextFlight(k, wnd);
      FillStops(NumberNext(WRAP, k), wnd);
    }
  }

  /** A flush numbers what waits until the least of those windows is full. */
  lemma FlushFills(k: Kcb)
    requires Sound(k) && CongOk(k.cf, k.cong)
    ensures var s, s' := k.snd, FlushFill(WRAP, k).snd;
            Stops(Flight(s), |s.queue|, Flight(s'), |s'.queue|, SendWindow(k.cf, k.cong))
  {
    var (clk, _) := ProbeTimer(k.clk, k.cong.rmtWnd);
    FillStops(k.(clk := clk, rcv := k.rcv.(acks := []), askSend := false, askTell := false), SendWindow(k.cf, k.cong));
  }

  // ---- every run ----

  /** A datagram that advances snd_una while the window is below the peer's. */
  predicate Rewarded(k: Kcb, c: Call) {
    && c.CallInput? && Reads(k, c.d) && Advances(k.snd.una, Do(k, c).snd.una)
    && k.cong.cwnd < Do(k, c).cong.rmtWnd
  }

  /** A call that sends nothing again. */
  ghost predicate Calm(k: Kcb, c: Call) {
    R.Flushes(k, c) ==>
      var buf := FlushFill(WRAP, R.AtFlush(k, c)).snd.buf;
      !Late(buf, R.CallTime(k, c)) && !Passed(k.cf, buf, R.CallTime(k, c))
  }

  /** The window has risen, or `n` parts of a segment have been added towards it. */
  predicate Nearer(c: Cong, c': Cong, mss: nat, n: nat) {
    c'.cwnd > c.cwnd || (c'.cwnd == c.cwnd && c'.incr >= c.incr + n * (mss / 16))
  }

  lemma GrownNearer(c: Cong, c': Cong, mss: nat)
    requires Grown(c, c', mss)
    ensures Nearer(c, c', mss, if c.cwnd < c'.rmtWnd then 1 else 0)
  {
  }

  lemma CutNearer(cf: Conf, c: Cong, c': Cong, flight: nat, wnd: nat)
    requires Cut(cf, c, c', false, false, flight, wnd)
    ensures Nearer(c, c', Mss(cf), 0)
  {
  }

  lemma FlushNearer(k: Kcb)
    requires Sound(k) && k.clk.updated && Roomy(k.cf) && CongOk(k.cf, k.cong)
    requires var buf := FlushFill(WRAP, k).snd.buf; !Late(buf, k.clk.current) && !Passed(k.cf, buf, k.clk.current)
    ensures Nearer(k.cong, FlushState(WRAP, k).cong, Mss(k.cf), 0)
  {
    var k1 := FlushFill(WRAP, k);
    FlushCuts(k);
    CutNearer(k.cf, k.cong, FlushState(WRAP, k).cong, U32(k1.snd.nxt - k1.snd.una), SendWindow(k.cf, k.cong));
  }

  lemma InputNearer(k: Kcb, d: seq<Byte>)
    requires Roomy(k.cf) && CongOk(k.cf, k.cong)
    ensures Nearer(k.cong, InputBytes(WRAP, k, d).1.cong, Mss(k.cf), if Rewarded(k, CallInput(d)) then 1 else 0)
  {
    InputGrows(k, d);
    if Reads(k, d) && Advances(k.snd.una, InputBytes(WRAP, k, d).1.snd.una) {
      GrownNearer(k.cong, InputBytes(WRAP, k, d).1.cong, Mss(k.cf));
    }
  }

  lemma CallNearer(k: Kcb, c: Call)
    requires Sound(k) && Roomy(k.cf) && CongOk(k.cf, k.cong) && Calm(k, c)
    ensures Nearer(k.cong, Do(k, c).cong, Mss(k.cf), if Rewarded(k, c) then 1 else 0)
  {
    if c.CallInput? {
      InputNearer(k, c.d);
    } else if R.Flushes(k, c) {
      R.FlushOfCall(k, c);
      FlushNearer(R.AtFlush(k, c));
    } else {
      OtherCong(k, c);
    }
  }

  lemma OtherCong(k: Kcb, c: Call)
    requires !c.CallInput? && !R.Flushes(k, c)
    ensures Do(k, c).cong == k.cong
  {
  }

  /** After the run `cs`, the calls `ds` send nothing again. */
  ghost predicate Quiet(cf: Conf, cs: seq<Call>, ds: seq<Call>) {
    ds == [] || (var n := |ds| - 1; Quiet(cf, cs, ds[..n]) && Calm(DoAll(cf, cs + ds[..n]), ds[n]))
  }

  /** How many of the calls `ds` are datagrams that get a reward. */
  function Rewards(cf: Conf, cs: seq<Call>, ds: seq<Call>): nat {
    if ds == [] then 0
    else
      var n := |ds| - 1;
      Rewards(cf, cs, ds[..n]) + if Rewarded(DoAll(cf, cs + ds[..n]), ds[n]) then 1 else 0
  }

  lemma NearerTrans(a: Cong, b: Cong, c: Cong, mss: nat, n: nat, m: nat)
    requires Nearer(a, b, mss, n) && Nearer(b, c, mss, m)
    ensures Nearer(a, c, mss, n + m)
  {
    MulAdd(n, m, mss / 16);
  }

  lemma {:induction false} RunNearer(cf: Conf, cs: seq<Call>, ds: seq<Call>)
    requires Roomy(cf) && Quiet(cf, cs, ds)
    ensures Nearer(DoAll(cf, cs).cong, DoAll(cf, cs + ds).cong, Mss(cf), Rewards(cf, cs, ds))
    decreases |ds|
  {
    if ds == [] {
      assert cs + ds == cs;
    } else {
      var n := |ds| - 1;
      RunNearer(cf, cs, ds[..n]);
      Seqs.AppendLast(cs, ds);
      LastNearer(cf, cs + ds[..n], ds[n], cs + ds);
      NearerTrans(DoAll(cf, cs).cong, DoAll(cf, cs + ds[..n]).cong, DoAll(cf, cs + ds).cong, Mss(cf),
                  Rewards(cf, cs, ds[..n]), if Rewarded(DoAll(cf, cs + ds[..n]), ds[n]) then 1 else 0);
    }
  }

  lemma LastNearer(cf: Conf, front: seq<Call>, c: Call, all: seq<Call>)
    requires Roomy(cf) && all != [] && front == all[..|all| - 1] && c == all[|all| - 1] && Calm(DoAll(cf, front), c)
    ensures Nearer(DoAll(cf, front).cong, DoAll(cf, all).cong, Mss(cf), if Rewarded(DoAll(cf, front), c) then 1 else 0)
  {
    AlwaysBalanced(cf, front);
    AlwaysSound(cf, front);
    CallNearer(DoAll(cf, front), c);
  }

  /** 62 sixteenths, rounded down, are two segments of any size. */
  lemma TwoSegments(mss: nat, n: nat)
    requires 26 <= mss && 62 <= n
    ensures 2 * mss <= n * (mss / 16)
  {
    MulMono(62, n, mss / 16);
  }

  lemma MustRise(c: Cong, c': Cong, mss: nat, n: nat)
    requires Nearer(c, c', mss, n) && Balanced(c, mss) && Balanced(c', mss) && 2 * mss <= n * (mss / 16)
    ensures c'.cwnd > c.cwnd
  {
  }

  /** In any part of a run in which nothing is sent again, the window has risen after
      62 datagrams that advance snd_una while it is below the peer's. */
  lemma WindowRises(cf: Conf, cs: seq<Call>, ds: seq<Call>)
    requires Roomy(cf) && Quiet(cf, cs, ds) && Rewards(cf, cs, ds) >= 62
    ensures DoAll(cf, cs + ds).cong.cwnd > DoAll(cf, cs).cong.cwnd
  {
    AlwaysBalanced(cf, cs);
    AlwaysBalanced(cf, cs + ds);
    RunNearer(cf, cs, ds);
    TwoSegments(Mss(cf), Rewards(cf, cs, ds));
    MustRise(DoAll(cf, cs).cong, DoAll(cf, cs + ds).cong, Mss(cf), Rewards(cf, cs, ds));
  }
}
