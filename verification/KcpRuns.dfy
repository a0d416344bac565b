// The clock and the timeouts of a control block in every run: sends, receives,
// arbitrary input, explicit flushes and updates in any order.
module KcpRuns {
  import opened Circular
  import opened KcpModel
  import opened KcpWire
  import opened KcpEndpoint
  import opened KcpTimer

  // ---- what calls leave alone ----

  lemma {:induction false} InputKeepsClock(k: Kcb, m: MaxAck, prevUna: int, cmd: int, d: seq<Byte>)
    ensures var k' := InputBytesFrom(WRAP, k, m, prevUna, cmd, d).1; k'.clk == k.clk && k'.cf == k.cf
    decreases |d|
  {
    var p := ParseOne(k.cf.conv, d);
    if p.Got? {
      InputKeepsClock(InputSeg(WRAP, k, p.w), NoteSeg(WRAP, m, p.w), prevUna, p.w.cmd, p.rest);
    }
  }

  lemma {:induction false} FillKeepsClock(k: Kcb, wnd: nat)
    ensures var k' := Fill(WRAP, k, wnd); k'.clk == k.clk && k'.cf == k.cf && k'.rtt == k.rtt
    decreases |k.snd.queue|
  {
    if k.snd.queue != [] {
      FillKeepsClock(NumberNext(WRAP, k), wnd);
    }
  }

  lemma FlushKeepsTicks(k: Kcb)
    ensures var k' := FlushState(WRAP, k);
            && k'.cf == k.cf && k'.rtt == k.rtt && SameTicks(k'.clk, k.clk)
            && k'.clk == if k.clk.updated then ProbeTimer(k.clk, k.cong.rmtWnd).0 else k.clk
  {
    var clk := ProbeTimer(k.clk, k.cong.rmtWnd).0;
    FillKeepsClock(k.(clk := clk, rcv := k.rcv.(acks := []), askSend := false, askTell := false),
                   SendWindow(k.cf, k.cong));
  }

  // ---- the rate of flushes ----

  /** The fields of a clock that ikcp_update reads. */
  predicate SameTicks(c: Clock, d: Clock) {
    c.current == d.current && c.tsFlush == d.tsFlush && c.updated == d.updated
  }

  lemma TickSame(c: Clock, d: Clock, interval: nat, now: nat)
    requires SameTicks(c, d)
    ensures SameTicks(Tick(c, interval, now).0, Tick(d, interval, now).0)
    ensures Tick(c, interval, now).1 == Tick(d, interval, now).1
  {
  }

  /** The times of the updates among some calls. */
  function UpdateTimes(cs: seq<Call>): seq<int> {
    if cs == [] then []
    else
      var c := cs[|cs| - 1];
      UpdateTimes(cs[..|cs| - 1]) + if c.CallUpdate? then [c.now] else []
  }

  /** The times of those that flushed. */
  function FlushTimes(cf: Conf, cs: seq<Call>): seq<int> {
    if cs == [] then []
    else
      var front, c := cs[..|cs| - 1], cs[|cs| - 1];
      FlushTimes(cf, front)
      + if c.CallUpdate? && Tick(DoAll(cf, front).clk, cf.interval, U32(c.now)).1 then [c.now] else []
  }

  lemma DoTicks(k: Kcb, c: Call)
    ensures Do(k, c).cf == k.cf
    ensures SameTicks(Do(k, c).clk, if c.CallUpdate? then Tick(k.clk, k.cf.interval, U32(c.now)).0 else k.clk)
  {
    match c
    case CallSend(_) =>
    case CallRecv(_) =>
    case CallInput(d) => InputKeepsClock(k, NoAck, k.snd.una, 0, d);
    case CallFlush => FlushKeepsTicks(k);
    case CallUpdate(now) => FlushKeepsTicks(k.(clk := Tick(k.clk, k.cf.interval, U32(now)).0));
  }

  lemma PlaySnoc(clk: Clock, interval: nat, ts: seq<int>, t: int)
    ensures var (c, fired) := Play(clk, interval, ts);
            var (c', flush) := Tick(c, interval, U32(t));
            Play(clk, interval, ts + [t]) == (c', if flush then fired + [t] else fired)
  {
    assert (ts + [t])[..|ts|] == ts;
  }

  /** The calls in between do not disturb the flush timer. */
  lemma {:induction false} RunIsPlay(cf: Conf, cs: seq<Call>)
    ensures var (c, fired) := Play(Create(cf).clk, cf.interval, UpdateTimes(cs));
            DoAll(cf, cs).cf == cf && SameTicks(DoAll(cf, cs).clk, c) && FlushTimes(cf, cs) == fired
    decreases |cs|
  {
    if cs != [] {
      var front, c := cs[..|cs| - 1], cs[|cs| - 1];
      var k := DoAll(cf, front);
      RunIsPlay(cf, front);
      DoTicks(k, c);
      if c.CallUpdate? {
        PlaySnoc(Create(cf).clk, cf.interval, UpdateTimes(front), c.now);
        TickSame(k.clk, Play(Create(cf).clk, cf.interval, UpdateTimes(front)).0, cf.interval, U32(c.now));
      } else {
        assert UpdateTimes(front) + [] == UpdateTimes(front);
      }
    }
  }

  /** In every run whose updates come from a clock that does not run back, the
      next flush lies in (current, current + interval], and the flushes by
      ikcp_update come no faster than one per interval: counting from zero, the
      n-th is at least n intervals after the first. */
  lemma FlushRateInRun(cf: Conf, cs: seq<Call>)
    requires Steady(UpdateTimes(cs)) && UpdateTimes(cs) != []
    ensures var k, fired := DoAll(cf, cs), FlushTimes(cf, cs);
            && 0 < TimeDiff(k.clk.tsFlush, k.clk.current) <= cf.interval
            && forall n :: 0 <= n < |fired| ==> fired[n] >= fired[0] + n * cf.interval
  {
    RunIsPlay(cf, cs);
    FlushRate(cf, UpdateTimes(cs));
  }

  // ---- timeouts ----

  function ExactSrtt(srtt: int, age: nat): int { Max(1, Trunc(7 * srtt + age, 8)) }

  function ExactRttVal(rttVal: int, delta: nat): int { Trunc(3 * rttVal + delta, 4) }

  /** The smoothing on unbounded integers. */
  function Smoothed(cf: Conf, r: Rtt, age: nat): Rtt {
    var srtt := if r.srtt == 0 then age else ExactSrtt(r.srtt, age);
    var rttVal := if r.srtt == 0 then age / 2 else ExactRttVal(r.rttVal, Abs(age - r.srtt));
    Rtt(srtt, rttVal, BoundRto(cf, Max(0, srtt + Max(cf.interval, 4 * rttVal))))
  }

  /** Times that an int holds. */
  predicate TimesOk(r: Rtt) { 0 <= r.srtt < HALF && -HALF <= r.rttVal < HALF }

  /** The smoothed time is what it is meant to be exactly if its sum fits an
      int, and so is the deviation; both stay in the range of an int. */
  lemma TimesWrap(cf: Conf, r: Rtt, age: nat)
    requires TimesOk(r) && age < HALF
    ensures var r', exact := UpdateRtt(cf, r, age), Smoothed(cf, r, age);
            && TimesOk(r')
            && (r'.srtt == exact.srtt <==> r.srtt == 0 || 7 * r.srtt + age < HALF)
            && (r'.rttVal == exact.rttVal <==> r.srtt == 0 || -HALF <= 3 * r.rttVal < HALF)
  {
    if r.srtt != 0 {
      SumWraps(r.srtt, age);
      DeviationWraps(r.rttVal, Abs(age - r.srtt));
    }
  }

  /** A sample leaves the timeout between the configured minimum and RTO_MAX, and
      where times and sums fit, it is the one meant. */
  lemma RttBounds(cf: Conf, r: Rtt, age: nat)
    ensures cf.minRto <= UpdateRtt(cf, r, age).rto <= RTO_MAX
    ensures var r', exact := UpdateRtt(cf, r, age), Smoothed(cf, r, age);
            && (r'.srtt == exact.srtt >= 0 && r'.rttVal == exact.rttVal >= 0)
            && exact.srtt + Max(cf.interval, 4 * exact.rttVal) < M32
            ==> r' == exact
  {
    var exact := Smoothed(cf, r, age);
    if exact.srtt >= 0 && exact.rttVal >= 0 && exact.srtt + Max(cf.interval, 4 * exact.rttVal) < M32 {
      SumPlain(exact.srtt, exact.rttVal, cf.interval);
    }
  }

  /** The exact smoothing goes an eighth of the way to the sample, rounded down
      but not to zero, and never past it; the deviation goes a quarter of the way
      to the sample's distance. */
  lemma SmoothedMoves(cf: Conf, r: Rtt, age: nat)
    requires 0 <= r.srtt && 0 <= r.rttVal
    ensures var r' := Smoothed(cf, r, age);
            && (r.srtt == 0 ==> r'.srtt == age && 0 <= age - 2 * r'.rttVal <= 1)
            && (r.srtt > 0 ==> Max(1, Min(r.srtt, age)) <= r'.srtt <= Max(r.srtt, age))
            && (r.srtt > 0 && r'.srtt > 1 ==> 0 <= (age - r.srtt) - 8 * (r'.srtt - r.srtt) < 8)
            && (r.srtt > 0 ==> 0 <= r'.rttVal <= Max(r.rttVal, Abs(age - r.srtt)))
            && (r.srtt > 0 ==> 0 <= (Abs(age - r.srtt) - r.rttVal) - 4 * (r'.rttVal - r.rttVal) < 4)
  {
  }

  /** The timeout is the smoothed time plus four deviations, or plus the interval
      if that is more, as an unsigned number; below the minimum it is the minimum,
      and above a minute a minute. */
  lemma RtoIsSum(cf: Conf, r: Rtt, age: nat)
    ensures var r' := UpdateRtt(cf, r, age);
            var sum := (r'.srtt + Max(cf.interval, (4 * r'.rttVal) % M32)) % M32;
            && (cf.minRto <= sum <= 60000 ==> r'.rto == sum)
            && (sum < cf.minRto ==> r'.rto == cf.minRto)
            && (sum > 60000 ==> r'.rto == 60000)
  {
    var v := UpdateRtt(cf, r, age).rttVal;
    var q := Multiple(4 * v);
    Residue(4 * v, q + (if I32(4 * v) < 0 then -1 else 0), U32(I32(4 * v)));
  }

  lemma SumWraps(srtt: int, age: nat)
    requires 0 <= srtt < HALF && age < HALF
    ensures NewSrtt(srtt, age) == ExactSrtt(srtt, age) <==> 7 * srtt + age < HALF
    ensures 1 <= NewSrtt(srtt, age) < HALF
  {
    var q := Multiple(7 * srtt);
    var p := Multiple(I32(7 * srtt) + age);
    WrapsAway(7 * srtt + age, I32(I32(7 * srtt) + age), q + p);
  }

  lemma WrapsAway(x: int, y: int, k: int)
    requires 0 <= x && x == k * M32 + y && -HALF <= y < HALF
    ensures Max(1, Trunc(y, 8)) == Max(1, Trunc(x, 8)) <==> x < HALF
  {
    if x < HALF {
      assert k == 0;
    } else {
      assert k >= 1;
      assert y <= x - M32;
    }
  }

  lemma DeviationWraps(rttVal: int, delta: nat)
    requires -HALF <= rttVal < HALF && delta < HALF
    ensures NewRttVal(rttVal, delta) == ExactRttVal(rttVal, delta) <==> -HALF <= 3 * rttVal < HALF
    ensures -HALF <= NewRttVal(rttVal, delta) < HALF
  {
    var q := Multiple(3 * rttVal);
    if -HALF <= 3 * rttVal < HALF {
      assert I32(3 * rttVal) == 3 * rttVal;
    } else {
      TruncApart(3 * rttVal + delta, I32(3 * rttVal) + delta, q);
    }
  }

  lemma TruncApart(x: int, y: int, k: int)
    requires x == k * M32 + y && k != 0
    ensures Trunc(x, 4) != Trunc(y, 4)
  {
    assert x - y >= M32 || y - x >= M32;
  }

  lemma SumPlain(srtt: int, rttVal: int, interval: nat)
    requires 0 <= srtt && 0 <= rttVal && srtt + Max(interval, 4 * rttVal) < M32
    ensures U32(srtt + Max(interval, U32(I32(4 * rttVal)))) == srtt + Max(interval, 4 * rttVal)
  {
    var q := Multiple(4 * rttVal);
    Residue(I32(4 * rttVal), -q, 4 * rttVal);
  }

  // ---- the samples of a run ----

  /** Samples that keep every sum within an int. */
  const CALM: int := HALF / 8

  predicate AllCalm(ages: seq<nat>) { forall i | 0 <= i < |ages| :: ages[i] < CALM }

  predicate CalmTimes(r: Rtt) { 0 <= r.srtt < CALM && 0 <= r.rttVal < CALM }

  lemma CalmStep(cf: Conf, r: Rtt, age: nat)
    requires CalmTimes(r) && age < CALM && cf.interval <= 5000
    ensures UpdateRtt(cf, r, age) == Smoothed(cf, r, age) && CalmTimes(Smoothed(cf, r, age))
  {
    TimesWrap(cf, r, age);
    SmoothedMoves(cf, r, age);
    RttBounds(cf, r, age);
  }

  /** Smoothing one sample after the other. */
  function Fold(step: (Rtt, nat) -> Rtt, r: Rtt, ages: seq<nat>): Rtt
    decreases |ages|
  {
    if ages == [] then r else Fold(step, step(r, ages[0]), ages[1..])
  }

  function Wrapping(cf: Conf): (Rtt, nat) -> Rtt { (r: Rtt, age: nat) => UpdateRtt(cf, r, age) }

  function Exactly(cf: Conf): (Rtt, nat) -> Rtt { (r: Rtt, age: nat) => Smoothed(cf, r, age) }

  lemma {:induction false} FoldAppend(step: (Rtt, nat) -> Rtt, r: Rtt, a: seq<nat>, b: seq<nat>)
    ensures Fold(step, r, a + b) == Fold(step, Fold(step, r, a), b)
    decreases |a|
  {
    if a == [] {
      assert a + b == b;
    } else {
      assert (a + b)[1..] == a[1..] + b;
      FoldAppend(step, step(r, a[0]), a[1..], b);
    }
  }

  lemma {:induction false} FoldCalm(cf: Conf, r: Rtt, ages: seq<nat>)
    requires CalmTimes(r) && AllCalm(ages) && cf.interval <= 5000
    ensures Fold(Wrapping(cf), r, ages) == Fold(Exactly(cf), r, ages)
    decreases |ages|
  {
    if ages != [] {
      CalmStep(cf, r, ages[0]);
      FoldCalm(cf, Smoothed(cf, r, ages[0]), ages[1..]);
    }
  }

  /** The samples that a datagram holds: the ages of what it acknowledges. */
  function Samples(conv: nat, now: nat, d: seq<Byte>): seq<nat>
    decreases |d|
  {
    match ParseOne(conv, d)
    case Got(w, rest) => SampleOf(now, w) + Samples(conv, now, rest)
    case _ => []
  }

  function SampleOf(now: nat, w: Wire): seq<nat> {
    var age := TimeDiff(now, w.ts);
    if w.cmd == CMD_ACK && age >= 0 then [age] else []
  }

  lemma SegFolds(k: Kcb, w: Wire)
    ensures var k' := InputSeg(WRAP, k, w);
            && k'.cf == k.cf && k'.clk == k.clk
            && k'.rtt == Fold(Wrapping(k.cf), k.rtt, SampleOf(k.clk.current, w))
  {
  }

  lemma {:induction false} InputFolds(k: Kcb, m: MaxAck, prevUna: int, cmd: int, d: seq<Byte>)
    ensures InputBytesFrom(WRAP, k, m, prevUna, cmd, d).1.rtt
            == Fold(Wrapping(k.cf), k.rtt, Samples(k.cf.conv, k.clk.current, d))
    decreases |d|
  {
    var p := ParseOne(k.cf.conv, d);
    if p.Got? {
      var k1 := InputSeg(WRAP, k, p.w);
      SegFolds(k, p.w);
      InputFolds(k1, NoteSeg(WRAP, m, p.w), prevUna, p.w.cmd, p.rest);
      FoldAppend(Wrapping(k.cf), k.rtt, SampleOf(k.clk.current, p.w), Samples(k.cf.conv, k.clk.current, p.rest));
    }
  }

  /** The samples that a call takes. */
  function CallSamples(k: Kcb, c: Call): seq<nat> {
    if c.CallInput? && |c.d| >= OVERHEAD then Samples(k.cf.conv, k.clk.current, c.d) else []
  }

  function RunSamples(cf: Conf, cs: seq<Call>): seq<nat> {
    if cs == [] then []
    else RunSamples(cf, cs[..|cs| - 1]) + CallSamples(DoAll(cf, cs[..|cs| - 1]), cs[|cs| - 1])
  }

  lemma DoFolds(k: Kcb, c: Call)
    ensures Do(k, c).rtt == Fold(Wrapping(k.cf), k.rtt, CallSamples(k, c))
  {
    match c
    case CallSend(_) =>
    case CallRecv(_) =>
    case CallInput(d) => InputFolds(k, NoAck, k.snd.una, 0, d);
    case CallFlush => FlushKeepsTicks(k);
    case CallUpdate(now) => FlushKeepsTicks(k.(clk := Tick(k.clk, k.cf.interval, U32(now)).0));
  }

  lemma {:induction false} RunFolds(cf: Conf, cs: seq<Call>)
    ensures DoAll(cf, cs).cf == cf
    ensures DoAll(cf, cs).rtt == Fold(Wrapping(cf), Create(cf).rtt, RunSamples(cf, cs))
    decreases |cs|
  {
    if cs != [] {
      var front, c := cs[..|cs| - 1], cs[|cs| - 1];
      RunFolds(cf, front);
      DoTicks(DoAll(cf, front), c);
      DoFolds(DoAll(cf, front), c);
      FoldAppend(Wrapping(cf), Create(cf).rtt, RunSamples(cf, front), CallSamples(DoAll(cf, front), c));
    }
  }

  /** In every run whose samples are below 2^28 ms no sum overflows: the times are
      those of smoothing on unbounded integers. */
  lemma RttInRun(cf: Conf, cs: seq<Call>)
    requires AllCalm(RunSamples(cf, cs))
    ensures DoAll(cf, cs).rtt == Fold(Exactly(cf), Create(cf).rtt, RunSamples(cf, cs))
  {
    RunFolds(cf, cs);
    FoldCalm(cf, Create(cf).rtt, RunSamples(cf, cs));
  }

  lemma FirstSample(cf: Conf, r: Rtt, age: nat)
    requires r.srtt == 0 && age < HALF
    ensures UpdateRtt(cf, r, age).srtt == age && Smoothed(cf, r, age).srtt == age && TimesOk(UpdateRtt(cf, r, age))
  {
  }

  lemma SecondSample(cf: Conf, a: Rtt, b: Rtt, age: nat)
    requires TimesOk(a) && a.srtt == age && b.srtt == age && 0 < age < HALF
    ensures UpdateRtt(cf, a, age).srtt == Smoothed(cf, b, age).srtt <==> age < CALM
  {
    TimesWrap(cf, a, age);
    assert Smoothed(cf, a, age).srtt == Smoothed(cf, b, age).srtt;
  }

  /** The bound cannot be raised: two equal samples keep their time if and only
      if they are below it. */
  lemma CalmIsNeeded(cf: Conf, age: nat)
    requires 0 < age < HALF
    ensures var twice := [age, age];
            Fold(Wrapping(cf), Create(cf).rtt, twice).srtt == Fold(Exactly(cf), Create(cf).rtt, twice).srtt
            <==> age < CALM
  {
    var r := Create(cf).rtt;
    FirstSample(cf, r, age);
    SecondSample(cf, UpdateRtt(cf, r, age), Smoothed(cf, r, age), age);
    FoldTwice(Wrapping(cf), Create(cf).rtt, age);
    FoldTwice(Exactly(cf), Create(cf).rtt, age);
  }

  lemma FoldTwice(step: (Rtt, nat) -> Rtt, r: Rtt, age: nat)
    ensures Fold(step, r, [age, age]) == step(step(r, age), age)
  {
    assert [age, age][1..] == [age] && [age][1..] == [];
    assert Fold(step, step(r, age), [age]) == step(step(r, age), age);
  }

  /** A retransmission timeout is the initial one or within its bounds, and the
      times that it comes from fit an int. */
  predicate RtoOk(cf: Conf, r: Rtt) { (r.rto == RTO_DEF || cf.minRto <= r.rto <= RTO_MAX) && TimesOk(r) }

  predicate ProbeOk(c: Clock) { c.probeWait == 0 || PROBE_INIT <= c.probeWait <= PROBE_LIMIT }

  /** A probe is asked for exactly when the peer's window is closed, a wait has
      been set and it is over. The waits grow by half up to their limit, and the
      next probe is one wait ahead. */
  lemma ProbeTimerOk(c: Clock, rmtWnd: nat)
    requires ProbeOk(c)
    ensures var (c', ask) := ProbeTimer(c, rmtWnd);
            && ProbeOk(c')
            && (ask <==> rmtWnd == 0 && c.probeWait > 0 && TimeDiff(c.current, c.tsProbe) >= 0)
            && (ask ==> c.probeWait <= c'.probeWait == Min(c.probeWait + c.probeWait / 2, PROBE_LIMIT))
            && (c'.probeWait > 0 && (ask || c.probeWait == 0) ==>
                  c'.tsProbe == U32(c.current + c'.probeWait))
            && (c'.probeWait == 0 <==> rmtWnd != 0)
  {
  }

  lemma SegKeepsRto(k: Kcb, w: Wire)
    requires RtoOk(k.cf, k.rtt)
    ensures RtoOk(k.cf, InputSeg(WRAP, k, w).rtt) && InputSeg(WRAP, k, w).cf == k.cf
  {
    var age := TimeDiff(k.clk.current, w.ts);
    if age >= 0 {
      RttBounds(k.cf, k.rtt, age);
      TimesWrap(k.cf, k.rtt, age);
    }
  }

  lemma {:induction false} InputKeepsRto(k: Kcb, m: MaxAck, prevUna: int, cmd: int, d: seq<Byte>)
    requires RtoOk(k.cf, k.rtt)
    ensures RtoOk(k.cf, InputBytesFrom(WRAP, k, m, prevUna, cmd, d).1.rtt)
    decreases |d|
  {
    var p := ParseOne(k.cf.conv, d);
    if p.Got? {
      SegKeepsRto(k, p.w);
      InputKeepsRto(InputSeg(WRAP, k, p.w), NoteSeg(WRAP, m, p.w), prevUna, p.w.cmd, p.rest);
    }
  }

  lemma DoTimed(k: Kcb, c: Call)
    requires RtoOk(k.cf, k.rtt) && ProbeOk(k.clk)
    ensures RtoOk(k.cf, Do(k, c).rtt) && ProbeOk(Do(k, c).clk)
  {
    match c
    case CallSend(_) =>
    case CallRecv(_) =>
    case CallInput(d) =>
      InputKeepsRto(k, NoAck, k.snd.una, 0, d);
      InputKeepsClock(k, NoAck, k.snd.una, 0, d);
    case CallFlush => FlushTimed(k);
    case CallUpdate(now) => FlushTimed(k.(clk := Tick(k.clk, k.cf.interval, U32(now)).0));
  }

  lemma FlushTimed(k: Kcb)
    requires RtoOk(k.cf, k.rtt) && ProbeOk(k.clk)
    ensures var k' := FlushState(WRAP, k); RtoOk(k.cf, k'.rtt) && ProbeOk(k'.clk)
  {
    FlushKeepsTicks(k);
    ProbeTimerOk(k.clk, k.cong.rmtWnd);
  }

  /** In every run, whatever arrives, the timeout and the probe's wait are in
      their ranges. */
  lemma {:induction false} AlwaysTimed(cf: Conf, cs: seq<Call>)
    ensures var k := DoAll(cf, cs); k.cf == cf && RtoOk(cf, k.rtt) && ProbeOk(k.clk)
    decreases |cs|
  {
    if cs != [] {
      AlwaysTimed(cf, cs[..|cs| - 1]);
      DoTicks(DoAll(cf, cs[..|cs| - 1]), cs[|cs| - 1]);
      DoTimed(DoAll(cf, cs[..|cs| - 1]), cs[|cs| - 1]);
    }
  }
}
