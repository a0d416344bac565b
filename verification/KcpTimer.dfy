// The flush timer: ikcp_update and ikcp_check, across 32-bit clock wrap-around.
module KcpTimer {
  import opened Circular
  import opened KcpModel

  /** The signed residue of a number that is `e` plus a multiple of 2^32. */
  lemma SignedResidue(x: int, q: int, e: int)
    requires x == q * M32 + e && -HALF <= e < HALF
    ensures I32(x) == e
  {
    if e >= 0 {
      Residue(x, q, e);
    } else {
      Residue(x, q - 1, e + M32);
    }
  }

  lemma Multiple(x: int) returns (q: int)
    ensures x == q * M32 + I32(x)
  {
    q := if U32(x) < HALF then x / M32 else x / M32 + 1;
  }

  /** A clock reading `d` milliseconds after `now`. */
  lemma DiffAfter(now: int, d: int, ts: int)
    requires -HALF <= TimeDiff(now, ts) + d < HALF
    ensures TimeDiff(U32(now + d), ts) == TimeDiff(now, ts) + d
  {
    DiffExact(now + d, ts);
    var q := Multiple(now - ts);
    SignedResidue(now + d - ts, q, TimeDiff(now, ts) + d);
  }

  lemma DiffSwap(a: int, b: int)
    requires -HALF < TimeDiff(a, b)
    ensures TimeDiff(b, a) == -TimeDiff(a, b)
  {
    var q := Multiple(a - b);
    SignedResidue(b - a, -q, -TimeDiff(a, b));
  }

  /** Updates before the next flush do nothing. */
  lemma QuietUpdate(k: Kcb, now: nat)
    requires k.clk.updated && -10000 <= TimeDiff(now, k.clk.tsFlush) < 0
    ensures UpdateState(WRAP, k, now) == k.(clk := k.clk.(current := now))
    ensures UpdateWires(WRAP, k, now) == []
  {
  }

  /** The time returned is no later than the next flush. */
  lemma CheckBefore(k: Kcb, now: nat, e: int)
    requires k.clk.updated && now < M32 && e == TimeDiff(now, k.clk.tsFlush)
    ensures 0 < U32(Check(k, now) - now) ==> -10000 <= e < 0 && U32(Check(k, now) - now) <= -e
  {
    var n: int := now;
    if -10000 <= e < 0 && NextResend(k.snd.buf, now) > 0 {
      DiffSwap(now, k.clk.tsFlush);
      var m := Min(Min(NextResend(k.snd.buf, now), -e), k.cf.interval);
      U32Add(n + m, -n);
    }
  }

  /** ikcp_check is a sound shortcut for polling: at any time from `now` until
      just before the time it returns, ikcp_update sends nothing and changes
      nothing but the current time. */
  lemma CheckSound(k: Kcb, now: nat, d: nat)
    requires k.clk.updated && now < M32
    requires d < U32(Check(k, now) - now)
    ensures UpdateState(WRAP, k, U32(now + d)) == k.(clk := k.clk.(current := U32(now + d)))
    ensures UpdateWires(WRAP, k, U32(now + d)) == []
  {
    CheckBefore(k, now, TimeDiff(now, k.clk.tsFlush));
    DiffAfter(now, d, k.clk.tsFlush);
    QuietUpdate(k, U32(now + d));
  }

  /** ... and when no retransmission is due earlier, it returns the very time of
      the next flush. */
  lemma CheckTight(k: Kcb, now: nat)
    requires k.clk.updated && now < M32
    requires TimeDiff(now, k.clk.tsFlush) < 0 <= TimeDiff(now, k.clk.tsFlush) + k.cf.interval
    requires NextResend(k.snd.buf, now) >= TimeDiff(k.clk.tsFlush, now)
    ensures Tick(k.clk, k.cf.interval, Check(k, now)).1
  {
    var e := TimeDiff(now, k.clk.tsFlush);
    DiffSwap(now, k.clk.tsFlush);
    DiffAfter(now, -e, k.clk.tsFlush);
  }

  // ---- how long the wait is ----

  /** A segment's deadline has come. */
  predicate SomeOverdue(buf: seq<SndSeg>, now: nat) {
    exists i :: 0 <= i < |buf| && TimeDiff(buf[i].resendTs, now) <= 0
  }

  /** `w` is no longer than the time to any deadline, to the flush at `flush` and the
      interval, and as long as one of them. */
  predicate LeastWait(buf: seq<SndSeg>, now: nat, flush: int, interval: nat, w: int) {
    && w <= flush && w <= interval && (forall i :: 0 <= i < |buf| ==> w <= TimeDiff(buf[i].resendTs, now))
    && (w == flush || w == interval || exists i :: 0 <= i < |buf| && w == TimeDiff(buf[i].resendTs, now))
  }

  /** The earliest deadline, if there is any. */
  predicate Earliest(buf: seq<SndSeg>, now: nat, t: int) {
    && (forall i :: 0 <= i < |buf| ==> t <= TimeDiff(buf[i].resendTs, now))
    && (t == HALF - 1 || exists i :: 0 <= i < |buf| && t == TimeDiff(buf[i].resendTs, now))
  }

  lemma {:induction false} NextIsEarliest(buf: seq<SndSeg>, now: nat)
    ensures Earliest(buf, now, NextResend(buf, now))
    decreases |buf|
  {
    if buf != [] {
      var n := |buf| - 1;
      NextIsEarliest(buf[..n], now);
      assert forall i | 0 <= i < n :: buf[..n][i] == buf[i];
    }
  }

  /** ikcp_check waits not at all if a flush or a segment is due, and otherwise for
      whatever comes first: the flush, a segment's deadline or the interval. */
  lemma CheckExactly(k: Kcb, now: nat)
    requires now < M32
    ensures var w, e := U32(Check(k, now) - now), TimeDiff(now, k.clk.tsFlush);
            if !k.clk.updated || e >= 0 || e < -10000 || SomeOverdue(k.snd.buf, now) then w == 0
            else LeastWait(k.snd.buf, now, -e, k.cf.interval, w)
  {
    var e, start: int := TimeDiff(now, k.clk.tsFlush), now;
    NextIsEarliest(k.snd.buf, now);
    if -10000 <= e < 0 {
      DiffSwap(now, k.clk.tsFlush);
      var m := Min(Min(NextResend(k.snd.buf, now), -e), k.cf.interval);
      U32Add(now + m, -start);
    }
  }

  // ---- the rate of flushes ----

  /** Updates at the given times: the clock after them, and the times at which
      they flushed. */
  function Play(clk: Clock, interval: nat, ts: seq<int>): (Clock, seq<int>) {
    if ts == [] then (clk, [])
    else
      var (c, fired) := Play(clk, interval, ts[..|ts| - 1]);
      var t := ts[|ts| - 1];
      var (c', flush) := Tick(c, interval, U32(t));
      (c', if flush then fired + [t] else fired)
  }

  /** Times of a clock that does not run backwards and is read at least every 2^31 ms. */
  predicate Steady(ts: seq<int>) {
    forall i :: 0 < i < |ts| ==> 0 <= ts[i] - ts[i - 1] < HALF
  }

  /** One update, on unbounded times: `due` is the next flush. */
  lemma TickStep(c: Clock, interval: nat, due: int, prev: int, t: int) returns (due': int)
    requires 0 < interval <= 5000 && c.updated && c.tsFlush == U32(due)
    requires prev < due <= prev + interval && 0 <= t - prev < HALF
    ensures var (c', flush) := Tick(c, interval, U32(t));
            && c'.updated && c'.current == U32(t) && c'.tsFlush == U32(due') && t < due' <= t + interval
            && (flush <==> t >= due) && due' >= (if flush then due + interval else due)
  {
    SameDiff(t, due);
    if t < due {
      due' := due;
    } else {
      var tf := if t - due >= 10000 then t else due;
      due' := if t >= tf + interval then t + interval else tf + interval;
      TickLate(c, interval, t, tf, U32(tf));
    }
  }

  /** A flush at time `t`; `tf` is the flush time that the next one follows. */
  lemma TickLate(c: Clock, interval: nat, t: int, tf: int, tf1: nat)
    requires 0 < interval <= 5000 && c.updated && 0 <= t - tf < 10000 && tf1 == U32(tf)
    requires var slap := TimeDiff(U32(t), c.tsFlush);
             slap >= 0 && tf1 == if slap >= 10000 then U32(t) else c.tsFlush
    ensures Tick(c, interval, U32(t))
            == (c.(current := U32(t), updated := true,
                tsFlush := U32(if t >= tf + interval then t + interval else tf + interval)), true)
  {
    U32Add(t, interval);
    Overdue(interval, t, tf);
  }

  lemma Overdue(interval: nat, t: int, tf: int)
    requires interval <= 5000 && 0 <= t - tf < 10000
    ensures TimeDiff(U32(t), U32(U32(tf) + interval)) == t - (tf + interval)
    ensures U32(U32(tf) + interval) == U32(tf + interval)
  {
    U32Add(tf, interval);
    SameDiff(t, tf + interval);
  }

  lemma SameDiff(a: int, b: int)
    requires -HALF <= a - b < HALF
    ensures TimeDiff(U32(a), U32(b)) == a - b
  {
    DiffExact(a, b);
    DiffExact(U32(a), b);
  }

  lemma TickFirst(c: Clock, interval: nat, t: int)
    requires 0 < interval <= 5000 && !c.updated
    ensures var (c', flush) := Tick(c, interval, U32(t));
            c'.updated && flush && c'.tsFlush == U32(t + interval)
  {
    U32Add(t, interval);
    DiffExact(U32(t), U32(t) + interval);
    DiffExact(U32(t), U32(t) + interval);
    assert TimeDiff(U32(t), U32(U32(t) + interval)) == TimeDiff(U32(t), U32(t) + interval);
  }

  /** The flushes so far came no faster than one per interval, nor can the next. */
  predicate Paced(fired: seq<int>, due: int, interval: nat) {
    && fired != [] && due >= fired[0] + |fired| * interval
    && forall n :: 0 <= n < |fired| ==> fired[n] >= fired[0] + n * interval
  }

  lemma PacedStep(fired: seq<int>, due: int, interval: nat, t: int, due': int)
    requires Paced(fired, due, interval) && t >= due && due' >= due + interval
    ensures Paced(fired + [t], due', interval)
  {
    assert (|fired| + 1) * interval == |fired| * interval + interval;
  }

  lemma PlayFirst(clk: Clock, interval: nat, ts: seq<int>) returns (due: int)
    requires 0 < interval <= 5000 && !clk.updated && |ts| == 1
    ensures var (c, fired) := Play(clk, interval, ts);
            && c.updated && c.current == U32(ts[0]) && c.tsFlush == U32(due) && due == ts[0] + interval
            && Paced(fired, due, interval)
  {
    assert ts[..0] == [];
    TickFirst(clk, interval, ts[0]);
    due := ts[0] + interval;
    assert Paced([ts[0]], due, interval);
  }

  lemma {:induction false} PlayInv(clk: Clock, interval: nat, ts: seq<int>) returns (due: int)
    requires 0 < interval <= 5000 && !clk.updated && Steady(ts) && ts != []
    ensures var (c, fired) := Play(clk, interval, ts);
            var t := ts[|ts| - 1];
            && c.updated && c.current == U32(t) && c.tsFlush == U32(due) && t < due <= t + interval
            && Paced(fired, due, interval)
  {
    var k := |ts| - 1;
    var t := ts[k];
    if k == 0 {
      due := PlayFirst(clk, interval, ts);
    } else {
      var d := PlayInv(clk, interval, ts[..k]);
      var (c, fired) := Play(clk, interval, ts[..k]);
      due := TickStep(c, interval, d, ts[k - 1], t);
      if t >= d {
        PacedStep(fired, d, interval, t, due);
      }
    }
  }

  /** After each update the next flush lies in (current, current + interval],
      and the n-th flush is no earlier than n intervals after the first. */
  lemma FlushRate(cf: Conf, ts: seq<int>)
    requires Steady(ts) && ts != []
    ensures var (c, fired) := Play(Create(cf).clk, cf.interval, ts);
            && 0 < TimeDiff(c.tsFlush, c.current) <= cf.interval
            && forall n :: 0 <= n < |fired| ==> fired[n] >= fired[0] + n * cf.interval
  {
    var due := PlayInv(Create(cf).clk, cf.interval, ts);
    DiffExact(due, ts[|ts| - 1]);
    DiffExact(U32(due), ts[|ts| - 1]);
  }
}
