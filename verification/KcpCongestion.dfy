// The congestion window of ikcp_input and ikcp_flush. `incr` counts bytes and
// `cwnd` segments; they stay within one segment of each other in every run.
module KcpCongestion {
  import opened Circular
  import opened KcpModel
  import opened KcpWindow
  import opened KcpWire
  import opened KcpEndpoint

  /** The largest window a run can reach with these settings. */
  function Top(cf: Conf): int {
    Max(MAX_FLIGHT, MAX_FLIGHT / 2 + cf.fastResend)
  }

  /** No product of a window and the segment size wraps around. At the default
      MTU this is every fast resend threshold up to 65535, or none. */
  predicate Roomy(cf: Conf) {
    (Top(cf) + 2) * Mss(cf) < M32
  }

  lemma DefaultIsRoomy(cf: Conf)
    requires cf.mtu == MTU_DEF && cf.fastResend <= 65535
    ensures Roomy(cf)
  {
  }

  /** `incr` is within one segment of `cwnd` segments. */
  predicate Balanced(c: Cong, mss: nat) {
    c.cwnd * mss - mss < c.incr < c.cwnd * mss + mss
  }

  ghost predicate CongOk(cf: Conf, c: Cong) {
    Balanced(c, Mss(cf)) && c.ssthresh >= THRESH_MIN && c.cwnd <= Top(cf) && c.rmtWnd <= MAX_FLIGHT
  }

  // ---- nonlinear facts ----

  lemma MulMono(a: int, b: int, c: nat)
    requires a <= b
    ensures a * c <= b * c
  {
  }

  lemma MulLess(a: int, b: int, c: nat)
    requires a * c < b * c
    ensures a < b
  {
    if a >= b {
      MulMono(b, a, c);
    }
  }

  lemma MulAdd(a: int, b: int, c: int)
    ensures (a + b) * c == a * c + b * c
  {
  }

  lemma QuotBounds(a: nat, b: nat)
    requires 0 < b
    ensures Quot(a, b) * b <= a < Quot(a, b) * b + b
  {
    assert a == a / b * b + a % b;
  }

  lemma QuotAtMost(a: nat, b: nat, c: nat)
    requires 0 < b && a <= c * b
    ensures Quot(a, b) <= c
  {
    QuotBounds(a, b);
    MulAdd(c, 1, b);
    MulLess(Quot(a, b), c + 1, b);
  }

  // ---- growth ----

  /** What one additive increase adds to `incr`; `p` is cwnd segments. */
  lemma CreepStep(p: nat, base: nat, mss: nat)
    requires 26 <= mss && 2 * mss <= p && p - mss < base < p + mss
    ensures base + Quot(mss * mss, base) + mss / 16 <= p + 2 * mss
  {
    if base >= 2 * mss {
      var h := mss / 2 + 1;
      MulMono(2 * mss, base, h);
      MulMono(mss, h * 2, mss);
      assert h * (2 * mss) == h * 2 * mss;
      assert base * h == h * base && 2 * mss * h == h * (2 * mss);
      QuotAtMost(mss * mss, base, h);
    } else {
      MulMono(mss, base, mss);
      QuotAtMost(mss * mss, base, mss);
    }
  }

  /** Without wrap-around, Creep is the arithmetic it looks like. */
  lemma CreepPlain(c: Cong, mss: nat)
    requires 0 < mss <= c.incr && mss * mss < M32 && c.cwnd + 1 < M32 && (c.cwnd + 1) * mss < M32
    requires c.incr + Quot(mss * mss, c.incr) + mss / 16 + mss - 1 < M32
    ensures var incr := c.incr + Quot(mss * mss, c.incr) + mss / 16;
            Creep(c, mss) == c.(incr := incr,
              cwnd := if (c.cwnd + 1) * mss <= incr then Quot(incr + mss - 1, mss) else c.cwnd)
  {
  }

  lemma CeilStep(cwnd: nat, incr: nat, mss: nat)
    requires 0 < mss && (cwnd + 1) * mss <= incr <= (cwnd + 2) * mss
    ensures var c := Quot(incr + mss - 1, mss); c * mss - mss < incr <= c * mss && cwnd < c <= cwnd + 2
  {
    var c := Quot(incr + mss - 1, mss);
    QuotBounds(incr + mss - 1, mss);
    MulAdd(cwnd + 2, 1, mss);
    MulLess(c, cwnd + 3, mss);
    if c <= cwnd {
      MulMono(c, cwnd, mss);
      MulAdd(cwnd, 1, mss);
    }
  }

  lemma CreepOk(cf: Conf, c: Cong)
    requires Roomy(cf) && CongOk(cf, c) && c.ssthresh <= c.cwnd < c.rmtWnd
    ensures var c' := Creep(c, Mss(cf));
            && Balanced(c', Mss(cf)) && c.cwnd <= c'.cwnd <= c.cwnd + 2
            && c'.rmtWnd == c.rmtWnd && c'.ssthresh == c.ssthresh
  {
    var mss := Mss(cf);
    MulMono(2, c.cwnd, mss);
    CreepStep(c.cwnd * mss, c.incr, mss);
    MulAdd(c.cwnd, 1, mss);
    MulAdd(c.cwnd, 2, mss);
    MulAdd(c.cwnd, 3, mss);
    MulMono(c.cwnd + 3, Top(cf) + 2, mss);
    MulMono(65537, Top(cf) + 2, mss);
    MulMono(mss, 65537, mss);
    CreepPlain(c, mss);
    var incr := c.incr + Quot(mss * mss, c.incr) + mss / 16;
    if (c.cwnd + 1) * mss <= incr {
      CeilStep(c.cwnd, incr, mss);
    }
  }

  lemma SlowStart(cf: Conf, c: Cong)
    requires Roomy(cf) && CongOk(cf, c) && c.cwnd < c.rmtWnd
    ensures U32(c.cwnd + 1) == c.cwnd + 1 && U32(c.incr + Mss(cf)) == c.incr + Mss(cf)
    ensures Balanced(c.(cwnd := c.cwnd + 1, incr := c.incr + Mss(cf)), Mss(cf))
  {
    var mss := Mss(cf);
    MulAdd(c.cwnd, 1, mss);
    MulAdd(c.cwnd, 2, mss);
    MulMono(c.cwnd + 2, Top(cf) + 2, mss);
  }

  /** A window of `n` whole segments is balanced. */
  lemma WholeSegments(cf: Conf, n: nat)
    requires Roomy(cf) && n <= Top(cf)
    ensures U32(n * Mss(cf)) == n * Mss(cf)
  {
    var x := n * Mss(cf);
    assert 0 <= x < M32 by {
      MulMono(n, Top(cf) + 2, Mss(cf));
    }
  }

  /** One ikcp_input raises cwnd by at most 2, and only up to the peer's window. */
  lemma GrowOk(cf: Conf, c: Cong)
    requires Roomy(cf) && CongOk(cf, c)
    ensures var c' := Grow(c, Mss(cf));
            && CongOk(cf, c') && c.cwnd <= c'.cwnd <= c.cwnd + 2
            && (c'.cwnd > c.cwnd ==> c'.cwnd <= c.rmtWnd)
  {
    if c.cwnd < c.rmtWnd {
      if c.cwnd < c.ssthresh {
        SlowStart(cf, c);
      } else {
        CreepOk(cf, c);
      }
      WholeSegments(cf, c.rmtWnd);
    }
  }

  // ---- reduction ----

  lemma FlushCongOk(k: Kcb, wnd: nat, change: bool, lost: bool)
    requires Roomy(k.cf) && CongOk(k.cf, k.cong) && U32(k.snd.nxt - k.snd.una) <= MAX_FLIGHT
    ensures CongOk(k.cf, FlushCong(k, wnd, change, lost)) && FlushCong(k, wnd, change, lost).cwnd >= 1
  {
    var th := Max(U32(k.snd.nxt - k.snd.una) / 2, THRESH_MIN);
    ResentBound(k.cf, th);
    WholeSegments(k.cf, U32(th + Resent(k.cf)));
  }

  /** Without a fast resend threshold the sum wraps around to th - 1. */
  lemma ResentBound(cf: Conf, th: nat)
    requires THRESH_MIN <= th <= MAX_FLIGHT / 2
    ensures 1 <= U32(th + Resent(cf)) <= Top(cf)
  {
    if cf.fastResend <= 0 {
      Residue(th + Resent(cf), 1, th - 1);
    }
  }

  // ---- every run ----

  lemma InputSegCong(k: Kcb, w: Wire)
    requires CongOk(k.cf, k.cong) && WireOk(w)
    ensures CongOk(k.cf, InputSeg(WRAP, k, w).cong) && InputSeg(WRAP, k, w).cong == k.cong.(rmtWnd := w.wnd)
  {
  }

  /** One ikcp_input, whatever the bytes. */
  lemma {:induction false} InputBytesCong(k: Kcb, m: MaxAck, prevUna: int, cmd: int, d: seq<Byte>)
    requires Roomy(k.cf) && CongOk(k.cf, k.cong)
    ensures var k' := InputBytesFrom(WRAP, k, m, prevUna, cmd, d).1;
            && k'.cf == k.cf && CongOk(k.cf, k'.cong) && k.cong.cwnd <= k'.cong.cwnd <= k.cong.cwnd + 2
            && (k'.cong.cwnd > k.cong.cwnd ==> k'.cong.cwnd <= k'.cong.rmtWnd)
    decreases |d|
  {
    match ParseOne(k.cf.conv, d)
    case Stop => GrowOk(k.cf, k.cong);
    case Fail(_) =>
    case Got(w, rest) =>
      InputSegCong(k, w);
      InputBytesCong(InputSeg(WRAP, k, w), NoteSeg(WRAP, m, w), prevUna, w.cmd, rest);
  }

  lemma FlushFillCong(k: Kcb)
    requires SndWindow(WRAP, k.snd) && k.cong.rmtWnd <= MAX_FLIGHT
    ensures var k1 := FlushFill(WRAP, k);
            k1.cf == k.cf && k1.cong == k.cong && U32(k1.snd.nxt - k1.snd.una) <= MAX_FLIGHT
  {
    WrapLawful();
    var (clk, _) := ProbeTimer(k.clk, k.cong.rmtWnd);
    var k0 := k.(clk := clk, rcv := k.rcv.(acks := []), askSend := false, askTell := false);
    FillWindow(WRAP, k0, SendWindow(k.cf, k.cong));
    FlightCount(FlushFill(WRAP, k).snd);
  }

  lemma FlightCount(s: Sender)
    requires SndWindow(WRAP, s)
    ensures U32(s.nxt - s.una) <= MAX_FLIGHT
  {
    assert U32(s.nxt - s.una) == Off(WRAP, s.nxt, s.una);
  }

  lemma FlushStateCong(k: Kcb)
    requires Roomy(k.cf) && CongOk(k.cf, k.cong) && SndWindow(WRAP, k.snd)
    ensures FlushState(WRAP, k).cf == k.cf && CongOk(k.cf, FlushState(WRAP, k).cong)
  {
    if k.clk.updated {
      var k1 := FlushFill(WRAP, k);
      FlushFillCong(k);
      FlushCongOk(k1, SendWindow(k.cf, k.cong),
                  CountJudged(k1, k1.snd.buf, Fast) > 0, CountJudged(k1, k1.snd.buf, Timeout) > 0);
    }
  }

  lemma DoCong(k: Kcb, c: Call)
    requires Sound(k) && Roomy(k.cf) && CongOk(k.cf, k.cong)
    ensures Do(k, c).cf == k.cf && CongOk(k.cf, Do(k, c).cong)
  {
    match c
    case CallSend(_) =>
    case CallRecv(_) =>
    case CallInput(d) => InputBytesCong(k, NoAck, k.snd.una, 0, d);
    case CallFlush => FlushStateCong(k);
    case CallUpdate(now) => FlushStateCong(k.(clk := Tick(k.clk, k.cf.interval, U32(now)).0));
  }

  /** In every run, whatever bytes arrive, `incr` is within one segment of
      cwnd segments and ssthresh is at least 2. */
  lemma {:induction false} AlwaysBalanced(cf: Conf, cs: seq<Call>)
    requires Roomy(cf)
    ensures var k := DoAll(cf, cs);
            && k.cf == cf && CongOk(cf, k.cong)
            && (k.cong.cwnd - 1) * Mss(cf) < k.cong.incr < (k.cong.cwnd + 1) * Mss(cf)
            && k.cong.ssthresh >= 2
  {
    var k := DoAll(cf, cs);
    if cs != [] {
      AlwaysBalanced(cf, cs[..|cs| - 1]);
      AlwaysSound(cf, cs[..|cs| - 1]);
      DoCong(DoAll(cf, cs[..|cs| - 1]), cs[|cs| - 1]);
    }
    CongBounds(cf, k.cong);
  }

  lemma CongBounds(cf: Conf, c: Cong)
    requires Roomy(cf) && CongOk(cf, c)
    ensures (c.cwnd - 1) * Mss(cf) < c.incr < (c.cwnd + 1) * Mss(cf) && c.ssthresh >= 2
  {
    MulAdd(c.cwnd, 1, Mss(cf));
    MulAdd(c.cwnd, -1, Mss(cf));
  }
}
