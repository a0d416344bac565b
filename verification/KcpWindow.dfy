// The shape of the send and receive windows: it is kept by every operation,
// whatever the numbers an arriving segment carries, for wrapping and for
// unbounded sequence numbers alike.
module KcpWindow {
  import opened Circular
  import opened KcpModel

  const MAX_FLIGHT := 65535

  // ---- the send window ----

  /** snd_buf is strictly increasing in [base, nxt). */
  ghost predicate SndShape(ar: Arith, base: int, s: Sender) {
    && SnOk(ar, s.nxt) && 0 <= Off(ar, s.nxt, base) <= MAX_FLIGHT
    && (forall i :: 0 <= i < |s.buf| ==>
          SnOk(ar, s.buf[i].wire.sn) && 0 <= Off(ar, s.buf[i].wire.sn, base) < Off(ar, s.nxt, base))
    && (forall i, j :: 0 <= i < j < |s.buf| ==>
          Off(ar, s.buf[i].wire.sn, base) < Off(ar, s.buf[j].wire.sn, base))
  }

  /** ... and snd_una is its first number, or snd_nxt when it is empty. */
  ghost predicate SndWindow(ar: Arith, s: Sender) {
    && SnOk(ar, s.una)
    && SndShape(ar, s.una, s)
    && s.una == (if s.buf == [] then s.nxt else s.buf[0].wire.sn)
  }

  /** `t` keeps some of the segments of `s`, in order. */
  ghost predicate SubBuf(t: seq<SndSeg>, s: seq<SndSeg>) {
    exists f: seq<int> :: |f| == |t| && Embeds(f, t, s)
  }

  ghost predicate Embeds(f: seq<int>, t: seq<SndSeg>, s: seq<SndSeg>)
    requires |f| == |t|
  {
    && (forall i :: 0 <= i < |f| ==> 0 <= f[i] < |s| && t[i] == s[f[i]])
    && (forall i, j :: 0 <= i < j < |f| ==> f[i] < f[j])
  }

  lemma SubShape(ar: Arith, base: int, s: Sender, t: seq<SndSeg>)
    requires Lawful(ar) && SndShape(ar, base, s) && SubBuf(t, s.buf)
    ensures SndShape(ar, base, s.(buf := t))
  {
    var f: seq<int> :| |f| == |t| && Embeds(f, t, s.buf);
  }

  lemma ShrinkWindow(ar: Arith, base: int, s: Sender)
    requires Lawful(ar) && SndShape(ar, base, s)
    ensures SndWindow(ar, Shrink(s))
    ensures 0 <= Off(ar, Shrink(s).una, base) <= Off(ar, s.nxt, base)
  {
    var t := Shrink(s);
    assert RebaseLaw(ar, s.nxt, base, t.una);
    forall i | 0 <= i < |s.buf|
      ensures Off(ar, s.buf[i].wire.sn, t.una) == Off(ar, s.buf[i].wire.sn, base) - Off(ar, t.una, base)
    {
      assert RebaseLaw(ar, s.buf[i].wire.sn, base, t.una);
    }
  }

  lemma {:induction false} DropBelowSuffix(ar: Arith, buf: seq<SndSeg>, una: int)
    ensures var r := DropBelow(ar, buf, una);
            && |r| <= |buf| && r == buf[|buf| - |r|..]
            && forall i :: 0 <= i < |buf| - |r| ==> ar.diff(una, buf[i].wire.sn) > 0
  {
    if buf != [] && ar.diff(una, buf[0].wire.sn) > 0 {
      DropBelowSuffix(ar, buf[1..], una);
      var r := DropBelow(ar, buf[1..], una);
      forall i | 0 <= i < |buf| - |r|
        ensures ar.diff(una, buf[i].wire.sn) > 0
      {
        if i > 0 {
          assert buf[i] == buf[1..][i - 1];
        }
      }
    }
  }

  /** ikcp_parse_ack removes at most one segment, and only the one named. */
  lemma {:induction false} DropOneAt(ar: Arith, buf: seq<SndSeg>, sn: int) returns (i: nat)
    ensures i <= |buf|
    ensures i == |buf| ==> DropOne(ar, buf, sn) == buf
    ensures i < |buf| ==> buf[i].wire.sn == sn && DropOne(ar, buf, sn) == buf[..i] + buf[i + 1..]
  {
    if buf == [] || (buf[0].wire.sn != sn && ar.diff(sn, buf[0].wire.sn) < 0) {
      i := |buf|;
    } else if buf[0].wire.sn == sn {
      i := 0;
    } else {
      i := DropOneAt(ar, buf[1..], sn);
      i := i + 1;
      if i < |buf| {
        assert [buf[0]] + (buf[1..][..i - 1] + buf[1..][i..]) == buf[..i] + buf[i + 1..];
      }
    }
  }

  lemma ParseUnaWindow(ar: Arith, s: Sender, una: int)
    requires Lawful(ar) && SndWindow(ar, s)
    ensures SndWindow(ar, ParseUna(ar, s, una))
    ensures 0 <= Off(ar, ParseUna(ar, s, una).una, s.una) <= Off(ar, s.nxt, s.una)
  {
    DropBelowSuffix(ar, s.buf, una);
    var r := DropBelow(ar, s.buf, una);
    var d := |s.buf| - |r|;
    var f := seq(|r|, i => i + d);
    assert Embeds(f, r, s.buf);
    SubShape(ar, s.una, s, r);
    ShrinkWindow(ar, s.una, s.(buf := r));
  }

  lemma ParseAckWindow(ar: Arith, s: Sender, sn: int)
    requires Lawful(ar) && SndWindow(ar, s)
    ensures SndWindow(ar, ParseAck(ar, s, sn))
    ensures 0 <= Off(ar, ParseAck(ar, s, sn).una, s.una) <= Off(ar, s.nxt, s.una)
  {
    if InFlight(ar, s, sn) {
      var r := DropOne(ar, s.buf, sn);
      DropOneSub(ar, s.buf, sn);
      SubShape(ar, s.una, s, r);
      ShrinkWindow(ar, s.una, s.(buf := r));
    } else {
      ShrinkWindow(ar, s.una, s);
    }
  }

  lemma WithoutOne(buf: seq<SndSeg>, k: nat, r: seq<SndSeg>)
    requires k <= |buf| && r == if k == |buf| then buf else buf[..k] + buf[k + 1..]
    ensures SubBuf(r, buf)
  {
    var f: seq<int> := seq(|r|, i => if i < k then i else i + 1);
    forall i | 0 <= i < |f| ensures 0 <= f[i] < |buf| && r[i] == buf[f[i]] {
    }
    assert Embeds(f, r, buf);
  }

  lemma DropOneSub(ar: Arith, buf: seq<SndSeg>, sn: int)
    ensures SubBuf(DropOne(ar, buf, sn), buf)
  {
    var k := DropOneAt(ar, buf, sn);
    var r := DropOne(ar, buf, sn);
    WithoutOne(buf, k, r);
  }

  lemma {:induction false} BumpKeepsWires(ar: Arith, buf: seq<SndSeg>, sn: int)
    ensures var r := BumpSkipped(ar, buf, sn);
            |r| == |buf| && forall i :: 0 <= i < |buf| ==> r[i].wire == buf[i].wire
  {
    if buf != [] && ar.diff(sn, buf[0].wire.sn) >= 0 {
      BumpKeepsWires(ar, buf[1..], sn);
    }
  }

  /** Replacing segments by ones with the same numbers keeps the window. */
  lemma SameNumbers(ar: Arith, s: Sender, buf: seq<SndSeg>)
    requires Lawful(ar) && SndWindow(ar, s)
    requires |buf| == |s.buf| && forall i :: 0 <= i < |buf| ==> buf[i].wire.sn == s.buf[i].wire.sn
    ensures SndWindow(ar, s.(buf := buf))
  {
  }

  lemma FillWindowStep(ar: Arith, s: Sender, wnd: nat, seg: SndSeg)
    requires Lawful(ar) && SndWindow(ar, s) && wnd <= MAX_FLIGHT
    requires ar.diff(s.nxt, s.una + wnd) < 0 && seg.wire.sn == s.nxt
    ensures SndWindow(ar, s.(nxt := ar.norm(s.nxt + 1), buf := s.buf + [seg]))
  {
    assert ZeroLaw(ar, s.una, s.nxt, wnd) && ZeroLaw(ar, s.nxt, s.una, 0);
    assert DiffLaw(ar, s.nxt, s.una + wnd, s.una);
    assert StepLaw(ar, s.nxt, s.una, 1);
    if s.buf == [] {
      assert Off(ar, s.nxt, s.una) == 0;
    }
  }

  lemma {:induction false} FillWindow(ar: Arith, k: Kcb, wnd: nat)
    requires Lawful(ar) && SndWindow(ar, k.snd) && wnd <= MAX_FLIGHT
    ensures var k' := Fill(ar, k, wnd);
            SndWindow(ar, k'.snd) && k' == k.(snd := k'.snd) && k'.snd.una == k.snd.una
    decreases |k.snd.queue|
  {
    var s := k.snd;
    if ar.diff(s.nxt, s.una + wnd) < 0 && s.queue != [] {
      FillWindowStep(ar, s, wnd, Stamp(k, s.queue[0], s.nxt));
      FillWindow(ar, NumberNext(ar, k), wnd);
    }
  }

  // ---- the receive window ----

  /** rcv_buf is strictly increasing in [nxt, nxt + wnd). */
  ghost predicate RcvShape(ar: Arith, base: int, buf: seq<Wire>, wnd: nat) {
    && (forall i :: 0 <= i < |buf| ==> SnOk(ar, buf[i].sn) && 0 <= Off(ar, buf[i].sn, base) < wnd)
    && (forall i, j :: 0 <= i < j < |buf| ==> Off(ar, buf[i].sn, base) < Off(ar, buf[j].sn, base))
  }

  /** ... and its head is due only if rcv_queue is full. */
  ghost predicate RcvWindow(ar: Arith, r: Receiver, wnd: nat) {
    && SnOk(ar, r.nxt)
    && RcvShape(ar, r.nxt, r.buf, wnd)
    && (r.buf != [] && r.buf[0].sn == r.nxt ==> |r.queue| >= wnd)
  }

  lemma {:induction false} ScanSkips(ar: Arith, buf: seq<Wire>, sn: int, n: nat)
    requires n <= |buf|
    ensures var p := Scan(ar, buf, sn, n);
            && (p > 0 ==> buf[p - 1].sn == sn || ar.diff(sn, buf[p - 1].sn) > 0)
            && forall j :: p <= j < n ==> ar.diff(sn, buf[j].sn) <= 0 && sn != buf[j].sn
  {
    if n > 0 && buf[n - 1].sn != sn && ar.diff(sn, buf[n - 1].sn) <= 0 {
      ScanSkips(ar, buf, sn, n - 1);
    }
  }

  /** In an ordered buffer the place found keeps the order. */
  lemma InsertShape(ar: Arith, base: int, buf: seq<Wire>, wnd: nat, w: Wire)
    requires wnd < HALF && Lawful(ar) && RcvShape(ar, base, buf, wnd)
    requires SnOk(ar, w.sn) && 0 <= Off(ar, w.sn, base) < wnd
    ensures RcvShape(ar, base, Insert(ar, buf, w), wnd)
  {
    var p := Scan(ar, buf, w.sn, |buf|);
    ScanSkips(ar, buf, w.sn, |buf|);
    if p == 0 || buf[p - 1].sn != w.sn {
      if p > 0 {
        Compare(ar, w.sn, buf[p - 1].sn, base);
      }
      forall j | p <= j < |buf|
        ensures Off(ar, w.sn, base) < Off(ar, buf[j].sn, base)
      {
        Compare(ar, w.sn, buf[j].sn, base);
      }
      ShapeHole(ar, base, buf, wnd, w, p);
    }
  }

  lemma ShapeHole(ar: Arith, base: int, buf: seq<Wire>, wnd: nat, w: Wire, i: nat)
    requires RcvShape(ar, base, buf, wnd) && i <= |buf|
    requires SnOk(ar, w.sn) && 0 <= Off(ar, w.sn, base) < wnd
    requires i > 0 ==> Off(ar, buf[i - 1].sn, base) < Off(ar, w.sn, base)
    requires forall j :: i <= j < |buf| ==> Off(ar, w.sn, base) < Off(ar, buf[j].sn, base)
    ensures RcvShape(ar, base, buf[..i] + [w] + buf[i..], wnd)
  {
    var r := buf[..i] + [w] + buf[i..];
    forall a | 0 <= a < |r|
      ensures r[a] == HoleAt(buf, w, i, a)
    {
    }
    forall a, b | 0 <= a < b < |r|
      ensures Off(ar, r[a].sn, base) < Off(ar, r[b].sn, base)
    {
      assert r[a] == HoleAt(buf, w, i, a) && r[b] == HoleAt(buf, w, i, b);
    }
  }

  function HoleAt(buf: seq<Wire>, w: Wire, i: nat, a: nat): Wire
    requires i <= |buf| && a <= |buf|
  {
    if a < i then buf[a] else if a == i then w else buf[a - 1]
  }

  lemma {:induction false} AdvanceWindow(ar: Arith, r: Receiver, wnd: nat)
    requires 0 < wnd < HALF && Lawful(ar) && SnOk(ar, r.nxt) && RcvShape(ar, r.nxt, r.buf, wnd)
    ensures RcvWindow(ar, Advance(ar, r, wnd), wnd)
    ensures |Advance(ar, r, wnd).queue| <= Max(wnd, |r.queue|)
    decreases |r.buf|
  {
    if r.buf != [] && r.buf[0].sn == r.nxt && |r.queue| < wnd {
      var r1 := r.(buf := r.buf[1..], queue := r.queue + [r.buf[0]], nxt := ar.norm(r.nxt + 1));
      assert ZeroLaw(ar, r.nxt, r.nxt, 0);
      assert StepLaw(ar, r.nxt, r.nxt, 1);
      forall i | 0 <= i < |r1.buf|
        ensures Off(ar, r1.buf[i].sn, r1.nxt) == Off(ar, r.buf[i + 1].sn, r.nxt) - 1
      {
        assert Off(ar, r.buf[0].sn, r.nxt) < Off(ar, r.buf[i + 1].sn, r.nxt);
        assert RebaseLaw(ar, r1.buf[i].sn, r.nxt, r1.nxt);
      }
      AdvanceWindow(ar, r1, wnd);
    }
  }

  lemma PushWindow(ar: Arith, r: Receiver, wnd: nat, w: Wire)
    requires 0 < wnd < HALF && Lawful(ar) && RcvWindow(ar, r, wnd) && SnOk(ar, w.sn)
    ensures RcvWindow(ar, Push(ar, r, wnd, w), wnd)
    ensures |Push(ar, r, wnd, w).queue| <= Max(wnd, |r.queue|)
  {
    if ar.diff(w.sn, r.nxt + wnd) < 0 && ar.diff(w.sn, r.nxt) >= 0 {
      assert RangeLaw(ar, w.sn, r.nxt, wnd);
      InsertShape(ar, r.nxt, r.buf, wnd, w);
      AdvanceWindow(ar, r.(acks := r.acks + [Ack(w.sn, w.ts)], buf := Insert(ar, r.buf, w)), wnd);
    }
  }

  // ---- the whole control block ----

  ghost predicate Windows(ar: Arith, k: Kcb) {
    && SndWindow(ar, k.snd)
    && RcvWindow(ar, k.rcv, k.cf.rcvWnd)
    && |k.rcv.queue| <= k.cf.rcvWnd
    && k.cong.rmtWnd <= MAX_FLIGHT
  }

  lemma CreateWindows(ar: Arith, cf: Conf)
    requires Lawful(ar)
    ensures Windows(ar, Create(cf))
  {
    assert ZeroLaw(ar, 0, 0, 0);
  }

  lemma InputSegSnd(ar: Arith, k: Kcb, w: Wire)
    requires Lawful(ar) && SndWindow(ar, k.snd)
    ensures SndWindow(ar, InputSeg(ar, k, w).snd)
  {
    ParseUnaWindow(ar, k.snd, w.una);
    if w.cmd == CMD_ACK {
      ParseAckWindow(ar, ParseUna(ar, k.snd, w.una), w.sn);
    }
  }

  lemma InputSegRcv(ar: Arith, k: Kcb, w: Wire)
    requires Lawful(ar) && RcvWindow(ar, k.rcv, k.cf.rcvWnd) && |k.rcv.queue| <= k.cf.rcvWnd
    requires SnOk(ar, w.sn)
    ensures RcvWindow(ar, InputSeg(ar, k, w).rcv, k.cf.rcvWnd)
    ensures |InputSeg(ar, k, w).rcv.queue| <= k.cf.rcvWnd
  {
    if w.cmd == CMD_PUSH {
      PushWindow(ar, k.rcv, k.cf.rcvWnd, w);
    }
  }

  lemma InputSegWindows(ar: Arith, k: Kcb, w: Wire)
    requires Lawful(ar) && Windows(ar, k) && SnOk(ar, w.sn) && w.wnd <= MAX_FLIGHT
    ensures Windows(ar, InputSeg(ar, k, w))
  {
    InputSegSnd(ar, k, w);
    InputSegRcv(ar, k, w);
  }

  lemma InputEndWindows(ar: Arith, k: Kcb, m: MaxAck, prevUna: int)
    requires Lawful(ar) && Windows(ar, k)
    ensures Windows(ar, InputEnd(ar, k, m, prevUna))
  {
    var s := if m.MaxAck? then ParseFastAck(ar, k.snd, m.sn) else k.snd;
    if m.MaxAck? {
      FastAckWindow(ar, k.snd, m.sn);
    }
    var k' := InputEnd(ar, k, m, prevUna);
    assert k'.cf == k.cf && k'.snd == s && k'.rcv == k.rcv;
  }

  lemma FastAckWindow(ar: Arith, s: Sender, sn: int)
    requires Lawful(ar) && SndWindow(ar, s)
    ensures SndWindow(ar, ParseFastAck(ar, s, sn))
  {
    if InFlight(ar, s, sn) {
      BumpKeepsWires(ar, s.buf, sn);
      SameNumbers(ar, s, BumpSkipped(ar, s.buf, sn));
    }
  }

  lemma RecvWindows(ar: Arith, k: Kcb, len: int)
    requires Lawful(ar) && Windows(ar, k)
    ensures Windows(ar, Recv(ar, k, len).1)
  {
    var (_, n) := FirstMessage(k.rcv.queue);
    var r1 := if len < 0 then k.rcv else k.rcv.(queue := k.rcv.queue[n..]);
    AdvanceWindow(ar, r1, k.cf.rcvWnd);
  }

  lemma FlushWindows(ar: Arith, k: Kcb)
    requires Lawful(ar) && Windows(ar, k)
    ensures Windows(ar, FlushState(ar, k))
  {
    if k.clk.updated {
      var (clk, _) := ProbeTimer(k.clk, k.cong.rmtWnd);
      var k0 := k.(clk := clk, rcv := k.rcv.(acks := []), askSend := false, askTell := false);
      FillWindow(ar, k0, SendWindow(k.cf, k.cong));
      var k1 := FlushFill(ar, k);
      SameNumbers(ar, k1.snd, TouchAll(k1, k1.snd.buf));
    }
  }

  /** Live numbers compare as they would without wrap-around. */
  lemma LiveOrder(ar: Arith, s: Sender, i: nat, j: nat)
    requires Lawful(ar) && SndWindow(ar, s) && i < |s.buf| && j < |s.buf|
    ensures ar.diff(s.buf[i].wire.sn, s.buf[j].wire.sn) > 0 <==> i > j
    ensures ar.diff(s.nxt, s.buf[i].wire.sn) > 0 && ar.diff(s.buf[i].wire.sn, s.una) >= 0
  {
    assert DiffLaw(ar, s.buf[i].wire.sn, s.buf[j].wire.sn, s.una);
    assert DiffLaw(ar, s.nxt, s.buf[i].wire.sn, s.una);
    assert DiffLaw(ar, s.buf[i].wire.sn, s.una, s.una);
    assert ZeroLaw(ar, s.una, s.una, 0);
  }
}
