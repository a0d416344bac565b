// When a segment is sent again. The deadlines of all numbers in flight are kept by
// a small machine that sees only which numbers are sent and when; in every run,
// whatever arrives, a flush sends exactly the numbers that are due by it.
module KcpResend {
  import opened Circular
  import opened Seqs
  import opened KcpModel
  import opened KcpWindow
  import opened KcpPacking
  import KcpWire
  import opened KcpSystem
  import opened KcpRounds
  import opened KcpRuns
  import opened KcpEndpoint

  // ---- deadlines ----

  /** How often a number was sent, when it is due again and after what timeout. */
  datatype Arm = Arm(sent: nat, due: nat, rto: nat)

  const UNSENT: Arm := Arm(0, 0, 0)

  predicate Overdue(a: Arm, now: nat) { TimeDiff(now, a.due) >= 0 }

  /** The wait after a timeout: longer by the timeout of the connection, or without
      delay by half of it. */
  function Longer(cf: Conf, rto: nat, rx: nat): nat { U32(rto + if cf.nodelay then rx / 2 else rx) }

  /** A number sent at time `now` while the timeout of the connection is `rx`: for
      the first time, because it was overdue, or because it was passed over. */
  function Sent(cf: Conf, a: Arm, now: nat, rx: nat): Arm {
    var sent := U32(a.sent + 1);
    if a.sent == 0 then Arm(sent, U32(now + (rx + if cf.nodelay then 0 else rx / 8)), rx)
    else if Overdue(a, now) then
      var rto := Longer(cf, a.rto, rx);
      Arm(sent, U32(now + rto), rto)
    else Arm(sent, U32(now + a.rto), a.rto)
  }

  /** The segment was passed over often enough, and has not been sent too often
      for that to matter. */
  predicate FastDue(cf: Conf, fastAck: nat, sent: nat) {
    && fastAck >= (if cf.fastResend > 0 then cf.fastResend else 0xFFFF_FFFF)
    && (cf.fastLimit <= 0 || I32(sent) <= cf.fastLimit)
  }

  // ---- what is sent by a call ----

  /** The time at which a call flushes, and whether it does. */
  function CallTime(k: Kcb, c: Call): nat { if c.CallUpdate? then U32(c.now) else k.clk.current }

  predicate Flushes(k: Kcb, c: Call) {
    || (c.CallFlush? && k.clk.updated)
    || (c.CallUpdate? && Tick(k.clk, k.cf.interval, U32(c.now)).1)
  }

  /** Data with number `sn` is in a datagram that the call puts out. */
  ghost predicate Sends(k: Kcb, c: Call, sn: int) {
    exists i, j :: 0 <= i < |Output(k, c)| && 0 <= j < |Output(k, c)[i]|
      && Output(k, c)[i][j].cmd == CMD_PUSH && Output(k, c)[i][j].sn == sn
  }

  /** The control block as the call's flush finds it. */
  function AtFlush(k: Kcb, c: Call): Kcb {
    if c.CallUpdate? then k.(clk := Tick(k.clk, k.cf.interval, U32(c.now)).0) else k
  }

  lemma FlushOfCall(k: Kcb, c: Call)
    requires Flushes(k, c)
    ensures var f := AtFlush(k, c);
            && f.clk.updated && f.clk.current == CallTime(k, c) && f == k.(clk := f.clk)
            && Do(k, c) == FlushState(WRAP, f)
            && Output(k, c) == Datagrams(FlushWires(WRAP, f), k.cf.mtu)
  {
  }

  lemma NoFlush(k: Kcb, c: Call, sn: int)
    requires !Flushes(k, c)
    ensures !Sends(k, c, sn)
  {
  }

  ghost predicate Writes(ws: seq<Wire>, sn: int) { exists w :: w in ws && w.cmd == CMD_PUSH && w.sn == sn }

  lemma SendsIsWrites(k: Kcb, c: Call, sn: int)
    requires Flushes(k, c)
    ensures Sends(k, c, sn) <==> Writes(FlushWires(WRAP, AtFlush(k, c)), sn)
  {
    FlushOfCall(k, c);
    var ws := FlushWires(WRAP, AtFlush(k, c));
    var ds: seq<seq<Wire>> := Output(k, c);
    DatagramsAll(ws, k.cf.mtu);
    if w :| w in ws && w.cmd == CMD_PUSH && w.sn == sn {
      DatagramsHave(ws, k.cf.mtu, w);
      var i :| 0 <= i < |ds| && w in ds[i];
      var j :| 0 <= j < |ds[i]| && ds[i][j] == w;
    }
  }

  // ---- one flush ----

  lemma {:induction false} FillAdds(k: Kcb, wnd: nat)
    ensures var k' := Fill(WRAP, k, wnd);
            && k' == k.(snd := k'.snd) && k'.snd.una == k.snd.una && k.snd.buf <= k'.snd.buf
            && forall i :: |k.snd.buf| <= i < |k'.snd.buf| ==> k'.snd.buf[i].xmit == 0 && k'.snd.buf[i].fastAck == 0
    decreases |k.snd.queue|
  {
    if WRAP.diff(k.snd.nxt, k.snd.una + wnd) < 0 && k.snd.queue != [] {
      FillAdds(NumberNext(WRAP, k), wnd);
    }
  }

  /** The segments that the pass over snd_buf looks at: those in flight, and those
      numbered just before. */
  lemma FillOfFlush(k: Kcb)
    ensures var k1 := FlushFill(WRAP, k);
            && k1.cf == k.cf && k1.rtt == k.rtt && k1.clk.current == k.clk.current && k1.rcv.nxt == k.rcv.nxt
            && k1.dead == k.dead && k.snd.buf <= k1.snd.buf
            && forall i :: |k.snd.buf| <= i < |k1.snd.buf| ==> k1.snd.buf[i].xmit == 0 && k1.snd.buf[i].fastAck == 0
  {
    var (clk, _) := ProbeTimer(k.clk, k.cong.rmtWnd);
    FillAdds(k.(clk := clk, rcv := k.rcv.(acks := []), askSend := false, askTell := false), SendWindow(k.cf, k.cong));
  }

  function ArmOfSeg(s: SndSeg): Arm { Arm(s.xmit, s.resendTs, s.rto) }

  /** Whether a segment is due: never sent, overdue, or passed over. */
  predicate Due(cf: Conf, s: SndSeg, now: nat) {
    s.xmit == 0 || Overdue(ArmOfSeg(s), now) || FastDue(cf, s.fastAck, s.xmit)
  }

  /** What a flush at time `now` makes of a segment. */
  predicate Flushed(cf: Conf, s: SndSeg, t: SndSeg, now: nat, rx: nat) {
    if Due(cf, s, now) then
      && ArmOfSeg(t) == Sent(cf, ArmOfSeg(s), now, rx)
      && t.wire.sn == s.wire.sn && t.wire.cmd == s.wire.cmd && t.wire.data == s.wire.data && t.wire.frg == s.wire.frg
      && t.wire.ts == now
      && t.fastAck == if s.xmit > 0 && !Overdue(ArmOfSeg(s), now) then 0 else s.fastAck
    else t == s
  }

  lemma TouchFlushes(k: Kcb, s: SndSeg)
    ensures Flushed(k.cf, s, Touch(k, s), k.clk.current, k.rtt.rto)
    ensures Judge(k, s).Keep? <==> !Due(k.cf, s, k.clk.current)
  {
  }

  lemma {:induction false} DueWrites(k: Kcb, buf: seq<SndSeg>, sn: int)
    requires forall i :: 0 <= i < |buf| ==> buf[i].wire.cmd == CMD_PUSH
    ensures Writes(DueWires(k, buf), sn) <==>
            exists i :: 0 <= i < |buf| && buf[i].wire.sn == sn && Due(k.cf, buf[i], k.clk.current)
    decreases |buf|
  {
    if buf != [] {
      var n := |buf| - 1;
      var front, last := buf[..n], buf[n];
      DueWrites(k, front, sn);
      TouchFlushes(k, last);
      WritesMore(DueWires(k, front), if Judge(k, last).Keep? then [] else [Touch(k, last).wire], sn);
      if i :| 0 <= i < n && front[i].wire.sn == sn && Due(k.cf, front[i], k.clk.current) {
        assert buf[i] == front[i];
      }
    }
  }

  lemma WritesMore(a: seq<Wire>, b: seq<Wire>, sn: int)
    ensures Writes(a + b, sn) <==> Writes(a, sn) || Writes(b, sn)
  {
    if w :| w in a && w.cmd == CMD_PUSH && w.sn == sn {
      assert w in a + b;
    }
    if w :| w in b && w.cmd == CMD_PUSH && w.sn == sn {
      assert w in a + b;
    }
  }

  lemma ControlIsNoData(k: Kcb, sn: int)
    ensures !Writes(ControlWires(k), sn)
  {
  }

  /** Some segment with number `sn` is due. */
  ghost predicate SomeDue(cf: Conf, buf: seq<SndSeg>, now: nat, sn: int) {
    exists i :: 0 <= i < |buf| && buf[i].wire.sn == sn && Due(cf, buf[i], now)
  }

  ghost predicate AllFlushed(cf: Conf, buf: seq<SndSeg>, buf': seq<SndSeg>, now: nat, rx: nat) {
    |buf'| == |buf| && forall i :: 0 <= i < |buf| ==> Flushed(cf, buf[i], buf'[i], now, rx)
  }

  lemma PassFlushes(k: Kcb, buf: seq<SndSeg>)
    ensures AllFlushed(k.cf, buf, TouchAll(k, buf), k.clk.current, k.rtt.rto)
  {
    forall i | 0 <= i < |buf| ensures Flushed(k.cf, buf[i], TouchAll(k, buf)[i], k.clk.current, k.rtt.rto) {
      TouchFlushes(k, buf[i]);
    }
  }

  lemma PassWrites(k: Kcb, sn: int)
    requires Sound(k) && k.clk.updated
    ensures Writes(FlushWires(WRAP, k), sn) <==> SomeDue(k.cf, FlushFill(WRAP, k).snd.buf, k.clk.current, sn)
  {
    var k1 := FlushFill(WRAP, k);
    FillOfFlush(k);
    FlushFillEncodable(k);
    DueWrites(k1, k1.snd.buf, sn);
    ControlIsNoData(k, sn);
    WritesMore(ControlWires(k), DueWires(k1, k1.snd.buf), sn);
  }

  lemma FlushPass(k: Kcb)
    requires k.clk.updated
    ensures FlushState(WRAP, k).snd.buf == TouchAll(FlushFill(WRAP, k), FlushFill(WRAP, k).snd.buf)
  {
  }

  /** A flush: what it sends, and what becomes of each segment. */
  lemma FlushOnce(k: Kcb, sn: int)
    requires Sound(k) && k.clk.updated
    ensures AllFlushed(k.cf, FlushFill(WRAP, k).snd.buf, FlushState(WRAP, k).snd.buf, k.clk.current, k.rtt.rto)
    ensures Writes(FlushWires(WRAP, k), sn) <==> SomeDue(k.cf, FlushFill(WRAP, k).snd.buf, k.clk.current, sn)
  {
    FillOfFlush(k);
    FlushPass(k);
    PassFlushes(FlushFill(WRAP, k), FlushFill(WRAP, k).snd.buf);
    PassWrites(k, sn);
  }

  // ---- one number ----

  /** The segment with number `sn`, if it is in flight. */
  datatype Found = None | Some(seg: SndSeg)

  function Find(buf: seq<SndSeg>, sn: int): Found {
    if buf == [] then None else if buf[0].wire.sn == sn then Some(buf[0]) else Find(buf[1..], sn)
  }

  ghost predicate Distinct(buf: seq<SndSeg>) {
    forall i, j :: 0 <= i < j < |buf| ==> buf[i].wire.sn != buf[j].wire.sn
  }

  lemma WindowDistinct(s: Sender)
    requires SndWindow(WRAP, s)
    ensures Distinct(s.buf)
  {
    forall i, j | 0 <= i < j < |s.buf| ensures s.buf[i].wire.sn != s.buf[j].wire.sn {
      assert Off(WRAP, s.buf[i].wire.sn, s.una) < Off(WRAP, s.buf[j].wire.sn, s.una);
    }
  }

  lemma {:induction false} FindAt(buf: seq<SndSeg>, sn: int)
    ensures var f := Find(buf, sn);
            if f.Some? then f.seg in buf && f.seg.wire.sn == sn else forall s | s in buf :: s.wire.sn != sn
    decreases |buf|
  {
    if buf != [] && buf[0].wire.sn != sn {
      FindAt(buf[1..], sn);
      assert forall s | s in buf :: s == buf[0] || s in buf[1..];
    }
  }

  lemma FindIs(buf: seq<SndSeg>, i: nat)
    requires Distinct(buf) && i < |buf|
    ensures Find(buf, buf[i].wire.sn) == Some(buf[i])
  {
    FindAt(buf, buf[i].wire.sn);
    var f := Find(buf, buf[i].wire.sn);
    var j :| 0 <= j < |buf| && buf[j] == f.seg;
  }

  /** What a flush does to the segment that is found. */
  lemma FoundFlushed(cf: Conf, buf: seq<SndSeg>, buf': seq<SndSeg>, now: nat, rx: nat, sn: int)
    requires Distinct(buf) && AllFlushed(cf, buf, buf', now, rx)
    ensures Find(buf', sn).Some? <==> Find(buf, sn).Some?
    ensures Find(buf, sn).Some? ==> Flushed(cf, Find(buf, sn).seg, Find(buf', sn).seg, now, rx)
    ensures SomeDue(cf, buf, now, sn) <==> Find(buf, sn).Some? && Due(cf, Find(buf, sn).seg, now)
  {
    SameSns(cf, buf, buf', now, rx);
    FindPair(buf, buf', sn);
    if SomeDue(cf, buf, now, sn) {
      var i :| 0 <= i < |buf| && buf[i].wire.sn == sn && Due(cf, buf[i], now);
      FindIs(buf, i);
    }
  }

  /** In buffers with the same numbers a number is found at the same place. */
  lemma FindPair(buf: seq<SndSeg>, buf': seq<SndSeg>, sn: int)
    requires Distinct(buf) && |buf'| == |buf| && forall i :: 0 <= i < |buf| ==> buf'[i].wire.sn == buf[i].wire.sn
    ensures if Find(buf, sn).Some?
            then exists i :: 0 <= i < |buf| && Find(buf, sn) == Some(buf[i]) && Find(buf', sn) == Some(buf'[i])
            else Find(buf', sn).None?
  {
    FindAt(buf, sn);
    FindAt(buf', sn);
    if Find(buf, sn).Some? {
      var i :| 0 <= i < |buf| && buf[i] == Find(buf, sn).seg;
      FindIs(buf', i);
    } else {
      forall i | 0 <= i < |buf'| ensures buf'[i].wire.sn != sn {
        assert buf[i] in buf;
      }
    }
  }

  lemma SameSns(cf: Conf, buf: seq<SndSeg>, buf': seq<SndSeg>, now: nat, rx: nat)
    requires Distinct(buf) && AllFlushed(cf, buf, buf', now, rx)
    ensures Distinct(buf') && forall i :: 0 <= i < |buf| ==> buf'[i].wire.sn == buf[i].wire.sn
  {
    forall i | 0 <= i < |buf| ensures buf'[i].wire.sn == buf[i].wire.sn {
      assert Flushed(cf, buf[i], buf'[i], now, rx);
    }
  }

  // ---- calls that do not flush ----

  /** `t` is a segment of `buf` but perhaps for how often it was passed over. */
  ghost predicate FromBuf(buf: seq<SndSeg>, t: SndSeg) {
    exists i :: 0 <= i < |buf| && t == buf[i].(fastAck := t.fastAck)
  }

  ghost predicate Kept(buf: seq<SndSeg>, buf': seq<SndSeg>) { forall t | t in buf' :: FromBuf(buf, t) }

  lemma KeptTrans(a: seq<SndSeg>, b: seq<SndSeg>, c: seq<SndSeg>)
    requires Kept(a, b) && Kept(b, c)
    ensures Kept(a, c)
  {
    forall t | t in c ensures FromBuf(a, t) {
      var i :| 0 <= i < |b| && t == b[i].(fastAck := t.fastAck);
      assert b[i] in b;
      var j :| 0 <= j < |a| && b[i] == a[j].(fastAck := b[i].fastAck);
      assert t == a[j].(fastAck := t.fastAck);
    }
  }

  lemma KeptSome(buf: seq<SndSeg>, buf': seq<SndSeg>)
    requires forall t | t in buf' :: t in buf
    ensures Kept(buf, buf')
  {
    forall t | t in buf' ensures FromBuf(buf, t) {
      var i :| 0 <= i < |buf| && buf[i] == t;
    }
  }

  lemma DropsKeep(buf: seq<SndSeg>, una: int, sn: int)
    ensures Kept(buf, DropBelow(WRAP, buf, una)) && Kept(buf, DropOne(WRAP, buf, sn))
  {
    DropBelowSuffix(WRAP, buf, una);
    KeptSome(buf, DropBelow(WRAP, buf, una));
    var i := DropOneAt(WRAP, buf, sn);
    KeptSome(buf, DropOne(WRAP, buf, sn));
  }

  lemma {:induction false} BumpKeeps(buf: seq<SndSeg>, sn: int)
    ensures Kept(buf, BumpSkipped(WRAP, buf, sn))
    decreases |buf|
  {
    if buf == [] || WRAP.diff(sn, buf[0].wire.sn) < 0 {
      KeptSome(buf, buf);
    } else {
      BumpKeeps(buf[1..], sn);
      var buf' := BumpSkipped(WRAP, buf, sn);
      forall t | t in buf' ensures FromBuf(buf, t) {
        if t in buf'[1..] {
          var i :| 0 <= i < |buf| - 1 && t == buf[1..][i].(fastAck := t.fastAck);
          assert t == buf[i + 1].(fastAck := t.fastAck);
        } else {
          assert t == buf[0].(fastAck := t.fastAck);
        }
      }
    }
  }

  lemma SegKeeps(k: Kcb, w: Wire)
    ensures Kept(k.snd.buf, InputSeg(WRAP, k, w).snd.buf)
  {
    var s := ParseUna(WRAP, k.snd, w.una);
    DropsKeep(k.snd.buf, w.una, w.sn);
    DropsKeep(s.buf, w.una, w.sn);
    KeptSome(s.buf, s.buf);
    KeptTrans(k.snd.buf, s.buf, ParseAck(WRAP, s, w.sn).buf);
  }

  lemma {:induction false} InputKeepsArms(k: Kcb, m: MaxAck, prevUna: int, cmd: int, d: seq<Byte>)
    ensures Kept(k.snd.buf, KcpWire.InputBytesFrom(WRAP, k, m, prevUna, cmd, d).1.snd.buf)
    decreases |d|
  {
    KeptSome(k.snd.buf, k.snd.buf);
    match KcpWire.ParseOne(k.cf.conv, d)
    case Stop =>
      if m.MaxAck? {
        BumpKeeps(k.snd.buf, m.sn);
      }
    case Fail(_) =>
    case Got(w, rest) =>
      var k1 := InputSeg(WRAP, k, w);
      SegKeeps(k, w);
      InputKeepsArms(k1, NoteSeg(WRAP, m, w), prevUna, w.cmd, rest);
      KeptTrans(k.snd.buf, k1.snd.buf, KcpWire.InputBytesFrom(WRAP, k, m, prevUna, cmd, d).1.snd.buf);
  }

  lemma CallKeeps(k: Kcb, c: Call)
    requires !Flushes(k, c)
    ensures Kept(k.snd.buf, Do(k, c).snd.buf)
  {
    KeptSome(k.snd.buf, k.snd.buf);
    if c.CallInput? {
      InputKeepsArms(k, NoAck, k.snd.una, 0, c.d);
    }
  }

  /** A segment that is still there has kept its deadline. */
  lemma KeptArm(buf: seq<SndSeg>, buf': seq<SndSeg>, sn: int)
    requires Distinct(buf) && Kept(buf, buf') && Find(buf', sn).Some?
    ensures Find(buf, sn).Some? && Find(buf', sn).seg == Find(buf, sn).seg.(fastAck := Find(buf', sn).seg.fastAck)
  {
    FindAt(buf', sn);
    var t := Find(buf', sn).seg;
    var i :| 0 <= i < |buf| && t == buf[i].(fastAck := t.fastAck);
    FindIs(buf, i);
  }

  // ---- every run ----

  /** The segment with number `sn` that is in flight after a run. */
  function Flying(cf: Conf, cs: seq<Call>, sn: int): Found { Find(DoAll(cf, cs).snd.buf, sn) }

  /** The deadline of a number after a run, from what was sent and when. It is
      forgotten when the number is acknowledged. */
  ghost function Deadline(cf: Conf, cs: seq<Call>, sn: int): Arm {
    if cs == [] then UNSENT
    else
      var front, c := cs[..|cs| - 1], cs[|cs| - 1];
      var k := DoAll(cf, front);
      if Flying(cf, cs, sn).None? then UNSENT
      else if Sends(k, c, sn) then Sent(cf, Deadline(cf, front, sn), CallTime(k, c), k.rtt.rto)
      else Deadline(cf, front, sn)
  }

  /** A call by itself, for a number with deadline `a`. */
  lemma CallArms(k: Kcb, c: Call, sn: int, a: Arm)
    requires Sound(k) && (Find(k.snd.buf, sn).Some? ==> ArmOfSeg(Find(k.snd.buf, sn).seg) == a)
    requires Find(k.snd.buf, sn).None? ==> a == UNSENT
    ensures var f' := Find(Do(k, c).snd.buf, sn);
            f'.Some? ==> ArmOfSeg(f'.seg) == if Sends(k, c, sn) then Sent(k.cf, a, CallTime(k, c), k.rtt.rto) else a
  {
    WindowDistinct(k.snd);
    if Flushes(k, c) {
      FlushArms(AtFlush(k, c), sn, a);
      SendsIsWrites(k, c, sn);
      FlushOfCall(k, c);
    } else {
      NoFlush(k, c, sn);
      CallKeeps(k, c);
      if Find(Do(k, c).snd.buf, sn).Some? {
        KeptArm(k.snd.buf, Do(k, c).snd.buf, sn);
      }
    }
  }

  /** The segments found before and after a flush has numbered more. */
  lemma FoundBefore(buf: seq<SndSeg>, buf1: seq<SndSeg>, sn: int)
    requires Distinct(buf1) && buf <= buf1
    requires forall i :: |buf| <= i < |buf1| ==> buf1[i].xmit == 0 && buf1[i].fastAck == 0
    ensures Find(buf, sn).Some? ==> Find(buf1, sn) == Find(buf, sn)
    ensures Find(buf, sn).None? && Find(buf1, sn).Some? ==>
              Find(buf1, sn).seg.xmit == 0 && Find(buf1, sn).seg.fastAck == 0
  {
    FindAt(buf, sn);
    FindAt(buf1, sn);
    if Find(buf, sn).Some? {
      var i :| 0 <= i < |buf| && buf[i] == Find(buf, sn).seg;
      assert buf1[i] == buf[i];
      FindIs(buf1, i);
    } else if Find(buf1, sn).Some? {
      var i :| 0 <= i < |buf1| && buf1[i] == Find(buf1, sn).seg;
      assert forall j | 0 <= j < |buf| :: buf1[j] == buf[j] && buf[j] in buf;
    }
  }

  lemma FilledDistinct(k: Kcb)
    requires Sound(k)
    ensures Distinct(FlushFill(WRAP, k).snd.buf)
  {
    WrapLawful();
    var (clk, _) := ProbeTimer(k.clk, k.cong.rmtWnd);
    FillWindow(WRAP, k.(clk := clk, rcv := k.rcv.(acks := []), askSend := false, askTell := false),
               SendWindow(k.cf, k.cong));
    WindowDistinct(FlushFill(WRAP, k).snd);
  }

  /** What becomes of the segment found by its number: `f` before a flush, `f1` when
      numbers have been given out, `f'` after it, which sends it or not. */
  predicate Passes(cf: Conf, f: Found, f1: Found, f': Found, sends: bool, now: nat, rx: nat) {
    && (f.Some? ==> f1 == f)
    && (f.None? && f1.Some? ==> f1.seg.xmit == 0 && f1.seg.fastAck == 0)
    && (f'.Some? <==> f1.Some?)
    && (f1.Some? ==> Flushed(cf, f1.seg, f'.seg, now, rx))
    && (sends <==> f1.Some? && Due(cf, f1.seg, now))
  }

  lemma FlushFound(k: Kcb, sn: int) returns (f1: Found)
    requires Sound(k) && k.clk.updated
    ensures Passes(k.cf, Find(k.snd.buf, sn), f1, Find(FlushState(WRAP, k).snd.buf, sn),
                   Writes(FlushWires(WRAP, k), sn), k.clk.current, k.rtt.rto)
  {
    var buf1 := FlushFill(WRAP, k).snd.buf;
    f1 := Find(buf1, sn);
    FillOfFlush(k);
    FilledDistinct(k);
    FoundBefore(k.snd.buf, buf1, sn);
    FlushOnce(k, sn);
    FoundFlushed(k.cf, buf1, FlushState(WRAP, k).snd.buf, k.clk.current, k.rtt.rto, sn);
  }

  lemma FlushArms(k: Kcb, sn: int, a: Arm)
    requires Sound(k) && k.clk.updated
    requires Find(k.snd.buf, sn).Some? ==> ArmOfSeg(Find(k.snd.buf, sn).seg) == a
    requires Find(k.snd.buf, sn).None? ==> a == UNSENT
    ensures Armed(k.cf, a, Find(k.snd.buf, sn), Find(FlushState(WRAP, k).snd.buf, sn), Writes(FlushWires(WRAP, k), sn),
                  k.clk.current, k.rtt.rto)
  {
    var f1 := FlushFound(k, sn);
    PassArms(k.cf, a, Find(k.snd.buf, sn), f1, Find(FlushState(WRAP, k).snd.buf, sn), Writes(FlushWires(WRAP, k), sn),
             k.clk.current, k.rtt.rto);
  }

  /** A segment with deadline `a` is sent by a flush exactly when it is due. */
  predicate Armed(cf: Conf, a: Arm, f: Found, f': Found, sends: bool, now: nat, rx: nat) {
    && (f'.Some? ==> ArmOfSeg(f'.seg) == if sends then Sent(cf, a, now, rx) else a)
    && (f'.Some? && f.None? ==> sends)
    && (f.Some? ==> (sends <==> a.sent == 0 || Overdue(a, now) || FastDue(cf, f.seg.fastAck, a.sent)))
  }

  lemma PassArms(cf: Conf, a: Arm, f: Found, f1: Found, f': Found, sends: bool, now: nat, rx: nat)
    requires Passes(cf, f, f1, f', sends, now, rx) && a == if f.Some? then ArmOfSeg(f.seg) else UNSENT
    ensures Armed(cf, a, f, f', sends, now, rx)
  {
  }

  /** In every run, whatever bytes arrive, the fields of a segment in flight are
      the deadline of its number. */
  lemma {:induction false} DeadlinesHold(cf: Conf, cs: seq<Call>, sn: int)
    ensures DoAll(cf, cs).cf == cf
    ensures var f := Flying(cf, cs, sn);
            if f.Some? then ArmOfSeg(f.seg) == Deadline(cf, cs, sn) else Deadline(cf, cs, sn) == UNSENT
    decreases |cs|
  {
    if cs != [] {
      var front, c := cs[..|cs| - 1], cs[|cs| - 1];
      DeadlinesHold(cf, front, sn);
      AlwaysSound(cf, front);
      DoTicks(DoAll(cf, front), c);
      CallArms(DoAll(cf, front), c, sn, Deadline(cf, front, sn));
    }
  }

  /** In every run a flush sends a number in flight if and only if it was never
      sent, its deadline has come, or it was passed over often enough; the numbers
      that it takes from the queue it sends at once; and no other call sends any. */
  lemma SendsExactly(cf: Conf, cs: seq<Call>, c: Call, sn: int)
    ensures var k, a, f := DoAll(cf, cs), Deadline(cf, cs, sn), Flying(cf, cs, sn);
            && (!Flushes(k, c) ==> !Sends(k, c, sn))
            && (Flushes(k, c) && f.Some? ==>
                  (Sends(k, c, sn) <==>
                    a.sent == 0 || Overdue(a, CallTime(k, c)) || FastDue(cf, f.seg.fastAck, a.sent)))
            && (f.None? && Find(Do(k, c).snd.buf, sn).Some? ==> Sends(k, c, sn))
  {
    DeadlinesHold(cf, cs, sn);
    AlwaysSound(cf, cs);
    if Flushes(DoAll(cf, cs), c) {
      FlushSends(DoAll(cf, cs), c, sn, Deadline(cf, cs, sn));
    } else {
      OtherSends(DoAll(cf, cs), c, sn);
    }
  }

  lemma OtherSends(k: Kcb, c: Call, sn: int)
    requires Sound(k) && !Flushes(k, c)
    ensures !Sends(k, c, sn) && (Find(Do(k, c).snd.buf, sn).Some? ==> Find(k.snd.buf, sn).Some?)
  {
    NoFlush(k, c, sn);
    CallKeeps(k, c);
    WindowDistinct(k.snd);
    if Find(Do(k, c).snd.buf, sn).Some? {
      KeptArm(k.snd.buf, Do(k, c).snd.buf, sn);
    }
  }

  lemma FlushSends(k: Kcb, c: Call, sn: int, a: Arm)
    requires Sound(k) && Flushes(k, c)
    requires Find(k.snd.buf, sn).Some? ==> ArmOfSeg(Find(k.snd.buf, sn).seg) == a
    requires Find(k.snd.buf, sn).None? ==> a == UNSENT
    ensures var f := Find(k.snd.buf, sn);
            && (f.Some? ==> (Sends(k, c, sn) <==>
                  a.sent == 0 || Overdue(a, CallTime(k, c)) || FastDue(k.cf, f.seg.fastAck, a.sent)))
            && (f.None? && Find(Do(k, c).snd.buf, sn).Some? ==> Sends(k, c, sn))
  {
    FlushOfCall(k, c);
    SendsIsWrites(k, c, sn);
    FlushArms(AtFlush(k, c), sn, a);
  }

  // ---- in milliseconds ----

  /** The time of the last update, as the application gave it. */
  function Clock(cs: seq<Call>): nat {
    if cs == [] then 0
    else
      var c := cs[|cs| - 1];
      if c.CallUpdate? then c.now else Clock(cs[..|cs| - 1])
  }

  /** When a call that follows a run is made. */
  function When(cs: seq<Call>, c: Call): nat { if c.CallUpdate? then c.now else Clock(cs) }

  lemma {:induction false} ClockInRun(cf: Conf, cs: seq<Call>)
    ensures DoAll(cf, cs).clk.current == U32(Clock(cs))
    decreases |cs|
  {
    if cs != [] {
      var front, c := cs[..|cs| - 1], cs[|cs| - 1];
      ClockInRun(cf, front);
      DoTicks(DoAll(cf, front), c);
    }
  }

  lemma TimeInRun(cf: Conf, cs: seq<Call>, c: Call)
    ensures CallTime(DoAll(cf, cs), c) == U32(When(cs, c))
  {
    ClockInRun(cf, cs);
  }

  /** After the run `cs`, the calls `mid` neither send the number nor get it acknowledged. */
  ghost predicate Pending(cf: Conf, cs: seq<Call>, mid: seq<Call>, sn: int) {
    mid == []
    || (var n := |mid| - 1;
        && Pending(cf, cs, mid[..n], sn)
        && Flying(cf, cs + mid, sn).Some? && !Sends(DoAll(cf, cs + mid[..n]), mid[n], sn))
  }

  /** A deadline after one call more. */
  lemma DeadlineNext(cf: Conf, cs: seq<Call>, c: Call, sn: int)
    requires Flying(cf, cs + [c], sn).Some?
    ensures var k, a := DoAll(cf, cs), Deadline(cf, cs, sn);
            Deadline(cf, cs + [c], sn) == if Sends(k, c, sn) then Sent(cf, a, CallTime(k, c), k.rtt.rto) else a
  {
    assert (cs + [c])[..|cs|] == cs;
  }

  lemma {:induction false} PendingDeadline(cf: Conf, cs: seq<Call>, mid: seq<Call>, sn: int)
    requires Pending(cf, cs, mid, sn)
    ensures Deadline(cf, cs + mid, sn) == Deadline(cf, cs, sn)
    decreases |mid|
  {
    if mid == [] {
      assert cs + mid == cs;
    } else {
      var n := |mid| - 1;
      PendingDeadline(cf, cs, mid[..n], sn);
      AppendLast(cs, mid);
      DeadlineNext(cf, cs + mid[..n], mid[n], sn);
    }
  }

  lemma DueAt(t: nat, wait: nat, u: nat, due: nat)
    requires due == U32(U32(t) + wait) && -HALF <= u - (t + wait) < HALF
    ensures TimeDiff(U32(u), due) >= 0 <==> u >= t + wait
  {
    U32Add(t, wait);
    DiffExact(u, t + wait);
    DiffExact(U32(u), t + wait);
  }

  /** How long after it is sent at time `now` a number with deadline `a` is due again. */
  function WaitOf(cf: Conf, a: Arm, now: nat, rx: nat): nat {
    if a.sent == 0 then rx + if cf.nodelay then 0 else rx / 8
    else if Overdue(a, now) then Longer(cf, a.rto, rx)
    else a.rto
  }

  lemma SentWaits(cf: Conf, a: Arm, now: nat, rx: nat)
    ensures var b := Sent(cf, a, now, rx);
            && b.due == U32(now + WaitOf(cf, a, now, rx)) && b.sent == U32(a.sent + 1)
            && (a.sent > 0 ==> b.rto == WaitOf(cf, a, now, rx)) && (a.sent == 0 ==> b.rto == rx)
  {
  }

  /** How long after it was sent by the call `c` a number is due again. */
  ghost function Wait(cf: Conf, cs: seq<Call>, c: Call, sn: int): nat {
    WaitOf(cf, Deadline(cf, cs, sn), CallTime(DoAll(cf, cs), c), DoAll(cf, cs).rtt.rto)
  }

  /** Whether a number is sent at time `u` when it was sent at time `t` before. */
  predicate Again(sent: bool, t: nat, wait: nat, u: nat, fast: bool) { sent <==> u >= t + wait || fast }

  /** From deadlines to times. */
  lemma SentDue(cf: Conf, a: Arm, b: Arm, now: nat, rx: nat, t: nat, u: nat, fast: nat, sent: bool)
    requires now == U32(t) && b == Sent(cf, a, now, rx) && -HALF <= u - (t + WaitOf(cf, a, now, rx)) < HALF
    requires 0 < b.sent && (sent <==> b.sent == 0 || Overdue(b, U32(u)) || FastDue(cf, fast, b.sent))
    ensures Again(sent, t, WaitOf(cf, a, now, rx), u, FastDue(cf, fast, b.sent))
  {
    SentWaits(cf, a, now, rx);
    DueAt(t, WaitOf(cf, a, now, rx), u, b.due);
  }

  /** After a run that ends with deadline `a`, a call at time `t` sends the number and
      the calls `mid` do not. */
  lemma StillDue(cf: Conf, cs: seq<Call>, c: Call, mid: seq<Call>, sn: int, a: Arm)
    requires Sends(DoAll(cf, cs), c, sn) && Flying(cf, cs + [c], sn).Some? && Pending(cf, cs + [c], mid, sn)
    requires a == Deadline(cf, cs, sn)
    ensures Deadline(cf, cs + [c] + mid, sn) == Sent(cf, a, U32(When(cs, c)), DoAll(cf, cs).rtt.rto)
  {
    DeadlineNext(cf, cs, c, sn);
    TimeInRun(cf, cs, c);
    PendingDeadline(cf, cs + [c], mid, sn);
  }

  lemma SendsDue(cf: Conf, all: seq<Call>, d: Call, sn: int, a: Arm, u: nat)
    requires Flushes(DoAll(cf, all), d) && Flying(cf, all, sn).Some? && a == Deadline(cf, all, sn) && u == When(all, d)
    ensures Sends(DoAll(cf, all), d, sn) <==>
            a.sent == 0 || Overdue(a, U32(u)) || FastDue(cf, Flying(cf, all, sn).seg.fastAck, a.sent)
  {
    TimeInRun(cf, all, d);
    SendsExactly(cf, all, d, sn);
  }

  /** The run `cs`, then a call that sends the number at time `t`, then calls that do
      not, and then one that flushes at time `u`. It sends the number again if and
      only if the wait is over or the segment was passed over. */
  lemma SentAgain(
    cf: Conf, cs: seq<Call>, c: Call, mid: seq<Call>, d: Call, sn: int, all: seq<Call>, t: nat, u: nat, wait: nat)
    requires all == cs + [c] + mid && t == When(cs, c) && u == When(all, d)
    requires Sends(DoAll(cf, cs), c, sn) && Flying(cf, cs + [c], sn).Some? && Pending(cf, cs + [c], mid, sn)
    requires Flushes(DoAll(cf, all), d) && Flying(cf, all, sn).Some? && 0 < Deadline(cf, all, sn).sent
    requires wait == WaitOf(cf, Deadline(cf, cs, sn), U32(t), DoAll(cf, cs).rtt.rto) && -HALF <= u - (t + wait) < HALF
    ensures Again(Sends(DoAll(cf, all), d, sn), t, wait, u,
                  FastDue(cf, Flying(cf, all, sn).seg.fastAck, Deadline(cf, all, sn).sent))
  {
    var a, b := Deadline(cf, cs, sn), Deadline(cf, all, sn);
    StillDue(cf, cs, c, mid, sn, a);
    SendsDue(cf, all, d, sn, b, u);
    SentDue(cf, a, b, U32(t), DoAll(cf, cs).rtt.rto, t, u, Flying(cf, all, sn).seg.fastAck,
            Sends(DoAll(cf, all), d, sn));
  }

  /** Sent for the first time, a number waits for the timeout and an eighth of it,
      or without delay for the timeout. */
  lemma FirstWait(cf: Conf, cs: seq<Call>, c: Call, sn: int)
    requires Flying(cf, cs, sn).None? && Flying(cf, cs + [c], sn).Some?
    ensures Sends(DoAll(cf, cs), c, sn) && Deadline(cf, cs + [c], sn).sent == 1
    ensures var rto := DoAll(cf, cs).rtt.rto; Wait(cf, cs, c, sn) == rto + if cf.nodelay then 0 else rto / 8
  {
    assert (cs + [c])[..|cs|] == cs;
    DeadlinesHold(cf, cs, sn);
    SendsExactly(cf, cs, c, sn);
    DeadlineNext(cf, cs, c, sn);
    SentWaits(cf, UNSENT, CallTime(DoAll(cf, cs), c), DoAll(cf, cs).rtt.rto);
  }

  /** Each timeout lengthens the wait by the timeout of the connection, or without
      delay by half of it; and a segment sent because it was passed over keeps its
      wait and is counted from zero again. */
  lemma NextWait(cf: Conf, cs: seq<Call>, c: Call, sn: int)
    requires 0 < Deadline(cf, cs, sn).sent && Sends(DoAll(cf, cs), c, sn) && Flying(cf, cs + [c], sn).Some?
    ensures var a, now, rx := Deadline(cf, cs, sn), CallTime(DoAll(cf, cs), c), DoAll(cf, cs).rtt.rto;
            && Deadline(cf, cs + [c], sn).rto == Wait(cf, cs, c, sn)
            && (Overdue(a, now) ==> Wait(cf, cs, c, sn) == Longer(cf, a.rto, rx))
            && (!Overdue(a, now) ==> Wait(cf, cs, c, sn) == a.rto && Flying(cf, cs + [c], sn).seg.fastAck == 0)
  {
    DeadlineNext(cf, cs, c, sn);
    SentWaits(cf, Deadline(cf, cs, sn), CallTime(DoAll(cf, cs), c), DoAll(cf, cs).rtt.rto);
    DeadlinesHold(cf, cs, sn);
    FastCleared(cf, cs, c, sn);
  }

  lemma FastCleared(cf: Conf, cs: seq<Call>, c: Call, sn: int)
    requires Flying(cf, cs, sn).Some? && Sends(DoAll(cf, cs), c, sn) && Flying(cf, cs + [c], sn).Some?
    ensures var a := Deadline(cf, cs, sn);
            a.sent > 0 && !Overdue(a, CallTime(DoAll(cf, cs), c)) ==> Flying(cf, cs + [c], sn).seg.fastAck == 0
  {
    assert (cs + [c])[..|cs|] == cs;
    DeadlinesHold(cf, cs, sn);
    AlwaysSound(cf, cs);
    FastZeroed(DoAll(cf, cs), c, sn);
  }

  lemma FastZeroed(k: Kcb, c: Call, sn: int)
    requires Sound(k) && Find(k.snd.buf, sn).Some? && Sends(k, c, sn)
    ensures var s, f := Find(k.snd.buf, sn).seg, Find(Do(k, c).snd.buf, sn);
            s.xmit > 0 && !Overdue(ArmOfSeg(s), CallTime(k, c)) && f.Some? ==> f.seg.fastAck == 0
  {
    if Flushes(k, c) {
      FlushOfCall(k, c);
      SendsIsWrites(k, c, sn);
      FastZero(AtFlush(k, c), sn);
    } else {
      NoFlush(k, c, sn);
    }
  }

  lemma FastZero(k: Kcb, sn: int)
    requires Sound(k) && k.clk.updated && Find(k.snd.buf, sn).Some? && Writes(FlushWires(WRAP, k), sn)
    ensures var s, f := Find(k.snd.buf, sn).seg, Find(FlushState(WRAP, k).snd.buf, sn);
            s.xmit > 0 && !Overdue(ArmOfSeg(s), k.clk.current) && f.Some? ==> f.seg.fastAck == 0
  {
    var f1 := FlushFound(k, sn);
  }

  /** From its first sending at time `t` on, a number is sent again by the first flush
      that comes no sooner than the timeout and an eighth of it later, or without
      delay the timeout; and sooner only if it was passed over. */
  lemma FirstAgain(
    cf: Conf, cs: seq<Call>, c: Call, mid: seq<Call>, d: Call, sn: int, all: seq<Call>, t: nat, u: nat, rto: nat)
    requires all == cs + [c] + mid && t == When(cs, c) && u == When(all, d) && rto == DoAll(cf, cs).rtt.rto
    requires Flying(cf, cs, sn).None? && Flying(cf, cs + [c], sn).Some? && Pending(cf, cs + [c], mid, sn)
    requires Flushes(DoAll(cf, all), d) && Flying(cf, all, sn).Some?
    requires -HALF <= u - (t + (rto + if cf.nodelay then 0 else rto / 8)) < HALF
    ensures Again(Sends(DoAll(cf, all), d, sn), t, rto + if cf.nodelay then 0 else rto / 8, u,
                  FastDue(cf, Flying(cf, all, sn).seg.fastAck, 1))
  {
    DeadlinesHold(cf, cs, sn);
    SendsExactly(cf, cs, c, sn);
    StillDue(cf, cs, c, mid, sn, UNSENT);
    SendsDue(cf, all, d, sn, Deadline(cf, all, sn), u);
    SentDue(cf, UNSENT, Deadline(cf, all, sn), U32(t), rto, t, u, Flying(cf, all, sn).seg.fastAck,
            Sends(DoAll(cf, all), d, sn));
  }

  // ---- links that are given up ----

  /** A flush gives the link up when a segment that it sends has been sent as often
      as the dead link setting says. */
  lemma DeadExactly(k: Kcb)
    requires k.clk.updated
    ensures var buf := FlushFill(WRAP, k).snd.buf;
            FlushState(WRAP, k).dead <==>
              k.dead || exists i :: 0 <= i < |buf| && Due(k.cf, buf[i], k.clk.current)
                         && U32(buf[i].xmit + 1) >= k.cf.deadLink
  {
    var k1 := FlushFill(WRAP, k);
    var buf := k1.snd.buf;
    FillOfFlush(k);
    forall i | 0 <= i < |buf|
      ensures DeadSeg(k1, buf[i]) <==> Due(k.cf, buf[i], k.clk.current) && U32(buf[i].xmit + 1) >= k.cf.deadLink
    {
      TouchFlushes(k1, buf[i]);
    }
  }
}
