// How often a segment is passed over, in every run: once by each datagram that
// acknowledges a later number before its own; and when that gets it sent again.
module KcpFast {
  import opened Circular
  import opened Seqs
  import opened KcpModel
  import opened KcpWindow
  import opened KcpWire
  import opened KcpEndpoint
  import opened KcpAcks
  import R = KcpResend

  // ---- the largest number that a datagram acknowledges ----

  /** The number kept by the loop of ikcp_input over a datagram. */
  function Acked(conv: nat, m: MaxAck, d: seq<Byte>): MaxAck
    decreases |d|
  {
    match ParseOne(conv, d)
    case Got(w, rest) => Acked(conv, NoteSeg(WRAP, m, w), rest)
    case _ => m
  }

  /** The loop comes to the end of the datagram. */
  predicate Whole(conv: nat, d: seq<Byte>)
    decreases |d|
  {
    match ParseOne(conv, d)
    case Stop => true
    case Fail(_) => false
    case Got(_, rest) => Whole(conv, rest)
  }

  /** The numbers that a datagram acknowledges. */
  function Acks(conv: nat, d: seq<Byte>): seq<int>
    decreases |d|
  {
    match ParseOne(conv, d)
    case Got(w, rest) => (if w.cmd == CMD_ACK then [w.sn] else []) + Acks(conv, rest)
    case _ => []
  }

  /** `m` is the largest of some numbers, counted upwards from `base`. */
  ghost predicate Largest(base: int, sns: seq<int>, m: MaxAck) {
    if m.NoAck? then sns == []
    else m.sn in sns && forall sn | sn in sns :: U32(sn - base) <= U32(m.sn - base)
  }

  ghost predicate Upwards(base: int, sns: seq<int>) { forall sn | sn in sns :: 0 <= sn < M32 && U32(sn - base) < HALF }

  lemma NoteLarger(base: int, sns: seq<int>, m: MaxAck, sn: int)
    requires Upwards(base, sns + [sn]) && Largest(base, sns, m)
    ensures Largest(base, sns + [sn], NoteAck(WRAP, m, sn))
  {
    assert sn in sns + [sn];
    if m.MaxAck? {
      assert m.sn in sns + [sn];
      CompareUp(sn, m.sn, base);
    }
  }

  lemma CompareUp(a: int, b: int, base: int)
    requires 0 <= a < M32 && 0 <= b < M32 && U32(a - base) < HALF && U32(b - base) < HALF
    ensures WRAP.diff(a, b) > 0 <==> U32(a - base) > U32(b - base)
  {
    WrapLawful();
    Compare(WRAP, a, b, base);
  }

  lemma {:induction false} AckedIsLargest(base: int, conv: nat, sns: seq<int>, m: MaxAck, d: seq<Byte>)
    requires Largest(base, sns, m) && Upwards(base, sns + Acks(conv, d))
    ensures Largest(base, sns + Acks(conv, d), Acked(conv, m, d))
    decreases |d|
  {
    var p := ParseOne(conv, d);
    if p.Got? {
      var more := if p.w.cmd == CMD_ACK then [p.w.sn] else [];
      Assoc(sns, more, Acks(conv, p.rest));
      if p.w.cmd == CMD_ACK {
        forall sn | sn in sns + [p.w.sn] ensures sn in sns + Acks(conv, d) {
          assert sn in sns + more + Acks(conv, p.rest);
        }
        NoteLarger(base, sns, m, p.w.sn);
      } else {
        assert sns + more == sns;
      }
      AckedIsLargest(base, conv, sns + more, NoteSeg(WRAP, m, p.w), p.rest);
    } else {
      assert sns + [] == sns;
    }
  }

  /** The number that ikcp_input counts by is the largest one acknowledged by the
      datagram, counted from snd_una upwards. */
  lemma LargestAcked(k: Kcb, d: seq<Byte>)
    requires Upwards(k.snd.una, Acks(k.cf.conv, d))
    ensures Largest(k.snd.una, Acks(k.cf.conv, d), Acked(k.cf.conv, NoAck, d))
  {
    assert [] + Acks(k.cf.conv, d) == Acks(k.cf.conv, d);
    AckedIsLargest(k.snd.una, k.cf.conv, [], NoAck, d);
  }

  // ---- one datagram ----

  /** Some segments of `buf`, unchanged. */
  ghost predicate Some(buf: seq<SndSeg>, buf': seq<SndSeg>) { forall t | t in buf' :: t in buf }

  lemma SegLeaves(k: Kcb, w: Wire)
    ensures Some(k.snd.buf, InputSeg(WRAP, k, w).snd.buf)
  {
    var s := ParseUna(WRAP, k.snd, w.una);
    DropBelowSuffix(WRAP, k.snd.buf, w.una);
    var i := DropOneAt(WRAP, s.buf, w.sn);
  }

  /** The number that a datagram counts by, if it is read to its end. */
  function CountsBy(conv: nat, m: MaxAck, d: seq<Byte>): MaxAck { if Whole(conv, d) then Acked(conv, m, d) else NoAck }

  function CountedSender(s: Sender, m: MaxAck): Sender { if m.MaxAck? then ParseFastAck(WRAP, s, m.sn) else s }

  ghost predicate AckOk(m: MaxAck) { m.MaxAck? ==> 0 <= m.sn < M32 }

  /** Of the segments in `buf`, those in `s` remain before the counting. */
  ghost predicate Leaves(buf: seq<SndSeg>, s: Sender) { Some(buf, s.buf) && SndWindow(WRAP, s) }

  lemma {:induction false} InputCounts(k: Kcb, m: MaxAck, prevUna: int, cmd: int, d: seq<Byte>) returns (s: Sender)
    requires Sound(k) && AckOk(m)
    ensures Leaves(k.snd.buf, s) && AckOk(CountsBy(k.cf.conv, m, d))
    ensures InputBytesFrom(WRAP, k, m, prevUna, cmd, d).1.snd == CountedSender(s, CountsBy(k.cf.conv, m, d))
    decreases |d|
  {
    var p := ParseOne(k.cf.conv, d);
    if p.Got? {
      var k1 := InputSeg(WRAP, k, p.w);
      SegLeaves(k, p.w);
      InputSegSound(k, p.w);
      SameConv(k, p.w);
      s := InputCounts(k1, NoteSeg(WRAP, m, p.w), prevUna, p.w.cmd, p.rest);
    } else {
      s := k.snd;
    }
  }

  lemma SameConv(k: Kcb, w: Wire)
    ensures InputSeg(WRAP, k, w).cf == k.cf
  {
  }

  predicate PassedIn(s: Sender, m: MaxAck, sn: int) {
    m.MaxAck? && Flying(WRAP, s, m.sn) && Off(WRAP, sn, s.una) < Off(WRAP, m.sn, s.una)
  }

  /** A datagram passes the number over: it acknowledges a later one in flight. */
  predicate PassesOver(k: Kcb, d: seq<Byte>, sn: int) {
    |d| >= OVERHEAD && PassedIn(InputBytes(WRAP, k, d).1.snd, CountsBy(k.cf.conv, NoAck, d), sn)
  }

  /** What is found is as it was, but for one more count if it was passed over. */
  predicate FoundCounted(f: R.Found, f': R.Found, passed: bool) {
    f'.Some? ==>
      && f.Some?
      && f'.seg == f.seg.(fastAck := if passed then U32(f.seg.fastAck + 1) else f.seg.fastAck)
  }

  /** After a datagram, a segment still in flight has been passed over once more if
      the datagram acknowledged a later number, and is otherwise as it was. */
  lemma DatagramCounts(k: Kcb, d: seq<Byte>, sn: int)
    requires Sound(k)
    ensures FoundCounted(R.Find(k.snd.buf, sn), R.Find(InputBytes(WRAP, k, d).1.snd.buf, sn), PassesOver(k, d, sn))
  {
    R.WindowDistinct(k.snd);
    if |d| >= OVERHEAD {
      var m := CountsBy(k.cf.conv, NoAck, d);
      var s := InputCounts(k, NoAck, k.snd.una, 0, d);
      var s' := InputBytes(WRAP, k, d).1.snd;
      assert s' == CountedSender(s, m);
      CountFound(s, m, sn, s');
      SomeFound(k.snd.buf, s.buf, sn);
    }
  }

  lemma SomeFound(buf: seq<SndSeg>, buf': seq<SndSeg>, sn: int)
    requires R.Distinct(buf) && Some(buf, buf')
    ensures R.Find(buf', sn).Some? ==> R.Find(buf, sn) == R.Find(buf', sn)
  {
    R.FindAt(buf', sn);
    if R.Find(buf', sn).Some? {
      var i :| 0 <= i < |buf| && buf[i] == R.Find(buf', sn).seg;
      R.FindIs(buf, i);
    }
  }

  /** ikcp_parse_fastack, for the segment with one number. */
  lemma CountFound(s: Sender, m: MaxAck, sn: int, s': Sender)
    requires SndWindow(WRAP, s) && AckOk(m) && s' == CountedSender(s, m)
    ensures FoundCounted(R.Find(s.buf, sn), R.Find(s'.buf, sn), PassedIn(s', m, sn))
  {
    if m.MaxAck? {
      if Flying(WRAP, s, m.sn) {
        R.WindowDistinct(s);
        WrapLawful();
        FastAckCounts(WRAP, s, m.sn);
        R.FindPair(s.buf, s'.buf, sn);
        R.FindAt(s.buf, sn);
      } else {
        FastAckIgnores(s, m.sn);
      }
    }
  }

  // ---- every run ----

  /** A call after a run passes the number over. */
  predicate CallPasses(k: Kcb, c: Call, sn: int) { c.CallInput? && PassesOver(k, c.d, sn) }

  /** A call sends the number because it was passed over. */
  ghost predicate SendsFast(cf: Conf, cs: seq<Call>, c: Call, sn: int) {
    var k, a := DoAll(cf, cs), R.Deadline(cf, cs, sn);
    R.Sends(k, c, sn) && a.sent > 0 && !R.Overdue(a, R.CallTime(k, c))
  }

  /** How often the number was passed over since it was sent, or sent again for that
      reason; from what was sent and what arrived. */
  ghost function Skips(cf: Conf, cs: seq<Call>, sn: int): nat {
    if cs == [] || R.Flying(cf, cs, sn).None? then 0
    else
      var front, c := cs[..|cs| - 1], cs[|cs| - 1];
      NextSkips(R.Flying(cf, front, sn), SendsFast(cf, front, c, sn), CallPasses(DoAll(cf, front), c, sn),
                Skips(cf, front, sn))
  }

  /** A flush sends a segment because it was passed over. */
  predicate FastSent(f: R.Found, sends: bool, now: nat) {
    sends && f.Some? && f.seg.xmit > 0 && !R.Overdue(R.ArmOfSeg(f.seg), now)
  }

  /** The count after a flush. */
  predicate Recounted(f: R.Found, f': R.Found, sends: bool, now: nat) {
    f'.Some? ==> f'.seg.fastAck == if f.None? || FastSent(f, sends, now) then 0 else f.seg.fastAck
  }

  lemma PassRecounts(cf: Conf, f: R.Found, f1: R.Found, f': R.Found, sends: bool, now: nat, rx: nat)
    requires R.Passes(cf, f, f1, f', sends, now, rx)
    ensures Recounted(f, f', sends, now)
  {
  }

  lemma FlushRecounts(k: Kcb, sn: int)
    requires Sound(k) && k.clk.updated
    ensures Recounted(R.Find(k.snd.buf, sn), R.Find(FlushState(WRAP, k).snd.buf, sn), R.Writes(FlushWires(WRAP, k), sn),
                      k.clk.current)
  {
    var f1 := R.FlushFound(k, sn);
    PassRecounts(k.cf, R.Find(k.snd.buf, sn), f1, R.Find(FlushState(WRAP, k).snd.buf, sn),
                 R.Writes(FlushWires(WRAP, k), sn), k.clk.current, k.rtt.rto);
  }

  lemma FlushSkips(k: Kcb, c: Call, sn: int)
    requires Sound(k) && R.Flushes(k, c)
    ensures Recounted(R.Find(k.snd.buf, sn), R.Find(Do(k, c).snd.buf, sn), R.Sends(k, c, sn), R.CallTime(k, c))
  {
    R.FlushOfCall(k, c);
    R.SendsIsWrites(k, c, sn);
    FlushRecounts(R.AtFlush(k, c), sn);
  }

  /** Any other call. */
  lemma OtherSkips(k: Kcb, c: Call, sn: int)
    requires Sound(k) && !R.Flushes(k, c)
    ensures FoundCounted(R.Find(k.snd.buf, sn), R.Find(Do(k, c).snd.buf, sn), CallPasses(k, c, sn))
    ensures !R.Sends(k, c, sn)
  {
    R.NoFlush(k, c, sn);
    if c.CallInput? {
      DatagramCounts(k, c.d, sn);
    }
  }

  /** The count after a call, for a number in flight that was passed over `n` times. */
  function NextSkips(f: R.Found, fast: bool, passed: bool, n: nat): nat {
    if f.None? || fast then 0 else if passed then U32(n + 1) else n
  }

  lemma CallSkips(k: Kcb, c: Call, sn: int)
    requires Sound(k) && R.Find(Do(k, c).snd.buf, sn).Some?
    ensures var f, f' := R.Find(k.snd.buf, sn), R.Find(Do(k, c).snd.buf, sn);
            f'.seg.fastAck == NextSkips(f, FastSent(f, R.Sends(k, c, sn), R.CallTime(k, c)), CallPasses(k, c, sn),
                                        if f.None? then 0 else f.seg.fastAck)
  {
    if R.Flushes(k, c) {
      FlushSkips(k, c, sn);
    } else {
      OtherSkips(k, c, sn);
    }
  }

  /** In every run, whatever bytes arrive, the count of a segment in flight is that
      of the datagrams that passed its number over. */
  lemma {:induction false} SkipsHold(cf: Conf, cs: seq<Call>, sn: int)
    ensures R.Flying(cf, cs, sn).Some? ==> R.Flying(cf, cs, sn).seg.fastAck == Skips(cf, cs, sn)
    decreases |cs|
  {
    if cs != [] && R.Flying(cf, cs, sn).Some? {
      SkipsHold(cf, cs[..|cs| - 1], sn);
      LastSkips(cf, cs, sn, cs[..|cs| - 1], cs[|cs| - 1], Skips(cf, cs[..|cs| - 1], sn));
    }
  }

  lemma LastSkips(cf: Conf, cs: seq<Call>, sn: int, front: seq<Call>, c: Call, n: nat)
    requires cs != [] && front == cs[..|cs| - 1] && c == cs[|cs| - 1] && n == Skips(cf, front, sn)
    requires R.Flying(cf, cs, sn).Some? && (R.Flying(cf, front, sn).Some? ==> R.Flying(cf, front, sn).seg.fastAck == n)
    ensures R.Flying(cf, cs, sn).seg.fastAck == Skips(cf, cs, sn)
  {
    R.DeadlinesHold(cf, front, sn);
    AlwaysSound(cf, front);
    CallSkips(DoAll(cf, front), c, sn);
  }

  /** In every run a flush sends a number in flight if and only if it was never sent,
      its deadline has come, or it was passed over as often as the setting says and
      has not been sent too often for that. */
  lemma FlushSendsExactly(cf: Conf, cs: seq<Call>, c: Call, sn: int)
    requires R.Flushes(DoAll(cf, cs), c) && R.Flying(cf, cs, sn).Some?
    ensures var k, a := DoAll(cf, cs), R.Deadline(cf, cs, sn);
            R.Sends(k, c, sn) <==>
              a.sent == 0 || R.Overdue(a, R.CallTime(k, c)) || R.FastDue(cf, Skips(cf, cs, sn), a.sent)
  {
    R.SendsExactly(cf, cs, c, sn);
    SkipsHold(cf, cs, sn);
  }
}
