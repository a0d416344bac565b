// What acknowledgements do to the segments in flight, said by their numbers:
// which are removed, and which count as passed over.
module KcpAcks {
  import opened Circular
  import opened KcpModel
  import opened KcpWindow

  /** How far a number is above snd_una. */
  function Above(ar: Arith, s: Sender, sn: int): int { Off(ar, sn, s.una) }

  /** A number that has been issued and not acknowledged by una. */
  predicate Flying(ar: Arith, s: Sender, sn: int) { 0 <= Above(ar, s, sn) < Above(ar, s, s.nxt) }

  lemma FlyingIsInFlight(ar: Arith, s: Sender, sn: int)
    requires Lawful(ar) && SndWindow(ar, s) && SnOk(ar, sn) && Flying(ar, s, sn)
    ensures InFlight(ar, s, sn)
  {
    assert ZeroLaw(ar, s.una, s.una, 0);
    Compare(ar, sn, s.una, s.una);
    Compare(ar, sn, s.nxt, s.una);
  }

  lemma FlightRange(sn: int, una: int, f: int)
    requires 0 <= f <= MAX_FLIGHT
    ensures TimeDiff(sn, una) >= 0 && TimeDiff(sn, una + f) < 0 <==> U32(sn - una) < f
  {
    U32Add(sn - una, -f);
    assert TimeDiff(sn, una + f) == I32(U32(sn - una) - f);
    assert TimeDiff(sn, una) == I32(U32(sn - una));
  }

  /** On 32-bit numbers the guard of ikcp_parse_ack is exactly that. */
  lemma InFlightIsFlying(s: Sender, sn: int)
    requires SndWindow(WRAP, s)
    ensures InFlight(WRAP, s, sn) <==> Flying(WRAP, s, sn)
  {
    FlightRange(sn, s.una, U32(s.nxt - s.una));
    SameEnd(sn, s.una, s.nxt, U32(s.nxt - s.una));
  }

  lemma SameEnd(sn: int, una: int, nxt: int, f: int)
    requires f == U32(nxt - una)
    ensures TimeDiff(sn, nxt) == TimeDiff(sn, una + f)
  {
    U32Add(nxt - una, una);
    assert U32(una + f) == U32(nxt);
    DiffExact(sn, una + f);
    DiffExact(sn, nxt);
  }

  // ---- removal ----

  /** The segments whose number is another. */
  function Without(buf: seq<SndSeg>, sn: int): seq<SndSeg> {
    if buf == [] then [] else (if buf[0].wire.sn == sn then [] else [buf[0]]) + Without(buf[1..], sn)
  }

  ghost predicate Ordered(ar: Arith, base: int, buf: seq<SndSeg>) {
    && (forall i :: 0 <= i < |buf| ==> SnOk(ar, buf[i].wire.sn) && 0 <= Off(ar, buf[i].wire.sn, base) <= MAX_FLIGHT)
    && (forall i, j :: 0 <= i < j < |buf| ==> Off(ar, buf[i].wire.sn, base) < Off(ar, buf[j].wire.sn, base))
  }

  lemma {:induction false} WithoutNone(buf: seq<SndSeg>, sn: int)
    requires forall i :: 0 <= i < |buf| ==> buf[i].wire.sn != sn
    ensures Without(buf, sn) == buf
  {
    if buf != [] {
      WithoutNone(buf[1..], sn);
    }
  }

  lemma {:induction false} DropOneIsWithout(ar: Arith, base: int, buf: seq<SndSeg>, sn: int)
    requires Lawful(ar) && Ordered(ar, base, buf) && SnOk(ar, sn) && 0 <= Off(ar, sn, base) < HALF
    ensures DropOne(ar, buf, sn) == Without(buf, sn)
  {
    if buf != [] {
      Compare(ar, sn, buf[0].wire.sn, base);
      forall i | 0 <= i < |buf| ensures buf[i].wire.sn == sn <==> Off(ar, buf[i].wire.sn, base) == Off(ar, sn, base) {
        Compare(ar, sn, buf[i].wire.sn, base);
      }
      if ar.diff(sn, buf[0].wire.sn) <= 0 {
        WithoutNone(buf[1..], sn);
      } else {
        DropOneIsWithout(ar, base, buf[1..], sn);
      }
    }
  }

  /** ikcp_parse_ack removes every segment with the acknowledged number, and no other. */
  lemma AckRemoves(s: Sender, sn: int)
    requires SndWindow(WRAP, s) && 0 <= sn < M32
    ensures var s' := ParseAck(WRAP, s, sn);
            && s'.buf == Without(s.buf, sn) && s'.nxt == s.nxt && s'.queue == s.queue
            && s'.una == if s'.buf == [] then s.nxt else s'.buf[0].wire.sn
  {
    WrapLawful();
    InFlightIsFlying(s, sn);
    if Flying(WRAP, s, sn) {
      DropOneIsWithout(WRAP, s.una, s.buf, sn);
    } else {
      WithoutNone(s.buf, sn);
    }
  }

  /** The segments that are not before `una`. */
  function From(ar: Arith, base: int, buf: seq<SndSeg>, una: int): seq<SndSeg> {
    if buf == [] then []
    else
      (if Off(ar, buf[0].wire.sn, base) < Off(ar, una, base) then [] else [buf[0]]) + From(ar, base, buf[1..], una)
  }

  lemma {:induction false} FromAll(ar: Arith, base: int, buf: seq<SndSeg>, una: int)
    requires forall i :: 0 <= i < |buf| ==> Off(ar, una, base) <= Off(ar, buf[i].wire.sn, base)
    ensures From(ar, base, buf, una) == buf
  {
    if buf != [] {
      FromAll(ar, base, buf[1..], una);
    }
  }

  lemma {:induction false} DropBelowIsFrom(ar: Arith, base: int, buf: seq<SndSeg>, una: int)
    requires Lawful(ar) && Ordered(ar, base, buf) && SnOk(ar, una) && 0 <= Off(ar, una, base) < HALF
    ensures DropBelow(ar, buf, una) == From(ar, base, buf, una)
  {
    if buf != [] {
      Compare(ar, una, buf[0].wire.sn, base);
      if ar.diff(una, buf[0].wire.sn) > 0 {
        DropBelowIsFrom(ar, base, buf[1..], una);
      } else {
        FromAll(ar, base, buf, una);
      }
    }
  }

  /** ikcp_parse_una removes exactly the segments before `una`, if that is not
      itself before snd_una. */
  lemma UnaRemoves(ar: Arith, s: Sender, una: int)
    requires Lawful(ar) && SndWindow(ar, s) && SnOk(ar, una) && 0 <= Above(ar, s, una) < HALF
    ensures var s' := ParseUna(ar, s, una);
            && s'.buf == From(ar, s.una, s.buf, una) && s'.nxt == s.nxt && s'.queue == s.queue
            && s'.una == if s'.buf == [] then s.nxt else s'.buf[0].wire.sn
  {
    DropBelowIsFrom(ar, s.una, s.buf, una);
  }

  // ---- segments passed over ----

  /** A segment is passed over when a later number is acknowledged before its own. */
  predicate Passed(ar: Arith, base: int, seg: SndSeg, sn: int) {
    Off(ar, seg.wire.sn, base) < Off(ar, sn, base)
  }

  /** `seg` with its count one higher, in 32 bits, if it is passed over. */
  predicate Counted(ar: Arith, base: int, seg: SndSeg, seg': SndSeg, sn: int) {
    && seg'.wire == seg.wire && seg'.resendTs == seg.resendTs && seg'.rto == seg.rto && seg'.xmit == seg.xmit
    && seg'.fastAck == if Passed(ar, base, seg, sn) then (seg.fastAck + 1) % M32 else seg.fastAck
  }

  ghost predicate AllCounted(ar: Arith, base: int, buf: seq<SndSeg>, buf': seq<SndSeg>, sn: int) {
    |buf'| == |buf| && forall i :: 0 <= i < |buf| ==> Counted(ar, base, buf[i], buf'[i], sn)
  }

  lemma {:induction false} BumpCounts(ar: Arith, base: int, buf: seq<SndSeg>, sn: int)
    requires Lawful(ar) && Ordered(ar, base, buf) && SnOk(ar, sn) && 0 <= Off(ar, sn, base) < HALF
    ensures AllCounted(ar, base, buf, BumpSkipped(ar, buf, sn), sn)
  {
    if buf != [] {
      var buf' := BumpSkipped(ar, buf, sn);
      Compare(ar, sn, buf[0].wire.sn, base);
      if ar.diff(sn, buf[0].wire.sn) >= 0 {
        BumpCounts(ar, base, buf[1..], sn);
        forall i | 0 <= i < |buf| ensures Counted(ar, base, buf[i], buf'[i], sn) {
          if i > 0 {
            assert buf'[i] == BumpSkipped(ar, buf[1..], sn)[i - 1] && buf[i] == buf[1..][i - 1];
          }
        }
      } else {
        forall i | 0 <= i < |buf| ensures !Passed(ar, base, buf[i], sn) {
        }
      }
    }
  }

  /** ikcp_parse_fastack for a number in flight: each segment with a number before
      it has been passed over once more, and nothing else changes. */
  lemma FastAckCounts(ar: Arith, s: Sender, sn: int)
    requires Lawful(ar) && SndWindow(ar, s) && SnOk(ar, sn) && Flying(ar, s, sn)
    ensures var s' := ParseFastAck(ar, s, sn); s' == s.(buf := s'.buf) && AllCounted(ar, s.una, s.buf, s'.buf, sn)
  {
    FlyingIsInFlight(ar, s, sn);
    BumpCounts(ar, s.una, s.buf, sn);
  }

  /** Other numbers count for nothing. */
  lemma FastAckIgnores(s: Sender, sn: int)
    requires SndWindow(WRAP, s) && 0 <= sn < M32 && !Flying(WRAP, s, sn)
    ensures ParseFastAck(WRAP, s, sn) == s
  {
    InFlightIsFlying(s, sn);
  }
}
