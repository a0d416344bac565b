// 32-bit modular arithmetic and the circular comparison of ikcp.c.
//
// Sequence numbers are reduced and compared through an `Arith`, which is either
// the 32-bit circular arithmetic of the source (`WRAP`) or plain integer
// arithmetic (`EXACT`). Every protocol function takes the choice as a parameter,
// so that the reasoning about delivery can be done on unbounded numbers and
// carried over to the wrapping ones.
module Circular {

  const M32: int := 0x1_0000_0000
  const HALF: int := 0x8000_0000

  type Byte = x: int | 0 <= x < 256

  function U32(x: int): (r: nat)
    ensures r < M32
    ensures 0 <= x < M32 ==> r == x
  {
    x % M32
  }

  /** A conversion to a signed 32-bit integer. */
  function I32(x: int): (r: int)
    ensures -HALF <= r < HALF
    ensures -HALF <= x < HALF ==> r == x
  {
    var d := U32(x);
    if d < HALF then d else d - M32
  }

  function TimeDiff(later: int, earlier: int): int {
    I32(later - earlier)
  }

  /** A way to reduce and to compare sequence numbers. */
  datatype Arith = Arith(norm: int -> int, diff: (int, int) -> int)

  const WRAP: Arith := Arith((x: int) => U32(x), (a: int, b: int) => TimeDiff(a, b))
  const EXACT: Arith := Arith((x: int) => x, (a: int, b: int) => a - b)

  function Min(a: int, b: int): int { if a <= b then a else b }
  function Max(a: int, b: int): int { if a >= b then a else b }
  function Abs(x: int): nat { if x >= 0 then x else -x }

  /** U32 is the only residue in range. */
  lemma Residue(x: int, q: int, r: int)
    requires x == q * M32 + r && 0 <= r < M32
    ensures U32(x) == r
  {
  }

  /** Reducing an operand first does not change a reduced sum or difference. */
  lemma U32Add(x: int, y: int)
    ensures U32(U32(x) + y) == U32(x + y)
    ensures U32(x - U32(y)) == U32(x - y)
  {
    var p, q := x / M32, y / M32;
    Residue(x + y, (U32(x) + y) / M32 + p, U32(U32(x) + y));
    Residue(x - y, (x - U32(y)) / M32 - q, U32(x - U32(y)));
  }

  /** The circular difference looks at its arguments modulo 2^32, and is the
      true difference exactly when that fits in 32 signed bits. */
  lemma DiffExact(a: int, b: int)
    ensures TimeDiff(U32(a), b) == TimeDiff(a, b) == TimeDiff(a, U32(b))
    ensures TimeDiff(a, b) == a - b <==> -HALF <= a - b < HALF
  {
    U32Add(a, -b);
    U32Add(a, b);
    if -HALF <= a - b < 0 {
      Residue(a - b, -1, a - b + M32);
    }
  }

  // ---- what both arithmetics have in common ----

  /** The distance from `base` up to `x`. */
  function Off(ar: Arith, x: int, base: int): int {
    ar.norm(x - base)
  }

  /** A number as it is stored. */
  predicate SnOk(ar: Arith, x: int) {
    ar.norm(x) == x
  }

  ghost predicate DiffLaw(ar: Arith, a: int, b: int, base: int) {
    0 <= Off(ar, a, base) <= HALF && 0 <= Off(ar, b, base) <= HALF
    && -HALF <= Off(ar, a, base) - Off(ar, b, base) < HALF
    ==> ar.diff(a, b) == Off(ar, a, base) - Off(ar, b, base)
  }

  ghost predicate RebaseLaw(ar: Arith, x: int, base: int, base': int) {
    0 <= Off(ar, base', base) <= Off(ar, x, base)
    ==> Off(ar, x, base') == Off(ar, x, base) - Off(ar, base', base)
  }

  ghost predicate StepLaw(ar: Arith, x: int, base: int, n: int) {
    0 <= n && 0 <= Off(ar, x, base) && Off(ar, x, base) + n < M32
    ==> SnOk(ar, ar.norm(x + n)) && Off(ar, ar.norm(x + n), base) == Off(ar, x, base) + n
  }

  ghost predicate ZeroLaw(ar: Arith, a: int, b: int, n: int) {
    && (0 <= n < M32 ==> Off(ar, a + n, a) == n)
    && (SnOk(ar, a) && SnOk(ar, b) && Off(ar, a, b) == 0 ==> a == b)
  }

  ghost predicate RangeLaw(ar: Arith, sn: int, nxt: int, wnd: int) {
    0 < wnd < HALF && ar.diff(sn, nxt + wnd) < 0 && ar.diff(sn, nxt) >= 0
    ==> 0 <= Off(ar, sn, nxt) < wnd
  }

  /** The laws of window arithmetic, which say nothing of how it is done. */
  ghost predicate Lawful(ar: Arith) {
    && (forall a, b, base :: DiffLaw(ar, a, b, base))
    && (forall x, base, base' :: RebaseLaw(ar, x, base, base'))
    && (forall x, base, n :: StepLaw(ar, x, base, n))
    && (forall a, b, n :: ZeroLaw(ar, a, b, n))
    && (forall sn, nxt, wnd :: RangeLaw(ar, sn, nxt, wnd))
  }

  lemma ExactLawful()
    ensures Lawful(EXACT)
  {
  }

  lemma WrapDiff(a: int, b: int, base: int)
    ensures DiffLaw(WRAP, a, b, base)
  {
    var p: int, q: int := U32(a - base), U32(b - base);
    OffsetDiff(a, b, base, p, q);
    DiffExact(p, q);
  }

  /** The difference of two offsets is the difference of the numbers. */
  lemma OffsetDiff(a: int, b: int, base: int, p: int, q: int)
    requires p == U32(a - base) && q == U32(b - base)
    ensures U32(p - q) == U32(a - b)
  {
    U32Add(a - base, -q);
    U32Add(a - base, b - base);
  }

  lemma WrapRebase(x: int, base: int, base': int)
    ensures RebaseLaw(WRAP, x, base, base')
  {
    OffsetDiff(x, base', base, U32(x - base), U32(base' - base));
  }

  lemma WrapStep(x: int, base: int, n: int)
    ensures StepLaw(WRAP, x, base, n)
  {
    U32Add(x + n, -base);
    U32Add(x - base, n);
  }

  lemma WrapRange(sn: int, nxt: int, wnd: int)
    ensures RangeLaw(WRAP, sn, nxt, wnd)
  {
    U32Add(sn - nxt, -wnd);
    assert TimeDiff(sn, nxt + wnd) == I32(U32(sn - nxt) - wnd);
  }

  lemma WrapZero(a: int, b: int, n: int)
    ensures ZeroLaw(WRAP, a, b, n)
  {
  }

  lemma WrapLawful()
    ensures Lawful(WRAP)
  {
    forall a, b, base ensures DiffLaw(WRAP, a, b, base) { WrapDiff(a, b, base); }
    forall x, base, base' ensures RebaseLaw(WRAP, x, base, base') { WrapRebase(x, base, base'); }
    forall x, base, n ensures StepLaw(WRAP, x, base, n) { WrapStep(x, base, n); }
    forall a, b, n ensures ZeroLaw(WRAP, a, b, n) { WrapZero(a, b, n); }
    forall sn, nxt, wnd ensures RangeLaw(WRAP, sn, nxt, wnd) { WrapRange(sn, nxt, wnd); }
  }

  /** Order and equality of numbers in a window are those of the distances. */
  lemma Compare(ar: Arith, a: int, b: int, base: int)
    requires Lawful(ar) && SnOk(ar, a) && SnOk(ar, b)
    requires 0 <= Off(ar, a, base) < HALF && 0 <= Off(ar, b, base) < HALF
    ensures ar.diff(a, b) == Off(ar, a, base) - Off(ar, b, base)
    ensures a == b <==> Off(ar, a, base) == Off(ar, b, base)
  {
    assert DiffLaw(ar, a, b, base);
    assert RebaseLaw(ar, a, base, b);
    assert ZeroLaw(ar, a, b, 0);
  }

  // ---- reducing unbounded numbers ----

  ghost predicate MirrorLaw(ar: Arith, a: int, b: int, n: int) {
    -HALF <= a - (b + n) < HALF
    ==> && ar.diff(ar.norm(a), ar.norm(b) + n) == a - (b + n)
        && (n == 0 ==> (ar.norm(a) == ar.norm(b) <==> a == b))
  }

  ghost predicate MirrorStep(ar: Arith, a: int, b: int) {
    && ar.norm(ar.norm(a) + 1) == ar.norm(a + 1)
    && (0 <= a - b < M32 ==> U32(ar.norm(a) - ar.norm(b)) == a - b)
  }

  /** Numbers less than half the number space apart may be reduced before
      they are compared. */
  ghost predicate Mirror(ar: Arith) {
    && (forall a, b, n :: MirrorLaw(ar, a, b, n))
    && (forall a, b :: MirrorStep(ar, a, b))
    && ar.norm(0) == 0
  }

  /** Equal residues less than 2^32 apart are equal numbers. */
  lemma ResidueInjective(a: int, b: int)
    requires U32(a) == U32(b) && -M32 < a - b < M32
    ensures a == b
  {
    assert a - b == (a / M32 - b / M32) * M32;
  }

  /** Reducing the operands first does not change a comparison. */
  lemma ReducedDiff(a: int, b: int, n: int)
    ensures TimeDiff(U32(a), U32(b) + n) == TimeDiff(a, b + n)
  {
    U32Add(b, n);
    DiffExact(a, b + n);
    DiffExact(U32(a), U32(b) + n);
    DiffExact(a, U32(b) + n);
  }

  lemma WrapMirrorLaw(a: int, b: int, n: int)
    ensures MirrorLaw(WRAP, a, b, n)
  {
    DiffExact(a, b + n);
    ReducedDiff(a, b, n);
    if n == 0 && U32(a) == U32(b) && -HALF <= a - b < HALF {
      ResidueInjective(a, b);
    }
  }

  lemma WrapMirrorStep(a: int, b: int)
    ensures MirrorStep(WRAP, a, b)
  {
    U32Add(a, 1);
    U32Add(a, -b);
    U32Add(U32(a), b);
  }

  lemma WrapMirror()
    ensures Mirror(WRAP)
  {
    forall a, b, n ensures MirrorLaw(WRAP, a, b, n) { WrapMirrorLaw(a, b, n); }
    forall a, b ensures MirrorStep(WRAP, a, b) { WrapMirrorStep(a, b); }
  }
}
