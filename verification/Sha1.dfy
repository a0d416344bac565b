// The unrolled SHA-1 of include/websocket/wsock_shakehand.hpp, which keeps the
// registers in place and rotates their indices, and keeps the last 16 words of
// the schedule in a circle. It is proved to be the compression function of
// section 6.1.2 of FIPS 180-4.
module Sha1 {

  type Word = bv32

  // ---- operations on words ----

  /** The operations of a round. They are a parameter of the algorithm, so that
      the reasoning about indices does not look into bits. */
  datatype Ops = Ops(
    /** The new register from e, f(b, c, d), the schedule's word, the constant and a rotated by 5. */
    sum: (Word, Word, Word, Word, Word) -> Word,
    /** The round's function of b, c and d. */
    f: (nat, Word, Word, Word) -> Word,
    k: nat -> Word,
    rol5: Word -> Word,
    rol30: Word -> Word,
    /** A word of the schedule from those 3, 8, 14 and 16 places before it. */
    mix: (Word, Word, Word, Word) -> Word,
    /** The addition that ends a block. */
    plus: (Word, Word) -> Word)

  function Rol(x: Word, n: nat): Word
    requires n <= 32
  {
    (x << n) | (x >> (32 - n))
  }

  function Ch(x: Word, y: Word, z: Word): Word { (x & y) ^ (!x & z) }
  function Parity(x: Word, y: Word, z: Word): Word { x ^ y ^ z }
  function Maj(x: Word, y: Word, z: Word): Word { (x & y) ^ (x & z) ^ (y & z) }

  function F(t: nat, x: Word, y: Word, z: Word): Word {
    if t < 20 then Ch(x, y, z)
    else if t < 40 then Parity(x, y, z)
    else if t < 60 then Maj(x, y, z)
    else Parity(x, y, z)
  }

  function K(t: nat): Word {
    if t < 20 then 0x5a827999
    else if t < 40 then 0x6ed9eba1
    else if t < 60 then 0x8f1bbcdc
    else 0xca62c1d6
  }

  /** The round functions as the source writes them. */
  function ShortF(t: nat, x: Word, y: Word, z: Word): Word {
    if t < 20 then ShortCh(x, y, z)
    else if t < 40 then x ^ y ^ z
    else if t < 60 then ShortMaj(x, y, z)
    else x ^ y ^ z
  }

  function ShortCh(x: Word, y: Word, z: Word): Word { (x & (y ^ z)) ^ z }
  function ShortMaj(x: Word, y: Word, z: Word): Word { ((x | y) & z) | (x & y) }

  /** The operations of sections 4.1.1, 4.2.1 and 6.1.2 of FIPS 180-4. */
  const STANDARD: Ops := Ops(
    (e: Word, f: Word, w: Word, k: Word, r: Word) => r + f + e + k + w,
    (t: nat, x: Word, y: Word, z: Word) => F(t, x, y, z),
    (t: nat) => K(t),
    (x: Word) => Rol(x, 5),
    (x: Word) => Rol(x, 30),
    (x: Word, y: Word, z: Word, u: Word) => Rol(x ^ y ^ z ^ u, 1),
    (x: Word, y: Word) => x + y)

  /** The operations as the source writes them. */
  const SOURCE: Ops := Ops(
    (e: Word, f: Word, w: Word, k: Word, r: Word) => e + (f + w + k + r),
    (t: nat, x: Word, y: Word, z: Word) => ShortF(t, x, y, z),
    (t: nat) => K(t),
    (x: Word) => Rol(x, 5),
    (x: Word) => Rol(x, 30),
    (x: Word, y: Word, z: Word, u: Word) => Rol(x ^ y ^ z ^ u, 1),
    (x: Word, y: Word) => x + y)

  /** Two sets of operations that agree on all words. */
  ghost predicate Agree(p: Ops, q: Ops) {
    && (forall e, f, w, k, r :: p.sum(e, f, w, k, r) == q.sum(e, f, w, k, r))
    && (forall t, x, y, z :: p.f(t, x, y, z) == q.f(t, x, y, z))
    && (forall t :: p.k(t) == q.k(t))
    && (forall x :: p.rol5(x) == q.rol5(x))
    && (forall x :: p.rol30(x) == q.rol30(x))
    && (forall x, y, z, u :: p.mix(x, y, z, u) == q.mix(x, y, z, u))
    && (forall x, y :: p.plus(x, y) == q.plus(x, y))
  }

  lemma ChBits(x: Word, y: Word, z: Word)
    ensures (x & (y ^ z)) ^ z == (x & y) ^ (!x & z)
  {
  }

  lemma MajBits(x: Word, y: Word, z: Word)
    ensures ((x | y) & z) | (x & y) == (x & y) ^ (x & z) ^ (y & z)
  {
  }

  lemma ChForm(x: Word, y: Word, z: Word)
    ensures ShortCh(x, y, z) == Ch(x, y, z)
  {
    ChBits(x, y, z);
  }

  lemma MajForm(x: Word, y: Word, z: Word)
    ensures ShortMaj(x, y, z) == Maj(x, y, z)
  {
    MajBits(x, y, z);
  }

  lemma ShortForms(t: nat, x: Word, y: Word, z: Word)
    ensures ShortF(t, x, y, z) == F(t, x, y, z)
  {
    if t < 20 {
      ChForm(x, y, z);
    } else if 40 <= t < 60 {
      MajForm(x, y, z);
    }
  }

  lemma SumAgrees()
    ensures forall e, f, w, k, r :: SOURCE.sum(e, f, w, k, r) == STANDARD.sum(e, f, w, k, r)
  {
  }

  lemma FunctionAgrees(t: nat, x: Word, y: Word, z: Word)
    ensures SOURCE.f(t, x, y, z) == STANDARD.f(t, x, y, z)
  {
    ShortForms(t, x, y, z);
  }

  lemma RestAgrees()
    ensures forall t :: SOURCE.k(t) == STANDARD.k(t)
    ensures forall x :: SOURCE.rol5(x) == STANDARD.rol5(x) && SOURCE.rol30(x) == STANDARD.rol30(x)
    ensures forall x, y, z, u :: SOURCE.mix(x, y, z, u) == STANDARD.mix(x, y, z, u)
    ensures forall x, y :: SOURCE.plus(x, y) == STANDARD.plus(x, y)
  {
  }

  /** The source's short forms of the round functions, and its order of adding,
      compute what the standard's do. */
  lemma SourceAgrees()
    ensures Agree(SOURCE, STANDARD)
  {
    SumAgrees();
    RestAgrees();
    forall t: nat, x: Word, y: Word, z: Word ensures SOURCE.f(t, x, y, z) == STANDARD.f(t, x, y, z) {
      FunctionAgrees(t, x, y, z);
    }
  }

  // ---- the textbook form ----

  datatype Regs = Regs(a: Word, b: Word, c: Word, d: Word, e: Word)

  /** The message schedule of 80 words. */
  function W(ops: Ops, m: seq<Word>, t: nat): Word
    requires |m| == 16
  {
    if t < 16 then m[t]
    else ops.mix(W(ops, m, t - 3), W(ops, m, t - 8), W(ops, m, t - 14), W(ops, m, t - 16))
  }

  function Round(ops: Ops, r: Regs, t: nat, w: Word): Regs {
    var T := ops.sum(r.e, ops.f(t, r.b, r.c, r.d), w, ops.k(t), ops.rol5(r.a));
    Regs(T, r.a, ops.rol30(r.b), r.c, r.d)
  }

  type Schedule = nat -> Word

  function Rounds(ops: Ops, r: Regs, w: Schedule, t: nat): Regs {
    if t == 0 then r else Round(ops, Rounds(ops, r, w, t - 1), t - 1, w(t - 1))
  }

  const ROUNDS: nat := 80

  function Added(ops: Ops, h: seq<Word>, v: Regs): (r: seq<Word>)
    requires |h| == 5
    ensures |r| == 5
  {
    [ops.plus(h[0], v.a), ops.plus(h[1], v.b), ops.plus(h[2], v.c), ops.plus(h[3], v.d), ops.plus(h[4], v.e)]
  }

  function Compress(ops: Ops, h: seq<Word>, m: seq<Word>): (r: seq<Word>)
    requires |h| == 5 && |m| == 16
    ensures |r| == 5
  {
    Added(ops, h, Rounds(ops, Regs(h[0], h[1], h[2], h[3], h[4]), (t: nat) => W(ops, m, t), ROUNDS))
  }

  lemma {:induction false} ScheduleAgrees(p: Ops, q: Ops, m: seq<Word>, t: nat)
    requires |m| == 16 && Agree(p, q)
    ensures W(p, m, t) == W(q, m, t)
  {
    if t >= 16 {
      ScheduleAgrees(p, q, m, t - 3);
      ScheduleAgrees(p, q, m, t - 8);
      ScheduleAgrees(p, q, m, t - 14);
      ScheduleAgrees(p, q, m, t - 16);
    }
  }

  lemma {:induction false} RoundsAgree(p: Ops, q: Ops, r: Regs, v: Schedule, w: Schedule, t: nat)
    requires Agree(p, q) && forall s :: v(s) == w(s)
    ensures Rounds(p, r, v, t) == Rounds(q, r, w, t)
  {
    if t > 0 {
      RoundsAgree(p, q, r, v, w, t - 1);
    }
  }

  lemma CompressAgrees(p: Ops, q: Ops, h: seq<Word>, m: seq<Word>)
    requires |h| == 5 && |m| == 16 && Agree(p, q)
    ensures Compress(p, h, m) == Compress(q, h, m)
  {
    forall t: nat ensures W(p, m, t) == W(q, m, t) {
      ScheduleAgrees(p, q, m, t);
    }
    RoundsAgree(p, q, Regs(h[0], h[1], h[2], h[3], h[4]), (t: nat) => W(p, m, t), (t: nat) => W(q, m, t), ROUNDS);
  }

  // ---- rotating registers and the circular schedule ----

  /** The registers, where round `t` finds them. */
  predicate Holds(a: seq<Word>, t: nat, r: Regs) {
    && |a| == 5
    && a[t % 5] == r.e && a[(t + 1) % 5] == r.d && a[(t + 2) % 5] == r.c
    && a[(t + 3) % 5] == r.b && a[(t + 4) % 5] == r.a
  }

  /** Rewriting two places of the array is a whole round. */
  lemma HoldsNext(a: seq<Word>, t: nat, r: Regs, x: Word, y: Word)
    requires Holds(a, t, r)
    ensures Holds(a[t % 5 := x][(t + 3) % 5 := y], t + 1, Regs(x, r.a, y, r.c, r.d))
  {
    Rotated(t, 1);
    Rotated(t, 2);
    Rotated(t, 3);
    Rotated(t, 4);
    assert (t + 1 + 4) % 5 == t % 5;
  }

  /** A word of a schedule is mixed from four earlier ones. */
  predicate Mixed(ops: Ops, w: Schedule, t: nat) {
    t >= 16 ==> w(t) == ops.mix(w(t - 3), w(t - 8), w(t - 14), w(t - 16))
  }

  ghost predicate IsSchedule(ops: Ops, w: Schedule) { forall t: nat :: Mixed(ops, w, t) }

  /** The circle holds the schedule's last 16 words before word `t`. */
  ghost predicate Window(b: seq<Word>, w: Schedule, t: nat) {
    |b| == 16 && forall s: nat | (s < t || s < 16) && t <= s + 16 :: b[s % 16] == w(s)
  }

  /** The macro `blk`; the source masks its indices with 15. */
  function Blk(ops: Ops, b: seq<Word>, i: nat): Word
    requires |b| == 16 && i < 16
  {
    ops.mix(b[(i + 13) % 16], b[(i + 8) % 16], b[(i + 2) % 16], b[i])
  }

  lemma Back(t: nat, n: nat)
    requires n <= 16 <= t
    ensures (t % 16 + (16 - n)) % 16 == (t - n) % 16
  {
  }

  lemma BlkIsWord(ops: Ops, b: seq<Word>, w: Schedule, t: nat)
    requires t >= 16 && Window(b, w, t) && Mixed(ops, w, t)
    ensures Blk(ops, b, t % 16) == w(t)
  {
    Back(t, 3);
    Back(t, 8);
    Back(t, 14);
    Back(t, 16);
    var x, y, z, u := b[(t - 3) % 16], b[(t - 8) % 16], b[(t - 14) % 16], b[(t - 16) % 16];
    assert x == w(t - 3) && y == w(t - 8) && z == w(t - 14) && u == w(t - 16);
  }

  lemma WindowKeeps(b: seq<Word>, w: Schedule, t: nat)
    requires t >= 16 && Window(b, w, t)
    ensures Window(b[t % 16 := w(t)], w, t + 1)
  {
    var b' := b[t % 16 := w(t)];
    forall s: nat | (s < t + 1 || s < 16) && t + 1 <= s + 16 ensures b'[s % 16] == w(s) {
      if s < t {
        assert s % 16 != t % 16;
        assert b[s % 16] == w(s);
      }
    }
  }

  lemma WindowAt(b: seq<Word>, w: Schedule, t: nat)
    requires t < 16 && Window(b, w, t)
    ensures b[t] == w(t)
  {
    assert t % 16 == t;
  }

  lemma WindowStays(b: seq<Word>, w: Schedule, t: nat)
    requires t < 16 && Window(b, w, t)
    ensures Window(b, w, t + 1)
  {
  }

  // ---- the unrolled loops ----

  lemma Rotated(j: nat, n: nat)
    requires n < 5
    ensures (j + n) % 5 == if j % 5 + n < 5 then j % 5 + n else j % 5 + n - 5
  {
  }

  lemma SameRotation(j: nat, t: nat)
    requires j % 5 == t % 5
    ensures (1 + j) % 5 == (t + 1) % 5 && (2 + j) % 5 == (t + 2) % 5
    ensures (3 + j) % 5 == (t + 3) % 5 && (4 + j) % 5 == (t + 4) % 5
  {
    Rotated(j, 1);
    Rotated(j, 2);
    Rotated(j, 3);
    Rotated(j, 4);
    Rotated(t, 1);
    Rotated(t, 2);
    Rotated(t, 3);
    Rotated(t, 4);
  }

  /** The part that all loops share, at rotation `j`. */
  method Rotate(ops: Ops, a: array<Word>, j: nat, t: nat, w: Word, ghost v: Regs)
    requires a.Length == 5 && j % 5 == t % 5 && Holds(a[..], t, v)
    modifies a
    ensures Holds(a[..], t + 1, Round(ops, v, t, w))
  {
    SameRotation(j, t);
    var e, d, c, b, r := a[j % 5], a[(1 + j) % 5], a[(2 + j) % 5], a[(3 + j) % 5], a[(4 + j) % 5];
    var x, y := ops.sum(e, ops.f(t, b, c, d), w, ops.k(t), ops.rol5(r)), ops.rol30(b);
    HoldsNext(a[..], t, v, x, y);
    ghost var was := a[..];
    a[j % 5] := x;
    a[(3 + j) % 5] := y;
    assert a[..] == was[t % 5 := x][(t + 3) % 5 := y];
  }

  /** One word of the schedule, put in place of the oldest. */
  method Extend(ops: Ops, b: array<Word>, i: nat, ghost w: Schedule, ghost t: nat)
    requires b.Length == 16 && t >= 16 && i == t % 16 && Window(b[..], w, t) && Mixed(ops, w, t)
    modifies b
    ensures Window(b[..], w, t + 1) && b[i] == w(t)
  {
    BlkIsWord(ops, b[..], w, t);
    WindowKeeps(b[..], w, t);
    ghost var was := b[..];
    b[i] := ops.mix(b[(i + 13) % 16], b[(i + 8) % 16], b[(i + 2) % 16], b[i]);
    assert b[..] == was[i := w(t)];
  }

  /** The arrays hold what `t` rounds have made. */
  ghost predicate After(ops: Ops, a: seq<Word>, b: seq<Word>, r: Regs, w: Schedule, t: nat) {
    Holds(a, t, Rounds(ops, r, w, t)) && Window(b, w, t)
  }

  /** A round that reads the block's own words. */
  method FirstTurn(ops: Ops, i: nat, a: array<Word>, b: array<Word>, ghost r: Regs, ghost w: Schedule)
    requires a.Length == 5 && b.Length == 16 && a != b && i < 16
    requires After(ops, a[..], b[..], r, w, i)
    modifies a
    ensures After(ops, a[..], b[..], r, w, i + 1)
  {
    WindowAt(b[..], w, i);
    WindowStays(b[..], w, i);
    ghost var was := b[..];
    Rotate(ops, a, i, i, b[i], Rounds(ops, r, w, i));
    assert b[..] == was;
  }

  /** A round at rotation `j` that extends the schedule at index `i`. */
  method LaterTurn(ops: Ops, i: nat, j: nat, t: nat, a: array<Word>, b: array<Word>, ghost r: Regs, ghost w: Schedule)
    requires a.Length == 5 && b.Length == 16 && a != b
    requires t >= 16 && i == t % 16 && j % 5 == t % 5 && Mixed(ops, w, t)
    requires After(ops, a[..], b[..], r, w, t)
    modifies a, b
    ensures After(ops, a[..], b[..], r, w, t + 1)
  {
    Extend(ops, b, i, w, t);
    Rotate(ops, a, j, t, b[i], Rounds(ops, r, w, t));
  }

  /** The first loop. */
  method FirstLoop(ops: Ops, n: nat, a: array<Word>, b: array<Word>, ghost r: Regs, ghost w: Schedule)
    requires a.Length == 5 && b.Length == 16 && a != b && n <= 16
    requires After(ops, a[..], b[..], r, w, 0)
    modifies a
    ensures After(ops, a[..], b[..], r, w, n)
  {
    for i := 0 to n
      invariant After(ops, a[..], b[..], r, w, i)
    {
      FirstTurn(ops, i, a, b, r, w);
    }
  }

  lemma LaterIndices(first: nat, i: nat, t: nat)
    requires t == first + i
    ensures (i + first % 16) % 16 == t % 16 && (i + first % 5) % 5 == t % 5
  {
    var x, y := first / 16, first / 5;
    assert first == x * 16 + first % 16 && first == y * 5 + first % 5;
  }

  /** After, as a function value, so that the loop's proof does not look into it. */
  type Standing = (seq<Word>, seq<Word>, nat) -> bool

  ghost predicate StandsFor(at: Standing, ops: Ops, r: Regs, w: Schedule) {
    forall x, y, t: nat {:trigger After(ops, x, y, r, w, t)} :: at(x, y, t) == After(ops, x, y, r, w, t)
  }

  method LaterStep(
    ops: Ops, first: nat, i: nat, off: nat, rot: nat, a: array<Word>, b: array<Word>, ghost r: Regs, ghost w: Schedule,
    ghost t: nat, ghost at: Standing)
    requires a.Length == 5 && b.Length == 16 && a != b && t == first + i && IsSchedule(ops, w)
    requires first >= 16 && off == first % 16 && rot == first % 5
    requires StandsFor(at, ops, r, w) && at(a[..], b[..], t)
    modifies a, b
    ensures at(a[..], b[..], t + 1)
  {
    LaterIndices(first, i, t);
    assert Mixed(ops, w, t);
    NextTurn(ops, (i + off) % 16, i + rot, first + i, a, b, r, w, at);
  }

  method NextTurn(
    ops: Ops, i: nat, j: nat, t: nat, a: array<Word>, b: array<Word>, ghost r: Regs, ghost w: Schedule,
    ghost at: Standing)
    requires a.Length == 5 && b.Length == 16 && a != b
    requires t >= 16 && i == t % 16 && j % 5 == t % 5 && Mixed(ops, w, t)
    requires StandsFor(at, ops, r, w) && at(a[..], b[..], t)
    modifies a, b
    ensures at(a[..], b[..], t + 1)
  {
    assert After(ops, a[..], b[..], r, w, t);
    LaterTurn(ops, i, j, t, a, b, r, w);
    assert After(ops, a[..], b[..], r, w, t + 1);
  }

  method LaterSteps(
    ops: Ops, first: nat, n: nat, off: nat, rot: nat, a: array<Word>, b: array<Word>, ghost r: Regs, ghost w: Schedule,
    ghost at: Standing)
    requires a.Length == 5 && b.Length == 16 && a != b && IsSchedule(ops, w)
    requires first >= 16 && off == first % 16 && rot == first % 5
    requires StandsFor(at, ops, r, w) && at(a[..], b[..], first)
    modifies a, b
    ensures at(a[..], b[..], first + n)
  {
    for i := 0 to n
      invariant at(a[..], b[..], first + i)
    {
      LaterStep(ops, first, i, off, rot, a, b, r, w, first + i, at);
    }
  }

  /** A later loop of `n` rounds from round `first`, whose indices into the
      circle and into the registers start at `off` and at `rot`. */
  method LaterLoop(
    ops: Ops, first: nat, n: nat, off: nat, rot: nat, a: array<Word>, b: array<Word>, ghost r: Regs, ghost w: Schedule)
    requires a.Length == 5 && b.Length == 16 && a != b && IsSchedule(ops, w)
    requires first >= 16 && off == first % 16 && rot == first % 5
    requires After(ops, a[..], b[..], r, w, first)
    modifies a, b
    ensures After(ops, a[..], b[..], r, w, first + n)
  {
    ghost var at: Standing := (x: seq<Word>, y: seq<Word>, t: nat) => After(ops, x, y, r, w, t);
    LaterSteps(ops, first, n, off, rot, a, b, r, w, at);
  }

  /** The last loop. */
  method AddTo(ops: Ops, hash: array<Word>, a: array<Word>, ghost v: Regs)
    requires hash.Length == 5 && a.Length == 5 && a != hash && Holds(a[..], 0, v)
    modifies hash
    ensures hash[..] == Added(ops, old(hash[..]), v)
  {
    assert a[0] == v.e && a[1] == v.d && a[2] == v.c && a[3] == v.b && a[4] == v.a;
    for i := 0 to 5
      invariant forall j | 0 <= j < i :: hash[j] == ops.plus(old(hash[j]), a[4 - j])
      invariant forall j | i <= j < 5 :: hash[j] == old(hash[j])
    {
      hash[i] := ops.plus(hash[i], a[4 - i]);
    }
  }

  /** 80 rounds leave the registers where they were. */
  lemma BackInPlace(a: seq<Word>, v: Regs)
    requires Holds(a, ROUNDS, v)
    ensures Holds(a, 0, v)
  {
  }

  lemma Reversed(ops: Ops, h: seq<Word>, m: seq<Word>)
    requires |h| == 5 && |m| == 16
    ensures After(ops, [h[4], h[3], h[2], h[1], h[0]], m, Regs(h[0], h[1], h[2], h[3], h[4]),
                  (t: nat) => W(ops, m, t), 0)
  {
  }

  lemma WordsMix(ops: Ops, m: seq<Word>)
    requires |m| == 16
    ensures IsSchedule(ops, (t: nat) => W(ops, m, t))
  {
  }

  /** The compression of one block, in five loops and a final addition. */
  method Sha1(ops: Ops, hash: array<Word>, b: array<Word>)
    requires hash.Length == 5 && b.Length == 16 && hash != b
    modifies hash, b
    ensures hash[..] == Compress(ops, old(hash[..]), old(b[..]))
  {
    ghost var h, m := hash[..], b[..];
    ghost var r := Regs(h[0], h[1], h[2], h[3], h[4]);
    ghost var w: Schedule := (t: nat) => W(ops, m, t);
    var a := new Word[5];
    a[0], a[1], a[2], a[3], a[4] := hash[4], hash[3], hash[2], hash[1], hash[0];
    assert a[..] == [h[4], h[3], h[2], h[1], h[0]];
    Reversed(ops, h, m);
    WordsMix(ops, m);
    Loops(ops, a, b, r, w);
    AddTo(ops, hash, a, Rounds(ops, r, w, ROUNDS));
  }

  /** The five loops. */
  method Loops(ops: Ops, a: array<Word>, b: array<Word>, ghost r: Regs, ghost w: Schedule)
    requires a.Length == 5 && b.Length == 16 && a != b && IsSchedule(ops, w)
    requires After(ops, a[..], b[..], r, w, 0)
    modifies a, b
    ensures Holds(a[..], 0, Rounds(ops, r, w, ROUNDS))
  {
    FirstLoops(ops, a, b, r, w);
    LastLoops(ops, a, b, r, w);
    BackInPlace(a[..], Rounds(ops, r, w, ROUNDS));
  }

  method FirstLoops(ops: Ops, a: array<Word>, b: array<Word>, ghost r: Regs, ghost w: Schedule)
    requires a.Length == 5 && b.Length == 16 && a != b && IsSchedule(ops, w)
    requires After(ops, a[..], b[..], r, w, 0)
    modifies a, b
    ensures After(ops, a[..], b[..], r, w, 40)
  {
    FirstLoop(ops, 16, a, b, r, w);
    LaterLoop(ops, 16, 4, 0, 1, a, b, r, w);
    LaterLoop(ops, 20, 20, 4, 0, a, b, r, w);
  }

  method LastLoops(ops: Ops, a: array<Word>, b: array<Word>, ghost r: Regs, ghost w: Schedule)
    requires a.Length == 5 && b.Length == 16 && a != b && IsSchedule(ops, w)
    requires After(ops, a[..], b[..], r, w, 40)
    modifies a, b
    ensures After(ops, a[..], b[..], r, w, ROUNDS)
  {
    LaterLoop(ops, 40, 20, 8, 0, a, b, r, w);
    LaterLoop(ops, 60, 20, 12, 0, a, b, r, w);
  }
}
