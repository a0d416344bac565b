// The byte ring of include/utils/loop_buffer.hpp: two free-running 32-bit
// counters over an array whose size is a power of two.
module LoopBuffer {
  import opened Circular
  import opened Division

  // ---- the size ----

  /** The bit trick that rounds up to a power of two. */
  function PowerOfTwo(n: bv32): bv32 {
    var a := n - 1;
    var b := a | (a >> 1);
    var c := b | (b >> 2);
    var d := c | (c >> 4);
    var e := d | (d >> 8);
    var f := e | (e >> 16);
    f + 1
  }

  /** It yields the least power of two that is at least `n` exactly when that
      fits 32 bits and `n` is not zero. */
  lemma PowerOfTwoLeast(n: bv32)
    ensures var r := PowerOfTwo(n);
            (r != 0 && r & (r - 1) == 0 && n <= r && r >> 1 < n) <==> 0 < n <= 0x8000_0000
  {
  }

  function BufferSize(max: bv32): bv32 {
    if max & (max - 1) != 0 then PowerOfTwo(max) else max
  }

  /** Every size up to 2^31 becomes a power of two that is large enough. */
  lemma BufferSizeOk(max: bv32)
    requires 0 < max <= 0x8000_0000
    ensures var r := BufferSize(max); r != 0 && r & (r - 1) == 0 && max <= r
  {
    PowerOfTwoLeast(max);
  }

  // ---- positions ----

  function Pow2(k: nat): (p: nat)
    ensures p > 0
  {
    if k == 0 then 1 else 2 * Pow2(k - 1)
  }

  /** Bitwise and of natural numbers. */
  function And(x: nat, y: nat): (r: nat)
    ensures r <= y
    decreases x
  {
    if x == 0 || y == 0 then 0 else 2 * And(x / 2, y / 2) + (if x % 2 == 1 && y % 2 == 1 then 1 else 0)
  }

  lemma HalfRemainder(x: nat, p: nat)
    requires 0 < p
    ensures x % (2 * p) == 2 * (x / 2 % p) + x % 2
  {
    var q, r := x / 2 / p, x / 2 % p;
    assert x / 2 == q * p + r;
    assert q * (2 * p) == 2 * (q * p);
    DivUnique(x, 2 * p, q, 2 * r + x % 2);
  }

  lemma AndStep(x: nat, p: nat)
    requires 0 < p
    ensures And(x, 2 * p - 1) == 2 * And(x / 2, p - 1) + x % 2
  {
    assert (2 * p - 1) / 2 == p - 1 && (2 * p - 1) % 2 == 1;
  }

  /** Masking with a power of two less one is the remainder. */
  lemma {:induction false} MaskIsRemainder(x: nat, k: nat)
    ensures And(x, Pow2(k) - 1) == x % Pow2(k)
  {
    if k > 0 {
      var p := Pow2(k - 1);
      MaskIsRemainder(x / 2, k - 1);
      calc {
        And(x, Pow2(k) - 1);
        { AndStep(x, p); }
        2 * And(x / 2, p - 1) + x % 2;
        2 * (x / 2 % p) + x % 2;
        { HalfRemainder(x, p); }
        x % (2 * p);
      }
    }
  }

  lemma {:induction false} PowAdd(a: nat, b: nat)
    ensures Pow2(a + b) == Pow2(a) * Pow2(b)
  {
    if b > 0 {
      PowAdd(a, b - 1);
      assert Pow2(a) * (2 * Pow2(b - 1)) == 2 * (Pow2(a) * Pow2(b - 1));
    }
  }

  /** A power of two up to 2^32 divides 2^32. */
  lemma PowDivides(k: nat)
    requires k <= 32
    ensures Pow2(k) * Pow2(32 - k) == M32
  {
    PowAdd(k, 32 - k);
    Pow32(32);
  }

  lemma Pow32(n: nat)
    requires n == 32
    ensures Pow2(n) == M32
  {
    assert Pow2(4) == 16;
    PowAdd(4, 4);
    PowAdd(8, 8);
    PowAdd(16, 16);
  }

  lemma PowBound(k: nat)
    requires k <= 31
    ensures Pow2(k) <= HALF
  {
    PowDivides(k);
    PowDivides(31);
    PowMono(k, 31);
  }

  lemma {:induction false} PowMono(a: nat, b: nat)
    requires a <= b
    ensures Pow2(a) <= Pow2(b)
  {
    if a < b {
      PowMono(a, b - 1);
    }
  }

  // ---- the size is one of the powers ----

  /** The values of words with a single bit set. */
  const SIZES: seq<nat> := [
    0x1, 0x2, 0x4, 0x8, 0x10, 0x20, 0x40, 0x80,
    0x100, 0x200, 0x400, 0x800, 0x1000, 0x2000, 0x4000, 0x8000,
    0x10000, 0x20000, 0x40000, 0x80000, 0x100000, 0x200000, 0x400000, 0x800000,
    0x1000000, 0x2000000, 0x4000000, 0x8000000, 0x10000000, 0x20000000, 0x40000000, 0x80000000
  ]

  lemma {:induction false} SizesArePowers(k: nat)
    requires k < 32
    ensures SIZES[k] == Pow2(k)
  {
    if k > 0 {
      SizesArePowers(k - 1);
      assert SIZES[k] == 2 * SIZES[k - 1];
    }
  }

  /** A word with a single bit set is a power of two. */
  lemma SingleBit(r: bv32) returns (k: nat)
    requires r != 0 && r & (r - 1) == 0
    ensures k <= 31 && r as int == Pow2(k)
  {
    assert r as int in SIZES;
    k :| k < 32 && SIZES[k] == r as int;
    SizesArePowers(k);
  }

  /** The size of the array is a power of two up to 2^31. */
  lemma SizeIsPower(max: bv32) returns (bits: nat)
    requires 0 < max <= 0x8000_0000
    ensures bits <= 31 && BufferSize(max) as int == Pow2(bits)
  {
    BufferSizeOk(max);
    bits := SingleBit(BufferSize(max));
  }

  /** Reducing a counter modulo 2^32 does not move its slot. */
  lemma SlotOfCounter(x: int, bits: nat)
    requires bits <= 32
    ensures U32(x) % Pow2(bits) == x % Pow2(bits)
  {
    PowDivides(bits);
    Multiples(x, U32(x), x / M32, Pow2(32 - bits), Pow2(bits));
  }

  lemma Multiples(x: int, r: int, q: int, m: int, b: int)
    requires 0 < b && x == r + q * (b * m)
    ensures x % b == r % b
  {
    assert q * (b * m) == (q * m) * b;
    AddMultiple(r, q * m, b);
  }

  /** The slot `n` further on. */
  function After(p: nat, n: nat, b: nat): nat
    requires p < b && n <= b
  {
    if p + n < b then p + n else p + n - b
  }

  lemma SlotAfter(x: int, n: nat, bits: nat)
    requires bits <= 32 && n <= Pow2(bits)
    ensures U32(x + n) % Pow2(bits) == After(x % Pow2(bits), n, Pow2(bits))
  {
    SlotOfCounter(x + n, bits);
    AfterSlot(x, n, Pow2(bits));
  }

  lemma AfterSlot(x: int, n: nat, b: nat)
    requires 0 < b && n <= b
    ensures (x + n) % b == After(x % b, n, b)
  {
    var q, r := x / b, x % b;
    assert x == q * b + r;
    if r + n < b {
      DivUnique(x + n, b, q, r + n);
    } else {
      assert (q + 1) * b == q * b + b;
      DivUnique(x + n, b, q + 1, r + n - b);
    }
  }

  // ---- the ring as an object ----

  /** The `n` bytes of a ring from slot `p` on. */
  function Ring(buf: seq<Byte>, p: nat, n: nat): (r: seq<Byte>)
    requires p < |buf| && n <= |buf|
    ensures |r| == n
  {
    seq(n, i requires 0 <= i < n => buf[After(p, i, |buf|)])
  }

  /** The distance from slot `w` forward to slot `j`. */
  function Ahead(w: nat, j: nat, b: nat): nat
    requires w < b && j < b
  {
    if j >= w then j - w else j + b - w
  }

  /** Overwrite slots from `w` on, around the end. */
  function Overwrite(buf: seq<Byte>, w: nat, data: seq<Byte>): (r: seq<Byte>)
    requires w < |buf| && |data| <= |buf|
    ensures |r| == |buf|
  {
    seq(|buf|, j requires 0 <= j < |buf| => if Ahead(w, j, |buf|) < |data| then data[Ahead(w, j, |buf|)] else buf[j])
  }

  /** Writing behind the live bytes appends and moves none of them. */
  lemma OverwriteAppends(buf: seq<Byte>, p: nat, n: nat, data: seq<Byte>)
    requires p < |buf| && n + |data| <= |buf|
    ensures Ring(Overwrite(buf, After(p, n, |buf|), data), p, n + |data|) == Ring(buf, p, n) + data
  {
    var b, w := |buf|, After(p, n, |buf|);
    forall i | 0 <= i < n + |data|
      ensures Ring(Overwrite(buf, w, data), p, n + |data|)[i] == (Ring(buf, p, n) + data)[i]
    {
      if n < b {
        assert Ahead(w, After(p, i, b), b) == if i >= n then i - n else i + b - n;
      }
    }
  }

  /** Dropping bytes from the front moves the start. */
  lemma RingDrop(buf: seq<Byte>, p: nat, n: nat, len: nat)
    requires p < |buf| && len <= n <= |buf| && p + len <= |buf|
    ensures buf[p..p + len] == Ring(buf, p, n)[..len]
    ensures Ring(buf, After(p, len, |buf|), n - len) == Ring(buf, p, n)[len..]
  {
  }

  class LoopBuffer {
    var head: nat
    var tail: nat
    /** The size is two to this power. */
    ghost const bits: nat
    const buffer: array<Byte>
    /** The slot of the first live byte, and how many are live. */
    ghost var start: nat
    ghost var count: nat

    ghost predicate Valid()
      reads this, buffer
    {
      && bits <= 31 && buffer.Length == Pow2(bits) <= HALF
      && head < M32 && tail < M32
      && start == head % Pow2(bits) && count == U32(tail - head) <= buffer.Length
    }

    /** The bytes pushed and not yet popped. */
    ghost function Contents(): seq<Byte>
      requires Valid()
      reads this, buffer
    {
      Ring(buffer[..], start, count)
    }

    constructor (max: bv32)
      requires 0 < max <= 0x8000_0000
      ensures Valid() && Contents() == [] && fresh(buffer)
      ensures buffer.Length == BufferSize(max) as int
    {
      var size := BufferSize(max) as int;
      ghost var k := SizeIsPower(max);
      PowBound(k);
      this.bits := k;
      head, tail, start, count := 0, 0, 0, 0;
      buffer := new Byte[size](_ => 0);
    }

    /** The copies of push: at most two, around the end of the array. */
    method Copy(writePos: nat, data: seq<Byte>)
      requires writePos < buffer.Length && |data| <= buffer.Length
      modifies buffer
      ensures buffer[..] == Overwrite(old(buffer[..]), writePos, data)
    {
      var tailSize := buffer.Length - writePos;
      if |data| > tailSize {
        forall i | 0 <= i < tailSize {
          buffer[writePos + i] := data[i];
        }
        forall i | 0 <= i < |data| - tailSize {
          buffer[i] := data[tailSize + i];
        }
      } else {
        forall i | 0 <= i < |data| {
          buffer[writePos + i] := data[i];
        }
      }
    }

    /** Bytes are stored all or none, behind those already there. */
    method Push(data: seq<Byte>) returns (n: nat)
      requires Valid()
      modifies this`tail, this`count, buffer
      ensures Valid()
      ensures |old(Contents())| + |data| <= buffer.Length ==> n == |data| && Contents() == old(Contents()) + data
      ensures |old(Contents())| + |data| > buffer.Length ==>
                n == 0 && Contents() == old(Contents()) && tail == old(tail)
    {
      var used := U32(tail - head);
      if buffer.Length - used < |data| {
        return 0;
      }
      Store(data);
      return |data|;
    }

    /** The part of push that follows the check for room. */
    method Store(data: seq<Byte>)
      requires Valid() && count + |data| <= buffer.Length
      modifies this`tail, this`count, buffer
      ensures Valid() && Contents() == old(Contents()) + data
    {
      PushMath(head, tail, count, |data|, bits);
      var next := U32(tail + |data|);
      StoreAt(And(tail, buffer.Length - 1), data);
      tail := next;
    }

    /** Writes behind the live bytes. */
    method StoreAt(writePos: nat, data: seq<Byte>)
      requires start < buffer.Length && count + |data| <= buffer.Length
      requires writePos == After(start, count, buffer.Length)
      modifies this`count, buffer
      ensures count == old(count) + |data|
      ensures Ring(buffer[..], start, count) == old(Ring(buffer[..], start, count)) + data
    {
      OverwriteAppends(buffer[..], start, count, data);
      Copy(writePos, data);
      count := count + |data|;
    }

    /** Hand out the bytes up to the end of the array, or all of them. */
    method Pop() returns (chunk: seq<Byte>)
      requires Valid()
      modifies this`head, this`start, this`count
      ensures Valid() && chunk <= old(Contents()) && Contents() == old(Contents())[|chunk|..]
      ensures chunk == [] <==> old(Contents()) == []
      ensures Contents() == [] || start == 0
      ensures old(start) == 0 ==> Contents() == []
    {
      var dataLen := U32(tail - head);
      if dataLen == 0 {
        return [];
      }
      var readPos := And(head, buffer.Length - 1);
      MaskIsRemainder(head, bits);
      var len := Min(dataLen, buffer.Length - readPos);
      PopMath(head, tail, count, len, bits);
      var next := U32(head + len);
      chunk := TakeAt(readPos, len);
      head := next;
    }

    /** Takes bytes from the front of the live ones, up to the end of the array. */
    method TakeAt(readPos: nat, len: nat) returns (chunk: seq<Byte>)
      requires readPos == start && len <= count <= buffer.Length
      requires start + len <= buffer.Length && start < buffer.Length
      modifies this`start, this`count
      ensures start == After(old(start), len, buffer.Length) && count == old(count) - len
      ensures chunk == old(Ring(buffer[..], start, count))[..len]
      ensures Ring(buffer[..], start, count) == old(Ring(buffer[..], start, count))[len..]
    {
      chunk := buffer[readPos..readPos + len];
      RingDrop(buffer[..], start, count, len);
      start, count := After(start, len, buffer.Length), count - len;
    }
  }

  lemma TailFromUsed(head: nat, tail: nat)
    requires tail < M32
    ensures U32(head + U32(tail - head)) == tail
  {
    U32Add(tail - head, head);
  }

  /** The counter arithmetic of push. */
  lemma PushMath(head: nat, tail: nat, used: nat, n: nat, bits: nat)
    requires bits <= 31 && tail < M32 && used == U32(tail - head) && used + n <= Pow2(bits) <= HALF
    ensures And(tail, Pow2(bits) - 1) == After(head % Pow2(bits), used, Pow2(bits))
    ensures U32(U32(tail + n) - head) == used + n
  {
    PushSlot(head, tail, used, bits);
    PushLength(head, tail, used, n);
  }

  lemma PushSlot(head: nat, tail: nat, used: nat, bits: nat)
    requires bits <= 31 && tail < M32 && used == U32(tail - head) && used <= Pow2(bits)
    ensures And(tail, Pow2(bits) - 1) == After(head % Pow2(bits), used, Pow2(bits))
  {
    assert U32(head + used) == tail by {
      TailFromUsed(head, tail);
    }
    MaskIsRemainder(tail, bits);
    SlotAfter(head, used, bits);
  }

  lemma PushLength(head: nat, tail: nat, used: nat, n: nat)
    requires used == U32(tail - head) && used + n < M32
    ensures U32(U32(tail + n) - head) == used + n
  {
    var h: int := head;
    U32Add(tail + n, -h);
    U32Add(tail - head, n);
  }

  /** The counter arithmetic of pop. */
  lemma PopMath(head: nat, tail: nat, used: nat, n: nat, bits: nat)
    requires bits <= 31 && used == U32(tail - head) && n <= used <= Pow2(bits)
    ensures U32(head + n) % Pow2(bits) == After(head % Pow2(bits), n, Pow2(bits))
    ensures U32(tail - U32(head + n)) == used - n
  {
    SlotAfter(head, n, bits);
    PopLength(head, tail, used, n);
  }

  lemma PopLength(head: nat, tail: nat, used: nat, n: nat)
    requires used == U32(tail - head) && n <= used
    ensures U32(tail - U32(head + n)) == used - n
  {
    var m: int := n;
    U32Add(tail, head + n);
    U32Add(tail - head, -m);
  }

  /** Two pops without a push in between drain the ring. */
  method PopTwice(r: LoopBuffer) returns (all: seq<Byte>)
    requires r.Valid()
    modifies r`head, r`start, r`count
    ensures r.Valid() && all == old(r.Contents()) && r.Contents() == []
  {
    var a := r.Pop();
    var b := r.Pop();
    all := a + b;
  }
}
