// The frames of sections 5.2 and 5.3 of RFC 6455, octet by octet and bit by bit,
// beside those that are written and read.
module WsOctets {
  import opened Circular
  import opened Seqs
  import D = HttpDigits
  import L = LoopBuffer
  import opened WsFrame

  // ---- bits ----

  predicate Bit(x: nat, i: nat) { if i == 0 then x % 2 == 1 else Bit(x / 2, i - 1) }

  /** `c` is the exclusive or of `a` and `b`. */
  ghost predicate IsXor(c: Byte, a: Byte, b: Byte) { forall i: nat | i < 8 :: Bit(c, i) <==> Bit(a, i) != Bit(b, i) }

  lemma LowSum(a: nat, b: nat, y: nat)
    ensures var x := 2 * y + (a + b) % 2; x / 2 == y && (x % 2 == 1 <==> (a % 2 == 1) != (b % 2 == 1))
  {
  }

  lemma {:induction false} XorBitsAt(a: nat, b: nat, k: nat, i: nat)
    requires i < k
    ensures Bit(XorBits(a, b, k), i) <==> Bit(a, i) != Bit(b, i)
    decreases k
  {
    LowSum(a, b, XorBits(a / 2, b / 2, k - 1));
    if i > 0 {
      XorBitsAt(a / 2, b / 2, k - 1, i - 1);
    }
  }

  /** Masking an octet is the exclusive or with an octet of the key. */
  lemma XorIsXor(a: Byte, b: Byte)
    ensures IsXor(Xor(a, b), a, b)
  {
    forall i: nat | i < 8 ensures Bit(Xor(a, b), i) <==> Bit(a, i) != Bit(b, i) {
      XorBitsAt(a, b, 8, i);
    }
  }

  lemma {:induction false} SameBits(x: nat, y: nat, k: nat)
    requires x < L.Pow2(k) && y < L.Pow2(k) && forall i: nat | i < k :: Bit(x, i) <==> Bit(y, i)
    ensures x == y
    decreases k
  {
    if k > 0 {
      assert Bit(x, 0) <==> Bit(y, 0);
      forall i: nat | i < k - 1 ensures Bit(x / 2, i) <==> Bit(y / 2, i) {
        assert Bit(x, i + 1) <==> Bit(y, i + 1);
      }
      SameBits(x / 2, y / 2, k - 1);
    }
  }

  lemma Octets8()
    ensures L.Pow2(8) == 256
  {
    assert L.Pow2(4) == 16;
  }

  /** An octet that was masked with `b` is unmasked with `b`. */
  lemma XorUndoes(c: Byte, a: Byte, b: Byte)
    requires IsXor(c, a, b)
    ensures Xor(c, b) == a
  {
    XorIsXor(c, b);
    Octets8();
    forall i: nat | i < 8 ensures Bit(Xor(c, b), i) <==> Bit(a, i) {
      assert Bit(c, i) <==> Bit(a, i) != Bit(b, i);
    }
    SameBits(Xor(c, b), a, 8);
  }

  // ---- the frame of the standard ----

  /** How many octets come before the masking key. */
  function StartSize(n: nat): nat { if n <= 125 then 2 else if n <= 65535 then 4 else 10 }

  function OctetAt(f: seq<Byte>, i: nat): nat
    requires i < |f|
  {
    f[i]
  }

  /** Eight octets from index `i` on, the most significant first. */
  function Joined(f: seq<Byte>, i: nat): nat
    requires i + 8 <= |f|
  {
    0x100_0000_0000_0000 * OctetAt(f, i) + 0x1_0000_0000_0000 * OctetAt(f, i + 1)
    + 0x100_0000_0000 * OctetAt(f, i + 2) + 0x1_0000_0000 * OctetAt(f, i + 3)
    + 0x100_0000 * OctetAt(f, i + 4) + 0x1_0000 * OctetAt(f, i + 5) + 0x100 * OctetAt(f, i + 6) + OctetAt(f, i + 7)
  }

  predicate LengthTold(f: seq<Byte>, n: nat)
    requires |f| >= StartSize(n)
  {
    if n <= 125 then f[1] % 0x80 == n
    else if n <= 65535 then f[1] % 0x80 == 126 && n == 0x100 * OctetAt(f, 2) + OctetAt(f, 3)
    else f[1] % 0x80 == 127 && n == Joined(f, 2)
  }

  /** A frame with payload `msg`, written without reserved bits. */
  ghost predicate IsFrame(f: seq<Byte>, fin: bool, op: Byte, msg: seq<Byte>, masked: bool, key: seq<Byte>)
    requires |key| == 4
  {
    var start := StartSize(|msg|);
    var at := start + if masked then 4 else 0;
    && |f| == at + |msg|
    && f[0] == (if fin then 0x80 else 0) + op
    && (f[1] >= 0x80 <==> masked)
    && LengthTold(f, |msg|)
    && (masked ==> f[start..at] == key)
    && forall i | 0 <= i < |msg| :: if masked then IsXor(f[at + i], msg[i], key[i % 4]) else f[at + i] == msg[i]
  }

  // ---- the writer ----

  lemma Told16(n: nat)
    requires n < 0x1_0000
    ensures var o := BigEndian(n, 2); n == 0x100 * OctetAt(o, 0) + OctetAt(o, 1)
  {
    var o := BigEndian(n, 2);
    Shifts16(n, [ByteAt(n, 0x100), ByteAt(n, 1)]);
    assert n / 0x100 < 0x100;
  }

  /** Reading digit after digit is the sum of the digits at their places. */
  lemma {:induction false} NumberHead(d: seq<Byte>)
    requires d != []
    ensures Number(d) == OctetAt(d, 0) * Pow256(|d| - 1) + Number(d[1..])
    decreases |d|
  {
    var n := |d| - 1;
    if n > 0 {
      NumberHead(d[..n]);
      assert d[1..][..n - 1] == d[..n][1..];
      Times256(d[0], Pow256(n - 1), Number(d[..n][1..]), d[n]);
    }
  }

  lemma Times256(a: nat, p: nat, b: nat, c: nat)
    ensures (a * p + b) * 256 + c == a * (p * 256) + (b * 256 + c)
  {
  }

  lemma Places()
    ensures Pow256(0) == 1 && Pow256(1) == 0x100 && Pow256(2) == 0x1_0000 && Pow256(3) == 0x100_0000
    ensures Pow256(4) == 0x1_0000_0000 && Pow256(5) == 0x100_0000_0000
    ensures Pow256(6) == 0x1_0000_0000_0000 && Pow256(7) == 0x100_0000_0000_0000
  {
  }

  lemma {:induction false} NumberFrom(o: seq<Byte>, i: nat, sum: nat)
    requires |o| == 8 && i < 8 && sum == OctetAt(o, i) * Pow256(7 - i) + Number(o[i + 1..])
    ensures Number(o[i..]) == sum
  {
    NumberHead(o[i..]);
    assert o[i..][1..] == o[i + 1..];
  }

  lemma NumberJoined(o: seq<Byte>)
    requires |o| == 8
    ensures Number(o) == Joined(o, 0)
  {
    Places();
    var s7 := OctetAt(o, 7);
    assert o[8..] == [];
    NumberFrom(o, 7, s7);
    var s6 := OctetAt(o, 6) * 0x100 + s7;
    NumberFrom(o, 6, s6);
    var s5 := OctetAt(o, 5) * 0x1_0000 + s6;
    NumberFrom(o, 5, s5);
    var s4 := OctetAt(o, 4) * 0x100_0000 + s5;
    NumberFrom(o, 4, s4);
    var s3 := OctetAt(o, 3) * 0x1_0000_0000 + s4;
    NumberFrom(o, 3, s3);
    var s2 := OctetAt(o, 2) * 0x100_0000_0000 + s3;
    NumberFrom(o, 2, s2);
    var s1 := OctetAt(o, 1) * 0x1_0000_0000_0000 + s2;
    NumberFrom(o, 1, s1);
    NumberFrom(o, 0, OctetAt(o, 0) * 0x100_0000_0000_0000 + s1);
    assert o[0..] == o;
  }

  lemma Told64(n: nat)
    requires n < D.M64
    ensures n == Joined(BigEndian(n, 8), 0)
  {
    Places();
    NumberRoundTrip(n, 8);
    NumberJoined(BigEndian(n, 8));
  }

  // ---- written frames ----

  lemma LengthIsTold(f: seq<Byte>, n: nat, masked: bool)
    requires n < D.M64 && n != 65535 && |f| >= 2 + |LengthBytes(n)|
    requires f[1] == Mark(n) + MaskBit(masked) && f[2..2 + |LengthBytes(n)|] == LengthBytes(n)
    ensures |LengthBytes(n)| == StartSize(n) - 2 && LengthTold(f, n) && (f[1] >= 0x80 <==> masked)
  {
    if 126 <= n < 65535 {
      Told16(n);
      assert f[2..4][0] == f[2] && f[2..4][1] == f[3];
    } else if n > 65535 {
      Told64(n);
      SameJoined(f, BigEndian(n, 8));
    }
  }

  lemma SameJoined(f: seq<Byte>, o: seq<Byte>)
    requires |f| >= 10 && |o| == 8 && f[2..10] == o
    ensures Joined(f, 2) == Joined(o, 0)
  {
    forall i: nat | i < 8 ensures f[2 + i] == o[i] {
      assert f[2..10][i] == f[2 + i];
    }
  }

  /** What is written for any payload but one of 65535 octets is a final frame of
      the standard; what would be for that one is not. */
  lemma WrittenIsFrame(msg: seq<Byte>, op: Byte, masked: bool, key: seq<Byte>)
    requires |key| == 4 && op < 16 && |msg| < D.M64
    ensures IsFrame(Frame(msg, op, masked, key), true, op, msg, masked, key) <==> |msg| != 65535
  {
    var n := |msg|;
    var f := Frame(msg, op, masked, key);
    var size := 2 + |LengthBytes(n)|;
    var body := if masked then Masked(msg, key) else msg;
    Layout(n, op, masked, key, body, Mark(n), LengthBytes(n));
    if n != 65535 {
      LengthIsTold(f, n, masked);
      BodyIsMasked(f, msg, masked, key, size);
    }
  }

  lemma BodyIsMasked(f: seq<Byte>, msg: seq<Byte>, masked: bool, key: seq<Byte>, size: nat)
    requires |key| == 4
    requires if masked then |f| >= size + 4 && f[size + 4..] == Masked(msg, key) else |f| >= size && f[size..] == msg
    ensures var at := size + if masked then 4 else 0;
            && |f| == at + |msg|
            && forall i | 0 <= i < |msg| :: if masked then IsXor(f[at + i], msg[i], key[i % 4]) else f[at + i] == msg[i]
  {
    var at := size + if masked then 4 else 0;
    forall i | 0 <= i < |msg|
      ensures if masked then IsXor(f[at + i], msg[i], key[i % 4]) else f[at + i] == msg[i]
    {
      assert f[at..][i] == f[at + i];
      XorIsXor(msg[i], key[i % 4]);
    }
  }

  // ---- frames of any peer ----

  /** The reader takes the head and the length from the octets of a frame. */
  lemma HeadFound(data: seq<Byte>, n: nat)
    requires |data| >= StartSize(n) && LengthTold(data, n)
    ensures LengthSize(HeadOf(data)) == StartSize(n) - 2 && PayloadLength(data) == n
  {
    if 126 <= n <= 65535 {
      assert data[2..4] == [] + [data[2]] + [data[3]];
      NumberSnoc([], data[2]);
      NumberSnoc([] + [data[2]], data[3]);
    } else if n > 65535 {
      NumberJoined(data[2..10]);
      SameJoined(data, data[2..10]);
    }
  }

  lemma BodyFound(data: seq<Byte>, msg: seq<Byte>, h: Head, size: nat, key: seq<Byte>)
    requires |key| == 4 && size + MaskSize(h) + |msg| <= |data| && (h.masked ==> data[size..size + 4] == key)
    requires forall i | 0 <= i < |msg| ::
      var o := data[size + MaskSize(h) + i]; if h.masked then IsXor(o, msg[i], key[i % 4]) else o == msg[i]
    ensures Payload(data, h, size, |msg|) == msg
  {
    var at := size + MaskSize(h);
    var body := data[at..at + |msg|];
    forall i | 0 <= i < |msg| ensures body[i] == data[at + i] && (h.masked ==> Xor(body[i], key[i % 4]) == msg[i]) {
      if h.masked {
        XorUndoes(data[at + i], msg[i], key[i % 4]);
      }
    }
  }

  lemma SliceInside(f: seq<Byte>, rest: seq<Byte>, i: nat, j: nat)
    requires i <= j <= |f|
    ensures (f + rest)[i..j] == f[i..j]
  {
  }

  /** The reader delivers the payload of every frame of the standard that its
      buffer holds, and uses exactly the frame. */
  lemma ReadsFrames(
    bufferSize: nat, f: seq<Byte>, fin: bool, op: Byte, msg: seq<Byte>, masked: bool, key: seq<Byte>, rest: seq<Byte>)
    requires |key| == 4 && op < 16 && IsFrame(f, fin, op, msg, masked, key)
    requires (|msg| < 126 || |f| <= bufferSize) && |f + rest| < M32
    ensures var r := ReadFrame(bufferSize, f + rest);
            r.Message? && r.payload == msg && r.used == |f| && r.head.fin == fin && r.head.opcode == op
  {
    var data := f + rest;
    var start := StartSize(|msg|);
    FrameInside(f, rest, |msg|);
    HeadFound(data, |msg|);
    var h := HeadOf(data);
    assert h.masked <==> masked;
    if masked {
      SliceInside(f, rest, start, start + 4);
    }
    BodyFound(data, msg, h, start, key);
    ReadKnown(bufferSize, data, h, |msg|);
  }

  lemma FrameInside(f: seq<Byte>, rest: seq<Byte>, n: nat)
    requires |f| >= StartSize(n) && LengthTold(f, n)
    ensures LengthTold(f + rest, n)
  {
    var data := f + rest;
    assert forall i | 0 <= i < |f| :: data[i] == f[i];
    if n > 65535 {
      assert forall i: nat | i < |f| :: OctetAt(data, i) == OctetAt(f, i);
    }
  }
}
