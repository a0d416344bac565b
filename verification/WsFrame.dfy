// WebSocket frames (sections 5.2 and 5.3 of RFC 6455): the writer and the
// length reader of include/websocket/wsock_connection.hpp, and the reader of
// include/websocket/wsock_protocol.hpp.
module WsFrame {
  import opened Circular
  import D = HttpDigits
  import opened Division
  import L = LoopBuffer

  // ---- numbers in network order ----

  function Pow256(k: nat): (r: nat)
    ensures r > 0
  {
    if k == 0 then 1 else Pow256(k - 1) * 256
  }

  function BigEndian(n: nat, k: nat): (r: seq<Byte>)
    ensures |r| == k
  {
    if k == 0 then [] else BigEndian(n / 256, k - 1) + [n % 256]
  }

  function Number(d: seq<Byte>): nat {
    if d == [] then 0 else Number(d[..|d| - 1]) * 256 + d[|d| - 1]
  }

  lemma NumberSnoc(d: seq<Byte>, x: nat)
    requires x < 256
    ensures Number(d + [x]) == Number(d) * 256 + x
  {
    assert (d + [x])[..|d|] == d;
  }

  lemma {:induction false} NumberRoundTrip(n: nat, k: nat)
    requires n < Pow256(k)
    ensures Number(BigEndian(n, k)) == n
    decreases k
  {
    if k > 0 {
      NumberRoundTrip(n / 256, k - 1);
      NumberSnoc(BigEndian(n / 256, k - 1), n % 256);
    }
  }

  lemma {:induction false} NumberBound(d: seq<Byte>)
    ensures Number(d) < Pow256(|d|)
    decreases |d|
  {
    if d != [] {
      NumberBound(d[..|d| - 1]);
    }
  }

  // ---- masking ----

  /** Exclusive or of the lowest `k` bits. */
  function XorBits(a: nat, b: nat, k: nat): (r: nat)
    ensures r < L.Pow2(k)
  {
    if k == 0 then 0 else 2 * XorBits(a / 2, b / 2, k - 1) + (a + b) % 2
  }

  function Xor(a: Byte, b: Byte): Byte {
    assert L.Pow2(4) == 16;
    assert L.Pow2(8) == 256;
    XorBits(a, b, 8)
  }

  function Masked(d: seq<Byte>, key: seq<Byte>): (r: seq<Byte>)
    requires |key| == 4
    ensures |r| == |d|
  {
    seq(|d|, i requires 0 <= i < |d| => Xor(d[i], key[i % 4]))
  }

  lemma LowBit(a: nat, b: nat, y: nat)
    ensures var x := 2 * y + (a + b) % 2; x / 2 == y && (x + b) % 2 == a % 2
  {
  }

  lemma {:induction false} XorBitsTwice(a: nat, b: nat, k: nat)
    requires a < L.Pow2(k)
    ensures XorBits(XorBits(a, b, k), b, k) == a
  {
    if k > 0 {
      XorBitsTwice(a / 2, b / 2, k - 1);
      LowBit(a, b, XorBits(a / 2, b / 2, k - 1));
    }
  }

  lemma XorTwice(x: Byte, k: Byte)
    ensures Xor(Xor(x, k), k) == x
  {
    XorBitsTwice(x, k, 8);
  }

  lemma MaskTwice(d: seq<Byte>, key: seq<Byte>)
    requires |key| == 4
    ensures Masked(Masked(d, key), key) == d
  {
    forall i | 0 <= i < |d| ensures Masked(Masked(d, key), key)[i] == d[i] {
      XorTwice(d[i], key[i % 4]);
    }
  }

  // ---- the frame ----

  /** The octets that carry an extended length. */
  function LengthBytes(n: nat): (r: seq<Byte>) {
    if n < 126 then [] else if n < 65535 then BigEndian(n, 2) else BigEndian(n, 8)
  }

  function Mark(n: nat): (m: nat)
    ensures m < 128
  {
    if n < 126 then n else if n < 65535 then 126 else 127
  }

  function MaskBit(masked: bool): Byte { if masked then 0x80 else 0 }

  /** `0x80 | op`: the octet with its top bit set. */
  function TopSet(op: Byte): Byte { if op < 0x80 then op + 0x80 else op }

  function Header(n: nat, op: Byte, masked: bool, key: seq<Byte>): seq<Byte>
    requires |key| == 4
  {
    [TopSet(op), Mark(n) + MaskBit(masked)] + LengthBytes(n) + (if masked then key else [])
  }

  function Frame(msg: seq<Byte>, op: Byte, masked: bool, key: seq<Byte>): seq<Byte>
    requires |key| == 4
  {
    Header(|msg|, op, masked, key) + (if masked then Masked(msg, key) else msg)
  }

  // ---- reading ----

  datatype Head = Head(fin: bool, opcode: Byte, masked: bool, mark: Byte)

  function HeadOf(data: seq<Byte>): Head
    requires |data| >= 2
  {
    Head(data[0] >= 0x80, data[0] % 0x10, data[1] >= 0x80, data[1] % 0x80)
  }

  function LengthSize(h: Head): nat {
    if h.mark < 126 then 0 else if h.mark == 126 then 2 else 8
  }

  function MaskSize(h: Head): nat { if h.masked then 4 else 0 }

  function PayloadLength(data: seq<Byte>): nat
    requires |data| >= 2 && |data| >= 2 + LengthSize(HeadOf(data))
  {
    var h := HeadOf(data);
    if h.mark < 126 then h.mark else Number(data[2..2 + LengthSize(h)])
  }

  /** `n` payload octets behind a header of which `size` octets come before the mask. */
  function Payload(data: seq<Byte>, h: Head, size: nat, n: nat): seq<Byte>
    requires size + MaskSize(h) + n <= |data|
  {
    var body := data[size + MaskSize(h)..size + MaskSize(h) + n];
    if h.masked then Masked(body, data[size..size + 4]) else body
  }

  datatype Reading =
    | More
    | Message(head: Head, payload: seq<Byte>, used: nat)
    /** A frame above the reader's buffer: a first piece, and what is left. */
    | Oversize(head: Head, piece: seq<Byte>, left: nat)
    /** The reader would look past the data. */
    | Overrun

  /** The reading of a frame whose head is `h` and whose payload has `n` octets. */
  function ReadBody(bufferSize: nat, data: seq<Byte>, h: Head, n: nat): Reading {
    var size := 2 + LengthSize(h);
    var total := D.U64(n + size + MaskSize(h));
    if h.mark < 126 || total <= bufferSize then
      if size + MaskSize(h) + n > |data| then Overrun else Message(h, Payload(data, h, size, n), U32(total))
    else
      var room := D.U64(bufferSize - size);
      if h.mark == 126 then
        var k := if room > n then n else room;
        if size + MaskSize(h) + k > |data| then Overrun
        else Oversize(h, Payload(data, h, size, k), D.U64(total - bufferSize))
      else if size + room > |data| then Overrun
      else Oversize(h, data[size..size + room], D.U64(total - bufferSize))
  }

  function ReadFrame(bufferSize: nat, data: seq<Byte>): Reading {
    if |data| < 2 || |data| < 2 + LengthSize(HeadOf(data)) then More
    else ReadBody(bufferSize, data, HeadOf(data), PayloadLength(data))
  }

  /** get_message_length: it wants the 16 octets of its header structure. */
  function MessageLength(data: seq<Byte>): nat {
    if |data| < 16 then 0
    else D.U64(PayloadLength(data) + 2 + LengthSize(HeadOf(data)) + MaskSize(HeadOf(data)))
  }

  // ---- the writer and the reader undo each other ----

  lemma LengthNumber(n: nat)
    requires 126 <= n < D.M64
    ensures Number(LengthBytes(n)) == n
  {
    if n < 65535 {
      assert Pow256(2) == 65536;
      NumberRoundTrip(n, 2);
    } else {
      assert Pow256(4) == 0x1_0000_0000;
      assert Pow256(8) == D.M64;
      NumberRoundTrip(n, 8);
    }
  }

  function WrittenHead(n: nat, op: Byte, masked: bool): Head { Head(true, op, masked, Mark(n)) }

  /** The first two octets give the head. */
  lemma HeadRead(op: Byte, m: Byte, masked: bool, data: seq<Byte>)
    requires op < 16 && m < 128 && |data| >= 2 && data[0] == TopSet(op) && data[1] == m + MaskBit(masked)
    ensures HeadOf(data) == Head(true, op, masked, m)
  {
  }

  /** The octets of a written frame, one after the other. */
  lemma Layout(n: nat, op: Byte, masked: bool, key: seq<Byte>, tail: seq<Byte>, mark: Byte, length: seq<Byte>)
    requires |key| == 4 && mark == Mark(n) && length == LengthBytes(n)
    ensures var data := Header(n, op, masked, key) + tail;
            var size := 2 + |length|;
            && |data| == size + (if masked then 4 else 0) + |tail|
            && data[0] == TopSet(op) && data[1] == mark + MaskBit(masked)
            && data[2..size] == length
            && (masked ==> data[size..size + 4] == key && data[size + 4..] == tail)
            && (!masked ==> data[size..] == tail)
  {
    var first := [TopSet(op), mark + MaskBit(masked)];
    var data := Header(n, op, masked, key) + tail;
    if masked {
      assert data == first + length + key + tail;
    } else {
      assert data == first + length + tail;
    }
  }

  /** The length is read from the octets that carry it. */
  lemma LengthRead(n: nat, h: Head, data: seq<Byte>)
    requires n < D.M64 && h.mark == Mark(n)
    requires |data| >= 2 + |LengthBytes(n)| && HeadOf(data) == h && data[2..2 + |LengthBytes(n)|] == LengthBytes(n)
    ensures LengthSize(h) == |LengthBytes(n)| && PayloadLength(data) == n
  {
    if n >= 126 {
      LengthNumber(n);
    }
  }

  lemma NoWrap(x: nat)
    requires x < M32
    ensures D.U64(x) == x && U32(x) == x
  {
  }

  /** What is read, once the head and the length are known. */
  lemma ReadKnown(bufferSize: nat, data: seq<Byte>, h: Head, n: nat)
    requires 2 + LengthSize(h) + MaskSize(h) + n <= |data| < M32
    requires h.mark < 126 || 2 + LengthSize(h) + MaskSize(h) + n <= bufferSize
    ensures var size := 2 + LengthSize(h);
            ReadBody(bufferSize, data, h, n) == Message(h, Payload(data, h, size, n), size + MaskSize(h) + n)
  {
    NoWrap(n + (2 + LengthSize(h)) + MaskSize(h));
  }

  /** A written frame begins with its head and its length. */
  lemma FrameStart(
    msg: seq<Byte>, op: Byte, masked: bool, key: seq<Byte>, rest: seq<Byte>, data: seq<Byte>, mark: Byte)
    requires |key| == 4 && data == Frame(msg, op, masked, key) + rest && mark == Mark(|msg|)
    ensures var k := 2 + |LengthBytes(|msg|)|;
            && |data| >= k && data[2..k] == LengthBytes(|msg|)
            && data[0] == TopSet(op) && data[1] == mark + MaskBit(masked)
  {
    var body := if masked then Masked(msg, key) else msg;
    assert data == Header(|msg|, op, masked, key) + (body + rest);
    Layout(|msg|, op, masked, key, body + rest, mark, LengthBytes(|msg|));
  }

  /** The head and the length of a written frame, whatever comes after it. */
  lemma FrameHead(msg: seq<Byte>, op: Byte, masked: bool, key: seq<Byte>, rest: seq<Byte>, data: seq<Byte>)
    requires |key| == 4 && op < 16 && |msg| < D.M64 && data == Frame(msg, op, masked, key) + rest
    ensures var h := WrittenHead(|msg|, op, masked);
            && |data| >= 2 && HeadOf(data) == h && LengthSize(h) == |LengthBytes(|msg|)|
            && |data| >= 2 + LengthSize(h) && PayloadLength(data) == |msg|
  {
    var h := WrittenHead(|msg|, op, masked);
    FrameStart(msg, op, masked, key, rest, data, h.mark);
    HeadRead(op, h.mark, masked, data);
    LengthRead(|msg|, h, data);
  }

  /** The payload of a written frame. */
  lemma FrameBody(
    msg: seq<Byte>, op: Byte, masked: bool, key: seq<Byte>, rest: seq<Byte>, data: seq<Byte>, h: Head, size: nat)
    requires |key| == 4 && data == Frame(msg, op, masked, key) + rest && h.masked == masked
    requires size == 2 + |LengthBytes(|msg|)|
    ensures |Frame(msg, op, masked, key)| == size + MaskSize(h) + |msg| <= |data|
    ensures Payload(data, h, size, |msg|) == msg
  {
    var body := if masked then Masked(msg, key) else msg;
    assert data == Header(|msg|, op, masked, key) + (body + rest);
    Layout(|msg|, op, masked, key, body + rest, Mark(|msg|), LengthBytes(|msg|));
    BodyRead(msg, key, data, size, rest, h);
  }

  lemma BodyRead(msg: seq<Byte>, key: seq<Byte>, data: seq<Byte>, size: nat, rest: seq<Byte>, h: Head)
    requires |key| == 4
    requires if h.masked then
               |data| >= size + 4 && data[size..size + 4] == key && data[size + 4..] == Masked(msg, key) + rest
             else |data| >= size && data[size..] == msg + rest
    ensures |data| == size + MaskSize(h) + |msg| + |rest|
    ensures Payload(data, h, size, |msg|) == msg
  {
    var k := MaskSize(h);
    var tail := data[size + k..];
    assert data[size + k..size + k + |msg|] == tail[..|msg|];
    if h.masked {
      assert tail[..|msg|] == Masked(msg, key);
      MaskTwice(msg, key);
    } else {
      assert tail[..|msg|] == msg;
    }
  }

  /** The reader delivers what the writer was given and uses the whole frame. */
  lemma RoundTrip(bufferSize: nat, msg: seq<Byte>, op: Byte, masked: bool, key: seq<Byte>, rest: seq<Byte>)
    requires |key| == 4 && op < 16
    requires var frame := Frame(msg, op, masked, key);
             (|msg| < 126 || |frame| <= bufferSize) && |frame + rest| < M32
    ensures var frame := Frame(msg, op, masked, key);
            ReadFrame(bufferSize, frame + rest) == Message(WrittenHead(|msg|, op, masked), msg, |frame|)
  {
    var data := Frame(msg, op, masked, key) + rest;
    var h := WrittenHead(|msg|, op, masked);
    FrameHead(msg, op, masked, key, rest, data);
    FrameBody(msg, op, masked, key, rest, data, h, 2 + LengthSize(h));
    assert h.mark < 126 <==> |msg| < 126;
    assert ReadFrame(bufferSize, data) == ReadBody(bufferSize, data, h, |msg|);
    ReadKnown(bufferSize, data, h, |msg|);
  }

  /** So does the function that measures frames. */
  lemma LengthAgrees(msg: seq<Byte>, op: Byte, masked: bool, key: seq<Byte>, rest: seq<Byte>)
    requires |key| == 4 && op < 16
    requires var frame := Frame(msg, op, masked, key); |frame| < D.M64 && 16 <= |frame + rest|
    ensures var frame := Frame(msg, op, masked, key); MessageLength(frame + rest) == |frame|
  {
    var data := Frame(msg, op, masked, key) + rest;
    var h := WrittenHead(|msg|, op, masked);
    FrameHead(msg, op, masked, key, rest, data);
    FrameBody(msg, op, masked, key, rest, data, h, 2 + LengthSize(h));
    Measured(data, h, |msg|, |Frame(msg, op, masked, key)|);
  }

  lemma Measured(data: seq<Byte>, h: Head, n: nat, size: nat)
    requires |data| >= 16 && HeadOf(data) == h && PayloadLength(data) == n
    requires n + 2 + LengthSize(h) + MaskSize(h) == size < D.M64
    ensures MessageLength(data) == size
  {
  }

  lemma BodyUsed(bufferSize: nat, data: seq<Byte>, h: Head, n: nat)
    requires |data| < M32
    ensures var r := ReadBody(bufferSize, data, h, n);
            r.Message? ==> r.used == D.U64(n + 2 + LengthSize(h) + MaskSize(h)) <= |data|
  {
  }

  /** On any bytes, a message that is read has the measured length. */
  lemma ReadAgrees(bufferSize: nat, data: seq<Byte>)
    requires 16 <= |data| < M32
    ensures var r := ReadFrame(bufferSize, data); r.Message? ==> r.used == MessageLength(data) <= |data|
  {
    BodyUsed(bufferSize, data, HeadOf(data), PayloadLength(data));
  }

  // ---- frames that pass the measuring and are still too long ----

  /** The length of the frame that a header announces, without wrapping. */
  function FullLength(data: seq<Byte>): nat
    requires |data| >= 2 && |data| >= 2 + LengthSize(HeadOf(data))
  {
    PayloadLength(data) + 2 + LengthSize(HeadOf(data)) + MaskSize(HeadOf(data))
  }

  lemma PayloadBound(data: seq<Byte>)
    requires |data| >= 2 && |data| >= 2 + LengthSize(HeadOf(data))
    ensures var h := HeadOf(data);
            && PayloadLength(data) < D.M64
            && (h.mark <= 126 ==> PayloadLength(data) < 0x1_0000)
  {
    var h := HeadOf(data);
    if h.mark >= 126 {
      NumberBound(data[2..2 + LengthSize(h)]);
      Powers256();
    }
  }

  lemma Powers256()
    ensures Pow256(2) == 0x1_0000 && Pow256(8) == D.M64
  {
    assert Pow256(4) == 0x1_0000_0000;
  }

  lemma OverrunOf(bufferSize: nat, data: seq<Byte>, h: Head, n: nat)
    requires 14 <= bufferSize < D.M64 && n < D.M64 && (h.mark <= 126 ==> n < 0x1_0000)
    requires D.U64(n + 2 + LengthSize(h) + MaskSize(h)) <= |data| < M32
    ensures var total := n + 2 + LengthSize(h) + MaskSize(h);
            ReadBody(bufferSize, data, h, n).Overrun? <==> total >= D.M64 && total - D.M64 <= bufferSize
  {
    var total := n + 2 + LengthSize(h) + MaskSize(h);
    var room: int := bufferSize - (2 + LengthSize(h));
    Wrapped(total);
    Wrapped(room);
  }

  lemma Wrapped(x: int)
    requires 0 <= x < 2 * D.M64
    ensures D.U64(x) == if x < D.M64 then x else x - D.M64
  {
  }

  /** The function that measures frames adds in 64 bits and wraps, so that a
      frame can pass as whole which is not. The reader looks past data that
      passed if and only if the length wrapped and what is left of it fits the
      reader's buffer. */
  lemma OverrunExactly(bufferSize: nat, data: seq<Byte>)
    requires 14 <= bufferSize < D.M64 && 16 <= |data| < M32 && MessageLength(data) <= |data|
    ensures ReadFrame(bufferSize, data).Overrun? <==>
            FullLength(data) >= D.M64 && MessageLength(data) <= bufferSize
  {
    PayloadBound(data);
    Wrapped(FullLength(data));
    OverrunOf(bufferSize, data, HeadOf(data), PayloadLength(data));
  }

  /** The same for a reader that is given only the bytes that were measured. */
  lemma OverrunOnPackage(bufferSize: nat, data: seq<Byte>)
    requires 14 <= bufferSize < D.M64 && 16 <= |data| < M32 && MessageLength(data) <= |data|
    ensures ReadFrame(bufferSize, data[..MessageLength(data)]).Overrun? <==>
            FullLength(data) >= D.M64 && 10 <= MessageLength(data) <= bufferSize
  {
    var k := MessageLength(data);
    var piece := data[..k];
    PayloadBound(data);
    Wrapped(FullLength(data));
    if k >= 2 {
      SameHead(data, k);
      if k >= 2 + LengthSize(HeadOf(data)) {
        OverrunOf(bufferSize, piece, HeadOf(piece), PayloadLength(piece));
      }
    }
  }

  /** A prefix that holds the head has the same one. */
  lemma SameHead(data: seq<Byte>, k: nat)
    requires 2 <= k <= |data|
    ensures HeadOf(data[..k]) == HeadOf(data)
    ensures k >= 2 + LengthSize(HeadOf(data)) ==> PayloadLength(data[..k]) == PayloadLength(data)
  {
    if k >= 2 + LengthSize(HeadOf(data)) {
      assert data[..k][2..2 + LengthSize(HeadOf(data))] == data[2..2 + LengthSize(HeadOf(data))];
    }
  }

  /** Such a frame: an announced length of 2^64 - 2 measures as 12. */
  lemma WrappedFrame(data: seq<Byte>)
    requires |data| == 16 && data[..2] == [0x82, 0xFF] && data[2..10] == [255, 255, 255, 255, 255, 255, 255, 254]
    ensures MessageLength(data) == 12
    ensures ReadFrame(4096, data).Overrun? && ReadFrame(4096, data[..12]).Overrun?
  {
    assert data[0] == data[..2][0] && data[1] == data[..2][1];
    AlmostAll(data[2..10]);
    Wrapped(FullLength(data));
    OverrunExactly(4096, data);
    OverrunOnPackage(4096, data);
  }

  lemma {:induction false} Ones(d: seq<Byte>)
    requires forall i | 0 <= i < |d| :: d[i] == 255
    ensures Number(d) == Pow256(|d|) - 1
    decreases |d|
  {
    if d != [] {
      Ones(d[..|d| - 1]);
    }
  }

  lemma AlmostAll(d: seq<Byte>)
    requires d == [255, 255, 255, 255, 255, 255, 255, 254]
    ensures Number(d) == D.M64 - 2
  {
    var front := d[..7];
    Ones(front);
    NumberSnoc(front, 254);
    Powers256();
    assert d == front + [254];
  }

  // ---- packages ----

  /** handle_package: how much of the data is one whole frame. The result is a
      32-bit signed number. */
  function Package(data: seq<Byte>): int {
    if MessageLength(data) > |data| then 0 else I32(MessageLength(data))
  }

  /** Of data that starts with a written frame, or with a part of one, the frame
      is reported if and only if all of it is there and at least 16 bytes are. */
  lemma PackageExactly(
    msg: seq<Byte>, op: Byte, masked: bool, key: seq<Byte>, rest: seq<Byte>, data: seq<Byte>)
    requires |key| == 4 && op < 16 && |data| < HALF
    requires var frame := Frame(msg, op, masked, key); |frame| < D.M64 && data <= frame + rest
    ensures var frame := Frame(msg, op, masked, key);
            Package(data) == if |frame| <= |data| && 16 <= |data| then |frame| else 0
  {
    var all := Frame(msg, op, masked, key) + rest;
    if |data| >= 16 {
      LengthAgrees(msg, op, masked, key, rest);
      assert data == all[..|data|];
      SameLength(all, |data|);
    }
  }

  lemma SameLength(all: seq<Byte>, k: nat)
    requires 16 <= k <= |all|
    ensures MessageLength(all[..k]) == MessageLength(all)
  {
    SameHead(all, k);
  }

  // ---- the writer ----

  lemma MulBound(s: nat, t: int, a: nat)
    requires s <= t
    ensures s * a <= t * a == (t + 1) * a - a
  {
  }

  lemma DivDiv(n: nat, a: nat, b: nat)
    requires a > 0 && b > 0
    ensures a * b > 0 && n / a / b == n / (a * b)
  {
    var q, r := n / a, n % a;
    var p, s := q / b, q % b;
    assert n == q * a + r && q == p * b + s;
    assert q * a == p * (a * b) + s * a;
    MulBound(s, b - 1, a);
    DivUnique(n, a * b, p, s * a + r);
  }

  /** Each octet of a number is found by a shift. */
  lemma {:induction false} BigEndianAt(n: nat, k: nat, i: nat)
    requires i < k
    ensures BigEndian(n, k)[i] == n / Pow256(k - 1 - i) % 256
    decreases k
  {
    if i < k - 1 {
      BigEndianAt(n / 256, k - 1, i);
      DivDiv(n, 256, Pow256(k - 2 - i));
      assert Pow256(k - 1 - i) == Pow256(k - 2 - i) * 256;
    } else {
      assert n / 1 == n;
    }
  }

  /** `(n >> shift) & 0xff`, where `unit` is two to the power of the shift. */
  function ByteAt(n: nat, unit: nat): Byte
    requires unit > 0
  {
    n / unit % 256
  }

  lemma ShiftAt(n: nat, k: nat, i: nat, unit: nat)
    requires i < k && unit == Pow256(k - 1 - i)
    ensures BigEndian(n, k)[i] == ByteAt(n, unit)
  {
    BigEndianAt(n, k, i);
  }

  lemma Shifts16(n: nat, o: seq<Byte>)
    requires o == [ByteAt(n, 0x100), ByteAt(n, 1)]
    ensures o == BigEndian(n, 2)
  {
    ShiftAt(n, 2, 0, 0x100);
    ShiftAt(n, 2, 1, 1);
  }

  lemma Shifts64(n: nat, o: seq<Byte>)
    requires |o| == 8
    requires o[0] == ByteAt(n, 0x100_0000_0000_0000) && o[1] == ByteAt(n, 0x1_0000_0000_0000)
    requires o[2] == ByteAt(n, 0x100_0000_0000) && o[3] == ByteAt(n, 0x1_0000_0000)
    requires o[4] == ByteAt(n, 0x100_0000) && o[5] == ByteAt(n, 0x1_0000)
    requires o[6] == ByteAt(n, 0x100) && o[7] == ByteAt(n, 1)
    ensures o == BigEndian(n, 8)
  {
    HighShifts(n, BigEndian(n, 8));
    LowShifts(n, BigEndian(n, 8));
  }

  lemma Powers()
    ensures Pow256(3) == 0x100_0000
    ensures Pow256(7) == 0x100_0000_0000_0000
  {
    assert Pow256(3) == 0x100_0000;
    assert Pow256(5) == 0x100_0000_0000;
  }

  lemma HighShifts(n: nat, o: seq<Byte>)
    requires o == BigEndian(n, 8)
    ensures o[0] == ByteAt(n, 0x100_0000_0000_0000) && o[1] == ByteAt(n, 0x1_0000_0000_0000)
    ensures o[2] == ByteAt(n, 0x100_0000_0000) && o[3] == ByteAt(n, 0x1_0000_0000)
  {
    Powers();
    ShiftAt(n, 8, 3, 0x1_0000_0000);
    ShiftAt(n, 8, 2, 0x100_0000_0000);
    ShiftAt(n, 8, 1, 0x1_0000_0000_0000);
    ShiftAt(n, 8, 0, 0x100_0000_0000_0000);
  }

  lemma LowShifts(n: nat, o: seq<Byte>)
    requires o == BigEndian(n, 8)
    ensures o[4] == ByteAt(n, 0x100_0000) && o[5] == ByteAt(n, 0x1_0000)
    ensures o[6] == ByteAt(n, 0x100) && o[7] == ByteAt(n, 1)
  {
    Powers();
    ShiftAt(n, 8, 7, 1);
    ShiftAt(n, 8, 6, 0x100);
    ShiftAt(n, 8, 5, 0x1_0000);
    ShiftAt(n, 8, 4, 0x100_0000);
  }

  datatype Writing = Written(frame: seq<Byte>) | OutOfBounds

  /** The masking loop. */
  method MaskInPlace(a: array<Byte>, key: seq<Byte>)
    requires |key| == 4
    modifies a
    ensures a[..] == Masked(old(a[..]), key)
  {
    for i := 0 to a.Length
      invariant forall k | 0 <= k < i :: a[k] == Xor(old(a[k]), key[k % 4])
      invariant forall k | i <= k < a.Length :: a[k] == old(a[k])
    {
      a[i] := Xor(a[i], key[i % 4]);
    }
  }

  /** Bytes written one after the other from index `at`. */
  function Put(header: seq<Byte>, at: nat, o: seq<Byte>): (r: seq<Byte>)
    requires at + |o| <= |header|
    ensures |r| == |header|
  {
    header[..at] + o + header[at + |o|..]
  }

  /** The octets of an extended length, as they are shifted out. */
  method ShiftOut(n: nat) returns (o: seq<Byte>)
    ensures o == LengthBytes(n)
  {
    if n < 126 {
      o := [];
    } else if n < 65535 {
      o := [ByteAt(n, 0x100), ByteAt(n, 1)];
      Shifts16(n, o);
    } else {
      o := [ByteAt(n, 0x100_0000_0000_0000), ByteAt(n, 0x1_0000_0000_0000), ByteAt(n, 0x100_0000_0000),
            ByteAt(n, 0x1_0000_0000), ByteAt(n, 0x100_0000), ByteAt(n, 0x1_0000), ByteAt(n, 0x100), ByteAt(n, 1)];
      Shifts64(n, o);
    }
  }

  lemma Assembled(blank: seq<Byte>, first: seq<Byte>, length: seq<Byte>, tail: seq<Byte>)
    requires |blank| == |first| + |length| + |tail|
    ensures Put(Put(Put(blank, 0, first), |first|, length), |first| + |length|, tail) == first + length + tail
  {
  }

  /** The header of a frame. For 65535 octets the header is too short for what
      is written into it. */
  method MakeHeader(n: nat, op: Byte, masked: bool, key: seq<Byte>) returns (r: Writing)
    requires |key| == 4
    ensures r == if n == 65535 then OutOfBounds else Written(Header(n, op, masked, key))
  {
    var size := 2 + (if n >= 126 then 2 else 0) + (if n >= 65536 then 6 else 0) + (if masked then 4 else 0);
    var blank := seq(size, _ => 0);
    var first := [TopSet(op), Mark(n) + MaskBit(masked)];
    var length := ShiftOut(n);
    var tail := if masked then key else [];
    if 2 + |length| + |tail| > size {
      return OutOfBounds;
    }
    Assembled(blank, first, length, tail);
    r := Written(Put(Put(Put(blank, 0, first), 2, length), 2 + |length|, tail));
  }

  /** send_text, up to the sending: the random mask key is an argument. */
  method WriteFrame(msg: seq<Byte>, op: Byte, masked: bool, key: seq<Byte>) returns (r: Writing)
    requires |key| == 4
    ensures r == if |msg| == 65535 then OutOfBounds else Written(Frame(msg, op, masked, key))
  {
    r := MakeHeader(|msg|, op, masked, key);
    if r.Written? {
      var body := new Byte[|msg|](i requires 0 <= i < |msg| => msg[i]);
      assert body[..] == msg;
      if masked {
        MaskInPlace(body, key);
      }
      r := Written(r.frame + body[..]);
    }
  }

  // ---- measuring and reading ----

  method GetMessageLength(data: seq<Byte>) returns (r: nat)
    ensures r == MessageLength(data)
  {
    if |data| < 16 {
      return 0;
    }
    var h := HeadOf(data);
    var headSize := 2;
    if h.masked {
      headSize := headSize + 4;
    }
    if h.mark < 126 {
      r := headSize + h.mark;
    } else if h.mark == 126 {
      r := D.U64(headSize + 2 + Number(data[2..4]));
    } else {
      r := D.U64(headSize + 8 + Number(data[2..10]));
    }
  }

  /** What that means for frames of the writer is said for all of them at once. */
  method HandlePackage(data: seq<Byte>) returns (r: int)
    ensures r == Package(data)
    ensures forall msg: seq<Byte>, op: Byte, masked: bool, key: seq<Byte>, rest: seq<Byte> |
              |key| == 4 && op < 16 && |Frame(msg, op, masked, key)| < D.M64
              && |data| < HALF && data <= Frame(msg, op, masked, key) + rest ::
              r == if |Frame(msg, op, masked, key)| <= |data| && 16 <= |data| then |Frame(msg, op, masked, key)| else 0
  {
    var length := GetMessageLength(data);
    r := if length > |data| then 0 else I32(length);
    forall msg: seq<Byte>, op: Byte, masked: bool, key: seq<Byte>, rest: seq<Byte> |
      |key| == 4 && op < 16 && |Frame(msg, op, masked, key)| < D.M64
      && |data| < HALF && data <= Frame(msg, op, masked, key) + rest
      ensures r == if |Frame(msg, op, masked, key)| <= |data| && 16 <= |data| then |Frame(msg, op, masked, key)| else 0
    {
      PackageExactly(msg, op, masked, key, rest, data);
    }
  }

  /** The unmasking loop: `n` octets from index `at`, behind the key. */
  method Unmask(data: seq<Byte>, at: nat, n: nat) returns (payload: seq<Byte>)
    requires 4 <= at && at + n <= |data|
    ensures payload == Masked(data[at..at + n], data[at - 4..at])
  {
    payload := [];
    for i := 0 to n
      invariant |payload| == i
      invariant forall k | 0 <= k < i :: payload[k] == Xor(data[at + k], data[at - 4 + k % 4])
    {
      payload := payload + [Xor(data[at + i], data[at - 4 + i % 4])];
    }
  }

  class MessageReader {
    const bufferSize: nat
    var head: Head
    var payloadLength: nat
    var leftLength: nat
    /** What the handler was given. */
    var delivered: seq<seq<Byte>>

    constructor (size: nat)
      ensures bufferSize == size && delivered == []
    {
      bufferSize := size;
      head := Head(false, 0, false, 0);
      payloadLength, leftLength, delivered := 0, 0, [];
    }

    /** Hands out `n` payload octets of a frame. */
    method Deliver(data: seq<Byte>, h: Head, size: nat, n: nat)
      requires size + MaskSize(h) + n <= |data|
      modifies this`delivered
      ensures delivered == old(delivered) + [Payload(data, h, size, n)]
    {
      var payload;
      if h.masked {
        payload := Unmask(data, size + 4, n);
      } else {
        payload := data[size..size + n];
      }
      delivered := delivered + [payload];
    }

    /** Reads a frame. The source does not ask whether the data holds what it
        is about to look at; where it does not, the model stops and says so. */
    method Read(data: seq<Byte>) returns (used: nat, overrun: bool)
      requires |data| < M32
      modifies this
      ensures overrun == ReadFrame(bufferSize, data).Overrun?
      ensures match ReadFrame(bufferSize, data)
        case More => used == 0 && delivered == old(delivered)
        case Message(h, payload, n) =>
          used == n && head == h && delivered == old(delivered) + [payload] && payloadLength == |payload|
        case Oversize(h, piece, left) =>
          used == |data| && head == h && delivered == old(delivered) + [piece] && leftLength == left
        case Overrun => delivered == old(delivered)
    {
      used, overrun := 0, false;
      if |data| < 2 {
        return;
      }
      head := HeadOf(data);
      var size := 2 + LengthSize(head);
      if head.mark >= 126 && |data| < size {
        return;
      }
      payloadLength := if head.mark < 126 then head.mark else Number(data[2..size]);
      used, overrun := Hand(data, size, payloadLength);
    }

    /** Hands out the payload, once the length is known. */
    method Hand(data: seq<Byte>, size: nat, n: nat) returns (used: nat, overrun: bool)
      requires |data| < M32 && size == 2 + LengthSize(head)
      modifies this`leftLength, this`delivered
      ensures overrun == ReadBody(bufferSize, data, head, n).Overrun?
      ensures match ReadBody(bufferSize, data, head, n)
        case More => false
        case Message(h, payload, k) =>
          used == k && head == h && delivered == old(delivered) + [payload] && n == |payload|
        case Oversize(h, piece, left) =>
          used == |data| && head == h && delivered == old(delivered) + [piece] && leftLength == left
        case Overrun => delivered == old(delivered)
    {
      used, overrun := 0, false;
      var total := D.U64(n + size + MaskSize(head));
      if head.mark < 126 || total <= bufferSize {
        if size + MaskSize(head) + n > |data| {
          overrun := true;
          return;
        }
        Deliver(data, head, size, n);
        used := U32(total);
        return;
      }
      used, overrun := HandPiece(data, size, n, total);
    }

    /** The first piece of a frame above the buffer. With a 64-bit length it is
        handed out as it is. */
    method HandPiece(data: seq<Byte>, size: nat, n: nat, total: nat) returns (used: nat, overrun: bool)
      requires |data| < M32 && size == 2 + LengthSize(head)
      requires total == D.U64(n + size + MaskSize(head)) > bufferSize && head.mark >= 126
      modifies this`leftLength, this`delivered
      ensures var r := ReadBody(bufferSize, data, head, n);
              && overrun == r.Overrun?
              && (overrun ==> delivered == old(delivered))
              && (!overrun ==>
                    && r.Oversize? && r.head == head && used == |data|
                    && delivered == old(delivered) + [r.piece] && leftLength == r.left)
    {
      used, overrun := 0, false;
      leftLength := D.U64(total - bufferSize);
      var room := D.U64(bufferSize - size);
      if head.mark == 126 {
        var k := if room > n then n else room;
        if size + MaskSize(head) + k > |data| {
          overrun := true;
          return;
        }
        Deliver(data, head, size, k);
      } else {
        if size + room > |data| {
          overrun := true;
          return;
        }
        delivered := delivered + [data[size..size + room]];
      }
      used := |data|;
    }
  }
}
