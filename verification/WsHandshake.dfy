// The accept key of include/websocket/wsock_shakehand.hpp: the base64 text of
// the SHA-1 digest of a client's key followed by the GUID of RFC 6455.
module WsHandshake {
  import opened Sha1
  import opened Seqs

  type Octet = bv8

  // ---- base64 (section 4 of RFC 4648) ----

  const UPPER: string := "ABCDEFGHIJKLMNOPQRSTUVWXYZ"
  const LOWER: string := "abcdefghijklmnopqrstuvwxyz"
  const ALPHABET: string := UPPER + LOWER + "0123456789+/"

  function Symbol(v: Octet): char
    requires v < 64
  {
    ALPHABET[v as int]
  }

  /** Three octets as a 24-bit group. */
  function Group24(x: Octet, y: Octet, z: Octet): bv24 {
    ((x as bv24) << 16) | ((y as bv24) << 8) | (z as bv24)
  }

  /** Four 6-bit parts of the group, most significant first. */
  function Quad(x: Octet, y: Octet, z: Octet): (r: string)
    ensures |r| == 4
  {
    var n := Group24(x, y, z);
    [Symbol(((n >> 18) & 63) as Octet), Symbol(((n >> 12) & 63) as Octet),
     Symbol(((n >> 6) & 63) as Octet), Symbol((n & 63) as Octet)]
  }

  function Base64(d: seq<Octet>): string {
    if |d| == 0 then ""
    else if |d| == 1 then Quad(d[0], 0, 0)[..2] + "=="
    else if |d| == 2 then Quad(d[0], d[1], 0)[..3] + "="
    else Quad(d[0], d[1], d[2]) + Base64(d[3..])
  }

  /** The source computes the four parts from the octets. */
  lemma Parts(x: Octet, y: Octet, z: Octet)
    ensures ((Group24(x, y, z) >> 18) & 63) as Octet == (x >> 2) & 63
    ensures ((Group24(x, y, z) >> 12) & 63) as Octet == ((x & 3) << 4) | ((y & 240) >> 4)
    ensures ((Group24(x, y, z) >> 6) & 63) as Octet == ((y & 15) << 2) | ((z & 192) >> 6)
    ensures (Group24(x, y, z) & 63) as Octet == z & 63
  {
  }

  /** The same parts, in the form of the general encoder. */
  lemma OtherParts(x: Octet, y: Octet, z: Octet)
    ensures (x & 0xFC) >> 2 == (x >> 2) & 63
    ensures ((x & 0x03) << 4) + ((y & 0xF0) >> 4) == ((x & 3) << 4) | ((y & 240) >> 4)
    ensures ((y & 0x0F) << 2) + ((z & 0xC0) >> 6) == ((y & 15) << 2) | ((z & 192) >> 6)
    ensures (x & 0xFC) >> 2 < 64 && ((x & 0x03) << 4) + ((y & 0xF0) >> 4) < 64
    ensures ((y & 0x0F) << 2) + ((z & 0xC0) >> 6) < 64 && z & 0x3F < 64
  {
  }

  method EncodeQuad(x: Octet, y: Octet, z: Octet) returns (r: string)
    ensures r == Quad(x, y, z)
  {
    Parts(x, y, z);
    OtherParts(x, y, z);
    var a, b := (x & 0xFC) >> 2, ((x & 0x03) << 4) + ((y & 0xF0) >> 4);
    var c, d := ((y & 0x0F) << 2) + ((z & 0xC0) >> 6), z & 0x3F;
    r := [Symbol(a), Symbol(b), Symbol(c), Symbol(d)];
  }

  lemma BaseThree(d: seq<Octet>)
    requires |d| >= 3
    ensures Base64(d) == Quad(d[0], d[1], d[2]) + Base64(d[3..])
  {
  }

  lemma Encoded(data: seq<Octet>, r: string, done: nat)
    requires done + 3 <= |data| && Base64(data) == r + Base64(data[done..])
    ensures Base64(data) == r + Quad(data[done], data[done + 1], data[done + 2]) + Base64(data[done + 3..])
  {
    TailOfTail(data, done, done + 3);
    BaseThree(data[done..]);
    Assoc(r, Quad(data[done], data[done + 1], data[done + 2]), Base64(data[done + 3..]));
  }

  lemma Padded(data: seq<Octet>, r: string, done: nat)
    requires done <= |data| <= done + 2 && Base64(data) == r + Base64(data[done..])
    ensures |data| == done ==> Base64(data) == r
    ensures |data| == done + 1 ==> Base64(data) == r + (Quad(data[done], 0, 0)[..2] + "==")
    ensures |data| == done + 2 ==> Base64(data) == r + (Quad(data[done], data[done + 1], 0)[..3] + "=")
  {
  }

  /** `i` octets wait in `triple`, and all before them are encoded. */
  ghost predicate Waiting(data: seq<Octet>, r: string, done: nat, triple: seq<Octet>, i: nat) {
    && i <= 3 && done + i <= |data| && |triple| == 3
    && triple[..i] == data[done..done + i] && Base64(data) == r + Base64(data[done..])
  }

  lemma OneMore(data: seq<Octet>, r: string, done: nat, triple: seq<Octet>, i: nat, p: nat)
    requires Waiting(data, r, done, triple, i) && i < 3 && p == done + i < |data|
    ensures Waiting(data, r, done, triple[i := data[p]], i + 1)
  {
    assert triple[i := data[p]][..i + 1] == triple[..i] + [data[p]];
  }

  lemma ThreeMore(data: seq<Octet>, r: string, done: nat, triple: seq<Octet>)
    requires Waiting(data, r, done, triple, 3)
    ensures Waiting(data, r + Quad(triple[0], triple[1], triple[2]), done + 3, triple, 0)
  {
    Encoded(data, r, done);
    assert triple[0] == data[done..done + 3][0] && triple[1] == data[done..done + 3][1]
        && triple[2] == data[done..done + 3][2];
  }

  lemma LastMore(data: seq<Octet>, r: string, done: nat, triple: seq<Octet>, i: nat)
    requires Waiting(data, r, done, triple, i) && done + i == |data| && i < 3
    ensures i == 0 ==> Base64(data) == r
    ensures i == 1 ==> Base64(data) == r + (Quad(triple[0], 0, 0)[..2] + "==")
    ensures i == 2 ==> Base64(data) == r + (Quad(triple[0], triple[1], 0)[..3] + "=")
  {
    Padded(data, r, done);
    assert i > 0 ==> triple[0] == triple[..i][0] == data[done];
    assert i > 1 ==> triple[1] == triple[..i][1] == data[done + 1];
  }

  /** The encoder for strings: collects three octets at a time, and pads. */
  method EncodeText(data: seq<Octet>) returns (r: string)
    ensures r == Base64(data)
  {
    r := "";
    var triple: seq<Octet> := [0, 0, 0];
    var i := 0;
    ghost var done := 0;
    assert data[0..] == data;
    for p := 0 to |data|
      invariant i < 3 && p == done + i && Waiting(data, r, done, triple, i)
    {
      OneMore(data, r, done, triple, i, p);
      triple := triple[i := data[p]];
      i := i + 1;
      if i == 3 {
        ThreeMore(data, r, done, triple);
        var quad := EncodeQuad(triple[0], triple[1], triple[2]);
        r := r + quad;
        i := 0;
        done := p + 1;
      }
    }
    LastMore(data, r, done, triple, i);
    if i > 0 {
      var last := EncodeLast(triple[0], triple[1], i);
      r := r + last;
    }
  }

  /** The last one or two octets. */
  method EncodeLast(x: Octet, y: Octet, i: nat) returns (r: string)
    requires 1 <= i <= 2
    ensures r == if i == 1 then Quad(x, 0, 0)[..2] + "==" else Quad(x, y, 0)[..3] + "="
  {
    var quad := EncodeQuad(x, if i > 1 then y else 0, 0);
    r := if i == 1 then quad[..2] + "==" else quad[..3] + "=";
  }

  /** The encoder for a digest of 20 octets. */
  method EncodeDigest(src: seq<Octet>) returns (dst: string)
    requires |src| == 20
    ensures dst == Base64(src) && |dst| == 28
  {
    dst := "";
    var i := 0;
    ghost var n := 0;
    while i < 18
      invariant i == 3 * n && n <= 6 && |dst| == 4 * n
      invariant Base64(src) == dst + Base64(src[i..])
    {
      Encoded(src, dst, i);
      var quad := DigestQuad(src[i], src[i + 1], src[i + 2]);
      dst := dst + quad;
      i, n := i + 3, n + 1;
    }
    Padded(src, dst, 18);
    var quad := DigestQuad(src[18], src[19], 0);
    dst := dst + (quad[..3] + "=");
  }

  method DigestQuad(x: Octet, y: Octet, z: Octet) returns (r: string)
    ensures r == Quad(x, y, z)
  {
    Parts(x, y, z);
    OtherParts(x, y, z);
    var a, b := (x >> 2) & 63, ((x & 3) << 4) | ((y & 240) >> 4);
    var c, d := ((y & 15) << 2) | ((z & 192) >> 6), z & 63;
    r := [Symbol(a), Symbol(b), Symbol(c), Symbol(d)];
  }

  // ---- messages and blocks (section 5.1.1 of FIPS 180-4) ----

  function WordOf(a: Octet, b: Octet, c: Octet, d: Octet): Word {
    ((a as Word) << 24) | ((b as Word) << 16) | ((c as Word) << 8) | (d as Word)
  }

  function OctetsOf(w: Word): seq<Octet> {
    [((w >> 24) & 0xFF) as Octet, ((w >> 16) & 0xFF) as Octet, ((w >> 8) & 0xFF) as Octet, (w & 0xFF) as Octet]
  }

  type Joiner = (Octet, Octet, Octet, Octet) -> Word

  /** Octets joined by fours. */
  function Joined(word: Joiner, d: seq<Octet>): (r: seq<Word>)
    requires |d| % 4 == 0
    ensures |r| == |d| / 4
  {
    seq(|d| / 4, i requires 0 <= i < |d| / 4 => word(d[4 * i], d[4 * i + 1], d[4 * i + 2], d[4 * i + 3]))
  }

  const WORD: Joiner := (a: Octet, b: Octet, c: Octet, d: Octet) => WordOf(a, b, c, d)

  function Words(block: seq<Octet>): (r: seq<Word>)
    requires |block| % 4 == 0
    ensures |r| == |block| / 4
  {
    Joined(WORD, block)
  }

  /** A number in 64 bits, most significant octet first. */
  function Length64(n: bv64): (r: seq<Octet>)
    ensures |r| == 8
  {
    OctetsOf(((n >> 32) & 0xFFFF_FFFF) as Word) + OctetsOf((n & 0xFFFF_FFFF) as Word)
  }

  /** The message, a one bit, zeros, and the message's length in bits. */
  function Pad(msg: seq<Octet>): (r: seq<Octet>)
    requires 8 * |msg| < 0x1_0000_0000_0000_0000
    ensures |r| % 64 == 0
  {
    var zeros := (119 - |msg| % 64) % 64;
    assert (|msg| + 1 + zeros + 8) % 64 == 0;
    var length: bv64 := (8 * |msg|) as bv64;
    msg + [0x80] + seq(zeros, _ => 0 as Octet) + Length64(length)
  }

  const INITIAL: seq<Word> := [0x67452301, 0xefcdab89, 0x98badcfe, 0x10325476, 0xc3d2e1f0]

  function Hash(h: seq<Word>, blocks: seq<Octet>): (r: seq<Word>)
    requires |h| == 5 && |blocks| % 64 == 0
    ensures |r| == 5
    decreases |blocks|
  {
    if |blocks| == 0 then h else Hash(Compress(STANDARD, h, Words(blocks[..64])), blocks[64..])
  }

  function Digest(h: seq<Word>): (r: seq<Octet>)
    ensures |r| == 4 * |h|
  {
    if h == [] then [] else Digest(h[..|h| - 1]) + OctetsOf(h[|h| - 1])
  }

  // ---- the accept key ----

  /** "258EAFA5-E914-47DA-95CA-C5AB0DC85B11" (section 1.3 of RFC 6455). */
  const GUID: seq<Octet> := [
    0x32, 0x35, 0x38, 0x45, 0x41, 0x46, 0x41, 0x35, 0x2D, 0x45, 0x39, 0x31,
    0x34, 0x2D, 0x34, 0x37, 0x44, 0x41, 0x2D, 0x39, 0x35, 0x43, 0x41, 0x2D,
    0x43, 0x35, 0x41, 0x42, 0x30, 0x44, 0x43, 0x38, 0x35, 0x42, 0x31, 0x31]

  /** The rest of the first block, as the source spells it. */
  const TAIL: seq<Word> := [
    0x32353845, 0x41464135, 0x2d453931, 0x342d3437, 0x44412d39,
    0x3543412d, 0x43354142, 0x30444338, 0x35423131, 0x80000000]

  const LAST: seq<Word> := [0, 0, 0, 0, 0, 0, 0, 0, 0, 0, 0, 0, 0, 0, 0, 480]

  /** The digest that section 4.2.2 of RFC 6455 asks for. */
  function AcceptDigest(key: seq<Octet>): (r: seq<Octet>)
    requires |key| == 24
    ensures |r| == 20
  {
    Digest(Hash(INITIAL, Pad(key + GUID)))
  }

  lemma TailWords0()
    ensures WordOf(GUID[0], GUID[1], GUID[2], GUID[3]) == TAIL[0]
  {
  }

  lemma TailWords1()
    ensures WordOf(GUID[4], GUID[5], GUID[6], GUID[7]) == TAIL[1]
  {
  }

  lemma TailWords2()
    ensures WordOf(GUID[8], GUID[9], GUID[10], GUID[11]) == TAIL[2]
  {
  }

  lemma TailWords3()
    ensures WordOf(GUID[12], GUID[13], GUID[14], GUID[15]) == TAIL[3]
    ensures WordOf(GUID[16], GUID[17], GUID[18], GUID[19]) == TAIL[4]
  {
  }

  lemma TailWords4()
    ensures WordOf(GUID[20], GUID[21], GUID[22], GUID[23]) == TAIL[5]
    ensures WordOf(GUID[24], GUID[25], GUID[26], GUID[27]) == TAIL[6]
  {
  }

  lemma TailWords5()
    ensures WordOf(GUID[28], GUID[29], GUID[30], GUID[31]) == TAIL[7]
    ensures WordOf(GUID[32], GUID[33], GUID[34], GUID[35]) == TAIL[8]
  {
  }

  lemma LengthOctets()
    ensures Length64(480) == [0, 0, 0, 0, 0, 0, 1, 224]
    ensures WordOf(0, 0, 1, 224) == 480 && WordOf(0, 0, 0, 0) == 0 && WordOf(0x80, 0, 0, 0) == 0x80000000
  {
  }

  /** A key and the GUID fill one block but for the first padding octet, and the
      rest of the padding is the second block. */
  lemma PaddedKey(key: seq<Octet>)
    requires |key| == 24
    ensures var p := Pad(key + GUID);
            && |p| == 128 && p[..60] == key + GUID && p[60] == 0x80
            && (forall i | 61 <= i < 126 :: p[i] == 0) && p[126] == 1 && p[127] == 224
  {
    LengthOctets();
    assert |key + GUID| == 60;
    assert (8 * |key + GUID|) as bv64 == 480;
  }

  lemma JoinedAppend(word: Joiner, a: seq<Octet>, b: seq<Octet>)
    requires |a| % 4 == 0 && |b| % 4 == 0
    ensures |a + b| % 4 == 0 && Joined(word, a + b) == Joined(word, a) + Joined(word, b)
  {
  }

  /** The source's first block: the key's words and the constants. */
  lemma FirstBlock(key: seq<Octet>)
    requires |key| == 24
    ensures |Pad(key + GUID)| == 128 && Words(Pad(key + GUID)[..64]) == Words(key) + TAIL
  {
    PaddedKey(key);
    var p := Pad(key + GUID);
    assert p[..64] == key + (GUID + [0x80, 0, 0, 0]);
    JoinedAppend(WORD, key, GUID + [0x80, 0, 0, 0]);
    JoinedAppend(WORD, GUID, [0x80, 0, 0, 0]);
    GuidWords();
  }

  /** The GUID's words are the constants of the source. */
  lemma GuidWord(i: nat)
    requires i < 9
    ensures Words(GUID)[i] == TAIL[i]
  {
    match i
    case 0 => TailWords0();
    case 1 => TailWords1();
    case 2 => TailWords2();
    case 3 => TailWords3();
    case 4 => TailWords3();
    case 5 => TailWords4();
    case 6 => TailWords4();
    case _ => TailWords5();
  }

  lemma GuidWords()
    ensures Words(GUID) + Words([0x80, 0, 0, 0]) == TAIL
  {
    LengthOctets();
    var w := Words(GUID);
    forall i | 0 <= i < 9 ensures w[i] == TAIL[i] {
      GuidWord(i);
    }
    assert Words([0x80, 0, 0, 0]) == [0x80000000];
    assert TAIL == TAIL[..9] + [0x80000000];
  }

  /** The source's second block: zeros and the length in bits. */
  lemma LastBlock(key: seq<Octet>)
    requires |key| == 24
    ensures |Pad(key + GUID)| == 128 && Words(Pad(key + GUID)[64..]) == LAST
  {
    PaddedKey(key);
    LengthOctets();
  }

  /** Hashing a key's two blocks. */
  lemma TwoBlocks(key: seq<Octet>)
    requires |key| == 24
    ensures Hash(INITIAL, Pad(key + GUID))
            == Compress(STANDARD, Compress(STANDARD, INITIAL, Words(key) + TAIL), LAST)
  {
    var p := Pad(key + GUID);
    FirstBlock(key);
    LastBlock(key);
    assert p[64..][..64] == p[64..] && p[64..][64..] == [];
    var h := Compress(STANDARD, INITIAL, Words(p[..64]));
    assert Hash(h, p[64..]) == Hash(Compress(STANDARD, h, Words(p[64..])), []);
  }

  lemma WordForm(a: Octet, b: Octet, c: Octet, d: Octet)
    ensures (d as Word) | ((c as Word) << 8) | ((b as Word) << 16) | ((a as Word) << 24) == WordOf(a, b, c, d)
  {
  }

  /** The first block, filled in with the key. */
  method LoadKey(input: seq<Octet>, b: array<Word>)
    requires |input| == 24 && b.Length == 16 && b[6..] == TAIL
    modifies b
    ensures b[..] == Words(input) + TAIL
  {
    for i := 0 to 6
      invariant b[6..] == TAIL
      invariant forall j | 0 <= j < i :: b[j] == Words(input)[j]
    {
      WordForm(input[4 * i], input[4 * i + 1], input[4 * i + 2], input[4 * i + 3]);
      b[i] := (input[4 * i + 3] as Word) | ((input[4 * i + 2] as Word) << 8)
        | ((input[4 * i + 1] as Word) << 16) | ((input[4 * i] as Word) << 24);
    }
  }

  lemma DigestSnoc(h: seq<Word>, i: nat)
    requires i < |h|
    ensures Digest(h[..i + 1]) == Digest(h[..i]) + OctetsOf(h[i])
  {
    assert h[..i + 1][..i] == h[..i];
  }

  /** The registers as octets, most significant first. */
  method Unload(h: array<Word>) returns (r: seq<Octet>)
    ensures r == Digest(h[..])
  {
    r := [];
    for i := 0 to h.Length
      invariant r == Digest(h[..i])
    {
      var w := h[i];
      DigestSnoc(h[..], i);
      r := r + [((w >> 24) & 0xFF) as Octet, ((w >> 16) & 0xFF) as Octet,
                ((w >> 8) & 0xFF) as Octet, (w & 0xFF) as Octet];
    }
    assert h[..h.Length] == h[..];
  }

  /** The two blocks, hashed one after the other. */
  method HashKey(ops: Ops, input: seq<Octet>) returns (hash: array<Word>)
    requires |input| == 24
    ensures fresh(hash) && hash[..] == Compress(ops, Compress(ops, INITIAL, Words(input) + TAIL), LAST)
  {
    hash := new Word[5](i requires 0 <= i < 5 => INITIAL[i]);
    assert hash[..] == INITIAL;
    var first := new Word[16](i => if 6 <= i < 16 then TAIL[i - 6] else 0);
    assert first[6..] == TAIL;
    LoadKey(input, first);
    Sha1.Sha1(ops, hash, first);
    var last := new Word[16](i requires 0 <= i < 16 => LAST[i]);
    assert last[..] == LAST;
    Sha1.Sha1(ops, hash, last);
  }

  /** The source's operations give the standard's digest. */
  lemma KeyHash(key: seq<Octet>)
    requires |key| == 24
    ensures Compress(SOURCE, Compress(SOURCE, INITIAL, Words(key) + TAIL), LAST) == Hash(INITIAL, Pad(key + GUID))
  {
    SourceAgrees();
    CompressAgrees(SOURCE, STANDARD, INITIAL, Words(key) + TAIL);
    CompressAgrees(SOURCE, STANDARD, Compress(STANDARD, INITIAL, Words(key) + TAIL), LAST);
    TwoBlocks(key);
  }

  /** The accept key for a client's key. */
  method Generate(input: seq<Octet>) returns (output: string)
    requires |input| == 24
    ensures output == Base64(AcceptDigest(input)) && |output| == 28
  {
    var hash := HashKey(SOURCE, input);
    KeyHash(input);
    var octets := Unload(hash);
    output := EncodeDigest(octets);
  }
}
