// A segment octet by octet, and which datagrams ikcp_input reads to their end:
// those that are segments of the connection, one behind the other, and then fewer
// octets than a header.
module KcpOctets {
  import opened Circular
  import opened Seqs
  import opened KcpModel
  import opened KcpWire

  // ---- the header ----

  /** Octet `i` of a number, the least significant one first. */
  function OctetOf(v: int, i: nat): Byte
    decreases i
  {
    if i == 0 then v % 256 else OctetOf(v / 256, i - 1)
  }

  predicate NumberAt(d: seq<Byte>, at: nat, size: nat, v: int) {
    at + size <= |d| && forall i | 0 <= i < size :: d[at + i] == OctetOf(v, i)
  }

  /** A segment: the header's fields where they stand, and then the data. */
  predicate IsSegment(w: Wire, d: seq<Byte>) {
    && |d| == 24 + |w.data|
    && NumberAt(d, 0, 4, w.conv) && NumberAt(d, 4, 1, w.cmd) && NumberAt(d, 5, 1, w.frg) && NumberAt(d, 6, 2, w.wnd)
    && NumberAt(d, 8, 4, w.ts) && NumberAt(d, 12, 4, w.sn) && NumberAt(d, 16, 4, w.una) && NumberAt(d, 20, 4, |w.data|)
    && d[24..] == w.data
  }

  lemma Octets16(v: int)
    ensures OctetOf(v, 0) == v % 256 && OctetOf(v, 1) == v / 256 % 256
  {
    assert OctetOf(v, 1) == OctetOf(v / 256, 0);
  }

  lemma TwoPlaces(v: int)
    ensures v / 256 / 256 == v / 0x1_0000 && v / 0x1_0000 / 256 == v / 0x100_0000
  {
  }

  lemma Octets32(v: int)
    ensures OctetOf(v, 2) == v / 0x1_0000 % 256 && OctetOf(v, 3) == v / 0x100_0000 % 256
  {
    Octets16(v / 256);
    Octets16(v / 0x1_0000);
    TwoPlaces(v);
    TwoPlaces(v / 256);
    assert OctetOf(v, 2) == OctetOf(v / 256, 1);
    assert OctetOf(v / 256, 2) == OctetOf(v / 256 / 256, 1);
    assert OctetOf(v, 3) == OctetOf(v / 256, 2);
  }

  lemma Enc16At(v: int)
    ensures NumberAt(Enc16(v), 0, 2, v)
  {
    Octets16(v);
  }

  lemma Enc32At(v: int)
    ensures NumberAt(Enc32(v), 0, 4, v)
  {
    Octets16(v);
    Octets32(v);
    assert v / 0x1_0000 / 256 == v / 0x100_0000;
  }

  lemma NumberIn(d: seq<Byte>, at: nat, b: seq<Byte>, v: int)
    requires at + |b| <= |d| && d[at..at + |b|] == b && NumberAt(b, 0, |b|, v)
    ensures NumberAt(d, at, |b|, v)
  {
    forall i | 0 <= i < |b| ensures d[at + i] == OctetOf(v, i) {
      assert b[0 + i] == OctetOf(v, i) && d[at..at + |b|][i] == b[i];
    }
  }

  lemma HeadParts(w: Wire, d: seq<Byte>)
    requires d == Encode(w)
    ensures d[0..4] == Enc32(w.conv) && d[4] == w.cmd % 256 && d[5] == w.frg % 256 && d[6..8] == Enc16(w.wnd)
    ensures d[8..12] == Enc32(w.ts) && d[12..16] == Enc32(w.sn) && d[16..20] == Enc32(w.una)
    ensures d[20..24] == Enc32(|w.data|) && d[24..] == w.data
  {
  }

  /** What is written is a segment, whatever its fields: each is cut to its octets. */
  lemma EncodeIsSegment(w: Wire)
    ensures IsSegment(w, Encode(w))
  {
    var d := Encode(w);
    HeadParts(w, d);
    Enc32At(w.conv);
    Enc16At(w.wnd);
    Enc32At(w.ts);
    Enc32At(w.sn);
    Enc32At(w.una);
    Enc32At(|w.data|);
    NumberIn(d, 0, Enc32(w.conv), w.conv);
    NumberIn(d, 6, Enc16(w.wnd), w.wnd);
    NumberIn(d, 8, Enc32(w.ts), w.ts);
    NumberIn(d, 12, Enc32(w.sn), w.sn);
    NumberIn(d, 16, Enc32(w.una), w.una);
    NumberIn(d, 20, Enc32(|w.data|), |w.data|);
  }

  /** No other octets are that segment. */
  lemma SegmentIsEncode(w: Wire, d: seq<Byte>)
    requires IsSegment(w, d)
    ensures d == Encode(w)
  {
    EncodeIsSegment(w);
    var e := Encode(w);
    forall i | 0 <= i < 24 ensures d[i] == e[i] {
      SameOctet(w, d, e, i);
    }
    forall i | 24 <= i < |d| ensures d[i] == e[i] {
      assert d[24..][i - 24] == e[24..][i - 24];
    }
  }

  lemma SameOctet(w: Wire, d: seq<Byte>, e: seq<Byte>, i: nat)
    requires IsSegment(w, d) && IsSegment(w, e) && i < 24
    ensures d[i] == e[i]
  {
    if i < 4 {
      SameNumber(d, e, 0, 4, w.conv, i);
    } else if i < 5 {
      SameNumber(d, e, 4, 1, w.cmd, 0);
    } else if i < 6 {
      SameNumber(d, e, 5, 1, w.frg, 0);
    } else if i < 8 {
      SameNumber(d, e, 6, 2, w.wnd, i - 6);
    } else if i < 12 {
      SameNumber(d, e, 8, 4, w.ts, i - 8);
    } else if i < 16 {
      SameNumber(d, e, 12, 4, w.sn, i - 12);
    } else if i < 20 {
      SameNumber(d, e, 16, 4, w.una, i - 16);
    } else {
      SameNumber(d, e, 20, 4, |w.data|, i - 20);
    }
  }

  lemma SameNumber(d: seq<Byte>, e: seq<Byte>, at: nat, size: nat, v: int, i: nat)
    requires NumberAt(d, at, size, v) && NumberAt(e, at, size, v) && i < size
    ensures d[at + i] == e[at + i]
  {
    assert d[at + i] == OctetOf(v, i) == e[at + i];
  }

  // ---- reading ----

  lemma Enc16Dec16(b: seq<Byte>)
    requires |b| == 2
    ensures Enc16(Dec16(b)) == b
  {
  }

  lemma Enc32Dec32(b: seq<Byte>)
    requires |b| == 4
    ensures Enc32(Dec32(b)) == b
  {
    var lo: int, hi: int := Dec16(b[..2]), Dec16(b[2..]);
    Enc16Dec16(b[..2]);
    Enc16Dec16(b[2..]);
    LowHalf(lo, hi);
    assert b == b[..2] + b[2..];
  }

  lemma LowHalf(lo: int, hi: int)
    requires 0 <= lo < 0x1_0000 && 0 <= hi < 0x1_0000
    ensures Enc16(lo + 0x1_0000 * hi) == Enc16(lo) && (lo + 0x1_0000 * hi) / 0x1_0000 == hi
  {
    LowOctets(lo, 256 * hi);
    LowOctets(lo / 256, hi);
  }

  lemma LowOctets(lo: int, hi: int)
    ensures (lo + 256 * hi) % 256 == lo % 256 && (lo + 256 * hi) / 256 == lo / 256 + hi
  {
  }

  lemma HeadOf(d: seq<Byte>)
    requires |d| >= 24
    ensures d[..24] == d[..4] + [d[4], d[5]] + d[6..8] + d[8..12] + d[12..16] + d[16..20] + d[20..24]
  {
  }

  /** A header that is read is the one that would be written. */
  lemma ReadIsWritten(d: seq<Byte>)
    requires |d| >= 24
    ensures var (h, len) := DecodeHead(d);
            forall w: Wire :: w == h.(data := w.data) && |w.data| == len ==> EncodeHead(w) == d[..24]
  {
    HeadOf(d);
    Enc32Dec32(d[..4]);
    Enc16Dec16(d[6..8]);
    Enc32Dec32(d[8..12]);
    Enc32Dec32(d[12..16]);
    Enc32Dec32(d[16..20]);
    Enc32Dec32(d[20..24]);
  }

  lemma GotIsWritten(conv: nat, d: seq<Byte>)
    requires ParseOne(conv, d).Got?
    ensures d == Encode(ParseOne(conv, d).w) + ParseOne(conv, d).rest
  {
    ReadIsWritten(d);
    var w := ParseOne(conv, d).w;
    var len := |w.data|;
    SliceBoth(d, 24);
    SliceBoth(d[24..], len);
    assert d[24..][..len] == d[24..24 + len] && d[24..][len..] == d[24 + len..];
    Assoc(EncodeHead(w), w.data, ParseOne(conv, d).rest);
  }

  // ---- whole datagrams ----

  /** Segments of the connection, and behind them too little for a header. */
  predicate IsDatagram(conv: nat, ws: seq<Wire>, tail: seq<Byte>, d: seq<Byte>) {
    OwnWires(conv, ws) && |tail| < 24 && d == EncodeAll(ws) + tail
  }

  lemma FrontEncoded(w: Wire, ws: seq<Wire>, rest: seq<Byte>)
    ensures EncodeAll([w] + ws) + rest == Encode(w) + (EncodeAll(ws) + rest)
  {
    EncodeAllFront([w] + ws);
    assert ([w] + ws)[1..] == ws;
    Assoc(Encode(w), EncodeAll(ws), rest);
  }

  /** Whatever the bytes: the segments in front that are read, and what is left. */
  lemma {:induction false} ReadTo(conv: nat, d: seq<Byte>) returns (ws: seq<Wire>, rest: seq<Byte>)
    ensures OwnWires(conv, ws) && d == EncodeAll(ws) + rest && !ParseOne(conv, rest).Got?
    decreases |d|
  {
    var p := ParseOne(conv, d);
    if p.Got? {
      GotIsWritten(conv, d);
      var more;
      more, rest := ReadTo(conv, p.rest);
      FrontEncoded(p.w, more, rest);
      ws := [p.w] + more;
    } else {
      ws, rest := [], d;
    }
  }

  /** The state after some segments, before what ends ikcp_input. */
  function AfterSegs(k: Kcb, ws: seq<Wire>): Kcb
    decreases |ws|
  {
    if ws == [] then k else AfterSegs(InputSeg(WRAP, k, ws[0]), ws[1..])
  }

  function LastCmd(cmd: int, ws: seq<Wire>): int { if ws == [] then cmd else ws[|ws| - 1].cmd }

  lemma ReadsOne(k: Kcb, m: MaxAck, prevUna: int, cmd: int, w: Wire, d: seq<Byte>)
    requires OwnWires(k.cf.conv, [w])
    ensures InputBytesFrom(WRAP, k, m, prevUna, cmd, Encode(w) + d) ==
              InputBytesFrom(WRAP, InputSeg(WRAP, k, w), NoteSeg(WRAP, m, w), prevUna, w.cmd, d)
    ensures InputSeg(WRAP, k, w).cf == k.cf
  {
    assert WireOk([w][0]) && [w][0].conv == k.cf.conv && KnownCmd([w][0].cmd);
    ParseOneEncode(w, d);
  }

  /** What ikcp_input makes of the segments `ws` and of what is left when none can be taken. */
  function Outcome(k: Kcb, m: MaxAck, prevUna: int, cmd: int, ws: seq<Wire>, p: Parsed): (int, Kcb) {
    if p.Fail? then (p.code, AfterSegs(k, ws)) else (LastCmd(cmd, ws), InputFrom(WRAP, k, m, prevUna, ws))
  }

  lemma OutcomeMore(k: Kcb, m: MaxAck, prevUna: int, cmd: int, w: Wire, ws: seq<Wire>, p: Parsed)
    ensures Outcome(k, m, prevUna, cmd, [w] + ws, p) ==
              Outcome(InputSeg(WRAP, k, w), NoteSeg(WRAP, m, w), prevUna, w.cmd, ws, p)
  {
    assert ([w] + ws)[1..] == ws;
  }

  lemma {:induction false} ReadsFrom(k: Kcb, m: MaxAck, prevUna: int, cmd: int, ws: seq<Wire>, rest: seq<Byte>)
    requires OwnWires(k.cf.conv, ws) && !ParseOne(k.cf.conv, rest).Got?
    ensures InputBytesFrom(WRAP, k, m, prevUna, cmd, EncodeAll(ws) + rest) ==
              Outcome(k, m, prevUna, cmd, ws, ParseOne(k.cf.conv, rest))
    decreases |ws|
  {
    if ws == [] {
      assert EncodeAll(ws) + rest == rest;
    } else {
      var w, more := ws[0], ws[1..];
      assert ws == [w] + more;
      FrontEncoded(w, more, rest);
      ReadsOne(k, m, prevUna, cmd, w, EncodeAll(more) + rest);
      ReadsFrom(InputSeg(WRAP, k, w), NoteSeg(WRAP, m, w), prevUna, w.cmd, more, rest);
      OutcomeMore(k, m, prevUna, cmd, w, more, ParseOne(k.cf.conv, rest));
    }
  }

  /** ikcp_input accepts exactly such datagrams that are not too short for one
      segment; it returns the last command, and what it does is what the segments
      do one after the other. */
  lemma InputExactly(k: Kcb, d: seq<Byte>)
    ensures InputBytes(WRAP, k, d).0 >= 0 <==> |d| >= 24 && exists ws, tail :: IsDatagram(k.cf.conv, ws, tail, d)
    ensures forall ws: seq<Wire>, tail | IsDatagram(k.cf.conv, ws, tail, d) && |d| >= 24 ::
              ws != [] && InputBytes(WRAP, k, d) == (ws[|ws| - 1].cmd, InputSegs(WRAP, k, ws))
  {
    if |d| >= 24 {
      forall ws: seq<Wire>, tail | IsDatagram(k.cf.conv, ws, tail, d)
        ensures ws != [] && InputBytes(WRAP, k, d) == (ws[|ws| - 1].cmd, InputSegs(WRAP, k, ws))
      {
        ReadsFrom(k, NoAck, k.snd.una, 0, ws, tail);
      }
      RefusedOrNot(k, d);
    }
  }

  lemma RefusedOrNot(k: Kcb, d: seq<Byte>)
    requires |d| >= 24
    ensures InputBytes(WRAP, k, d).0 < 0 || exists ws, tail :: IsDatagram(k.cf.conv, ws, tail, d)
  {
    var ws, rest := ReadTo(k.cf.conv, d);
    ReadsFrom(k, NoAck, k.snd.una, 0, ws, rest);
    if ParseOne(k.cf.conv, rest).Stop? {
      assert IsDatagram(k.cf.conv, ws, rest, d);
    }
  }

  // ---- refused headers ----

  lemma NumberRead(d: seq<Byte>, at: nat, v: int)
    requires NumberAt(d, at, 4, v) && 0 <= v < M32
    ensures Dec32(d[at..at + 4]) == v
  {
    var e := Enc32(v);
    Enc32At(v);
    forall i | 0 <= i < 4 ensures d[at..at + 4][i] == e[i] {
      assert d[at + i] == OctetOf(v, i) == e[0 + i];
    }
    Dec32Enc32(v);
  }

  /** What is wrong with a header, in the order in which it is found. */
  predicate Refused(conv: nat, number: int, cmd: int, len: int, left: int, code: int) {
    if number != conv then code == -1
    else if len > left || len >= 0x8000_0000 then code == -2
    else !(81 <= cmd <= 84) && code == -3
  }

  /** A segment is refused for a foreign conversation number, a length that is not
      there, or an unknown command, and for nothing else. */
  lemma RefusedExactly(conv: nat, d: seq<Byte>, number: int, len: int, code: int)
    requires |d| >= 24 && 0 <= number < M32 && 0 <= len < M32
    requires NumberAt(d, 0, 4, number) && NumberAt(d, 20, 4, len)
    ensures ParseOne(conv, d) == Fail(code) <==> Refused(conv, number, d[4], len, |d| - 24, code)
  {
    NumberRead(d, 0, number);
    NumberRead(d, 20, len);
  }
}
