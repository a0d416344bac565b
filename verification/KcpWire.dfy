// The byte layout of a segment (ikcp_encode_seg and the decoders of
// ikcp_input), little endian, and ikcp_input on raw bytes.
module KcpWire {
  import opened Circular
  import opened KcpModel
  import opened Seqs

  /** Like the source, encoding keeps the low bits of a field. */
  function Enc16(v: int): (b: seq<Byte>)
    ensures |b| == 2
  {
    [v % 256, v / 256 % 256]
  }

  function Enc32(v: int): (b: seq<Byte>)
    ensures |b| == 4
  {
    Enc16(v) + Enc16(v / 0x1_0000)
  }

  function Dec16(b: seq<Byte>): (v: nat)
    requires |b| == 2
    ensures v < 0x1_0000
  {
    var lo: int, hi: int := b[0], b[1];
    lo + 256 * hi
  }

  function Dec32(b: seq<Byte>): (v: nat)
    requires |b| == 4
    ensures v < M32
  {
    Dec16(b[..2]) + 0x1_0000 * Dec16(b[2..])
  }

  lemma Dec16Enc16(v: int)
    requires 0 <= v < 0x1_0000
    ensures Dec16(Enc16(v)) == v
  {
  }

  lemma Dec32Enc32(v: int)
    requires 0 <= v < M32
    ensures Dec32(Enc32(v)) == v
  {
    var b := Enc32(v);
    assert b[..2] == Enc16(v) && b[2..] == Enc16(v / 0x1_0000);
    Dec16Enc16(v % 0x1_0000);
    Dec16Enc16(v / 0x1_0000);
    assert v / 256 % 256 == v % 0x1_0000 / 256;
  }

  /** Every field fits the header. */
  predicate WireOk(w: Wire) {
    && w.conv < M32 && w.cmd < 256 && w.frg < 256 && w.wnd < 0x1_0000 && w.ts < M32
    && 0 <= w.sn < M32 && 0 <= w.una < M32 && |w.data| < HALF
  }

  function EncodeHead(w: Wire): (b: seq<Byte>)
    ensures |b| == OVERHEAD
  {
    Enc32(w.conv) + [w.cmd % 256, w.frg % 256] + Enc16(w.wnd) + Enc32(w.ts) + Enc32(w.sn) + Enc32(w.una)
    + Enc32(|w.data|)
  }

  function Encode(w: Wire): (b: seq<Byte>)
    ensures |b| == WireSize(w)
  {
    EncodeHead(w) + w.data
  }

  predicate WiresOk(ws: seq<Wire>) {
    forall i :: 0 <= i < |ws| ==> WireOk(ws[i])
  }

  function Parts(ws: seq<Wire>): seq<seq<Byte>> {
    seq(|ws|, i requires 0 <= i < |ws| => Encode(ws[i]))
  }

  /** The bytes of a datagram. */
  function EncodeAll(ws: seq<Wire>): seq<Byte> {
    Flatten(Parts(ws))
  }

  lemma EncodeAllSnoc(ws: seq<Wire>, w: Wire)
    ensures EncodeAll(ws + [w]) == EncodeAll(ws) + Encode(w)
  {
    assert Parts(ws + [w]) == Parts(ws) + [Encode(w)];
    FlattenSnoc(Parts(ws), Encode(w));
  }

  lemma EncodeAllFront(ws: seq<Wire>)
    requires ws != []
    ensures EncodeAll(ws) == Encode(ws[0]) + EncodeAll(ws[1..])
  {
    assert Parts(ws)[1..] == Parts(ws[1..]);
    FlattenFront(Parts(ws));
  }

  lemma {:induction false} EncodeAllSize(ws: seq<Wire>)
    ensures |EncodeAll(ws)| == TotalSize(ws)
  {
    if ws != [] {
      var n := |ws| - 1;
      EncodeAllSize(ws[..n]);
      EncodeAllSnoc(ws[..n], ws[n]);
      assert ws[..n] + [ws[n]] == ws;
    }
  }

  /** The header at the front of `d`, with the declared data length. */
  function DecodeHead(d: seq<Byte>): (r: (Wire, nat))
    requires |d| >= OVERHEAD
    ensures WireOk(r.0) && r.0.data == [] && r.1 < M32
  {
    (Wire(Dec32(d[..4]), d[4], d[5], Dec16(d[6..8]), Dec32(d[8..12]), Dec32(d[12..16]), Dec32(d[16..20]), []),
     Dec32(d[20..24]))
  }

  lemma DecodeEncodeHead(w: Wire, rest: seq<Byte>)
    requires WireOk(w)
    ensures DecodeHead(EncodeHead(w) + rest) == (w.(data := []), |w.data|)
  {
    var d := EncodeHead(w) + rest;
    assert d[..4] == Enc32(w.conv);
    assert d[6..8] == Enc16(w.wnd);
    Dec16Enc16(w.wnd);
    assert d[8..12] == Enc32(w.ts);
    assert d[12..16] == Enc32(w.sn);
    assert d[16..20] == Enc32(w.una);
    assert d[20..24] == Enc32(|w.data|);
    Dec32Enc32(w.conv);
    Dec32Enc32(w.ts);
    Dec32Enc32(w.sn);
    Dec32Enc32(w.una);
    Dec32Enc32(|w.data|);
  }

  /** The outcome of one pass of the loop of ikcp_input. */
  datatype Parsed = Stop | Fail(code: int) | Got(w: Wire, rest: seq<Byte>)

  /** Take one segment off the front of `d`, in the order ikcp_input checks it. */
  function ParseOne(conv: nat, d: seq<Byte>): (p: Parsed)
    ensures p.Got? ==> WireOk(p.w) && p.w.conv == conv && KnownCmd(p.w.cmd) && |p.rest| < |d|
    ensures p.Fail? ==> p.code < 0
  {
    if |d| < OVERHEAD then Stop
    else
      var (h, len) := DecodeHead(d);
      if h.conv != conv then Fail(-1)
      else if |d| - OVERHEAD < len || len >= HALF then Fail(-2)
      else if !KnownCmd(h.cmd) then Fail(-3)
      else Got(h.(data := d[OVERHEAD..OVERHEAD + len]), d[OVERHEAD + len..])
  }

  /** A written segment is what the reader takes off the front. */
  lemma ParseOneEncode(w: Wire, rest: seq<Byte>)
    requires WireOk(w) && KnownCmd(w.cmd)
    ensures ParseOne(w.conv, Encode(w) + rest) == Got(w, rest)
  {
    var d := Encode(w) + rest;
    assert d == EncodeHead(w) + (w.data + rest);
    DecodeEncodeHead(w, w.data + rest);
    assert d[OVERHEAD..OVERHEAD + |w.data|] == w.data;
    assert d[OVERHEAD + |w.data|..] == rest;
  }

  /** The rest of ikcp_input from some point of its loop: return value and state. */
  function InputBytesFrom(ar: Arith, k: Kcb, m: MaxAck, prevUna: int, cmd: int, d: seq<Byte>): (int, Kcb)
    decreases |d|
  {
    match ParseOne(k.cf.conv, d)
    case Stop => (cmd, InputEnd(ar, k, m, prevUna))
    case Fail(code) => (code, k)
    case Got(w, rest) =>
      InputBytesFrom(ar, InputSeg(ar, k, w), NoteSeg(ar, m, w), prevUna, w.cmd, rest)
  }

  /** ikcp_input on arbitrary bytes. */
  function InputBytes(ar: Arith, k: Kcb, d: seq<Byte>): (int, Kcb) {
    if |d| < OVERHEAD then (-1, k) else InputBytesFrom(ar, k, NoAck, k.snd.una, 0, d)
  }

  predicate OwnWires(conv: nat, ws: seq<Wire>) {
    WiresOk(ws) && forall i :: 0 <= i < |ws| ==> ws[i].conv == conv && KnownCmd(ws[i].cmd)
  }

  lemma {:induction false} InputBytesFromEncoded(ar: Arith, k: Kcb, m: MaxAck, prevUna: int, cmd: int, ws: seq<Wire>)
    requires OwnWires(k.cf.conv, ws)
    ensures InputBytesFrom(ar, k, m, prevUna, cmd, EncodeAll(ws)) ==
            (if ws == [] then cmd else ws[|ws| - 1].cmd, InputFrom(ar, k, m, prevUna, ws))
    decreases |ws|
  {
    if ws != [] {
      var d := EncodeAll(ws);
      EncodeAllFront(ws);
      ParseOneEncode(ws[0], EncodeAll(ws[1..]));
      assert ParseOne(k.cf.conv, d) == Got(ws[0], EncodeAll(ws[1..]));
      InputBytesFromEncoded(ar, InputSeg(ar, k, ws[0]), NoteSeg(ar, m, ws[0]), prevUna, ws[0].cmd, ws[1..]);
    }
  }

  /** Reading a datagram of whole segments does to the control block exactly
      what the written segments say, one after the other. */
  lemma InputEncoded(ar: Arith, k: Kcb, ws: seq<Wire>)
    requires ws != [] && OwnWires(k.cf.conv, ws)
    ensures InputBytes(ar, k, EncodeAll(ws)) == (ws[|ws| - 1].cmd, InputSegs(ar, k, ws))
  {
    EncodeAllFront(ws);
    InputBytesFromEncoded(ar, k, NoAck, k.snd.una, 0, ws);
  }
}
