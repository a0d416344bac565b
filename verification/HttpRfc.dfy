// The chunked coding as section 4.1 of RFC 7230 defines it, and how far the
// parser agrees: it accepts and decodes every text of the standard's grammar
// that is within its limits, and what else it accepts is told exactly by the
// bytes of the size lines.
module HttpRfc {
  import opened Circular
  import opened HttpDigits
  import opened HttpBody
  import opened HttpChunks
  import opened Seqs

  // ---- the grammar ----

  /** HEXDIG of RFC 5234, whose letters are of either case. */
  predicate HexDig(c: Byte) { 0x30 <= c <= 0x39 || 0x41 <= c <= 0x46 || 0x61 <= c <= 0x66 }

  function DigitOf(c: Byte): (r: nat)
    requires HexDig(c)
    ensures r < 16
  {
    var n: int := c;
    if n <= 0x39 then n - 0x30 else if n <= 0x46 then n - 0x37 else n - 0x57
  }

  predicate HexDigits(s: seq<Byte>) { forall i | 0 <= i < |s| :: HexDig(s[i]) }

  function Pow16(k: nat): nat { if k == 0 then 1 else 16 * Pow16(k - 1) }

  /** The number that digits denote: each stands for itself times the power of
      its place. */
  function HexNumber(s: seq<Byte>): nat
    requires HexDigits(s)
  {
    if s == [] then 0 else DigitOf(s[0]) * Pow16(|s| - 1) + HexNumber(s[1..])
  }

  /** tchar of section 3.2.6. */
  predicate TokenChar(c: Byte) {
    || 0x30 <= c <= 0x39 || 0x41 <= c <= 0x5A || 0x61 <= c <= 0x7A
    || c == 0x21 || 0x23 <= c <= 0x27 || c == 0x2A || c == 0x2B || c == 0x2D || c == 0x2E
    || c == 0x5E || c == 0x5F || c == 0x60 || c == 0x7C || c == 0x7E
  }

  predicate Token(s: seq<Byte>) { s != [] && forall i | 0 <= i < |s| :: TokenChar(s[i]) }

  const DQUOTE: Byte := 0x22
  const BACKSLASH: Byte := 0x5C
  const EQUALS: Byte := 0x3D

  /** qdtext of section 3.2.6. */
  predicate QuotedChar(c: Byte) {
    c == 0x09 || c == 0x20 || c == 0x21 || 0x23 <= c <= 0x5B || 0x5D <= c <= 0x7E || c >= 0x80
  }

  /** What may follow a backslash. */
  predicate EscapedChar(c: Byte) { c == 0x09 || 0x20 <= c <= 0x7E || c >= 0x80 }

  /** The inside of a quoted-string. */
  predicate Quoted(s: seq<Byte>) {
    if s == [] then true
    else if s[0] == BACKSLASH then |s| >= 2 && EscapedChar(s[1]) && Quoted(s[2..])
    else QuotedChar(s[0]) && Quoted(s[1..])
  }

  predicate QuotedString(s: seq<Byte>) {
    |s| >= 2 && s[0] == DQUOTE && s[|s| - 1] == DQUOTE && Quoted(s[1..|s| - 1])
  }

  /** One extension: a semicolon, a name and perhaps a value. */
  ghost predicate OneExt(e: seq<Byte>) {
    exists name: seq<Byte>, value: seq<Byte> ::
      && e == [SEMICOLON] + name + value && Token(name)
      && (value == [] || (value[0] == EQUALS && (Token(value[1..]) || QuotedString(value[1..]))))
  }

  /** chunk-ext: any number of extensions. */
  ghost predicate ChunkExt(e: seq<Byte>)
    decreases |e|
  {
    e == [] || exists n: nat :: 0 < n <= |e| && OneExt(e[..n]) && ChunkExt(e[n..])
  }

  /** A size line of the standard, for a chunk of `n` bytes. */
  ghost predicate RfcLine(l: Line, n: nat) {
    l.size != [] && HexDigits(l.size) && HexNumber(l.size) == n && ChunkExt(l.ext)
  }

  /** The last line's size is written with zeros only. */
  ghost predicate RfcLast(l: Line) {
    l.size != [] && Zeros(l.size) && ChunkExt(l.ext)
  }

  ghost predicate Rfc(cs: seq<Chunk>, last: Line) {
    && (forall i | 0 <= i < |cs| :: cs[i].data != [] && RfcLine(cs[i].line, |cs[i].data|))
    && RfcLast(last)
  }

  /** Sizes and line lengths that the parser can take. */
  predicate WithinLimits(limit: nat, cs: seq<Chunk>, last: Line) {
    && (forall i | 0 <= i < |cs| :: |cs[i].data| <= ABSENT - 16 && Fits(limit, |LineText(cs[i].line)|))
    && Fits(limit, |LineText(last)|)
  }

  // ---- digits ----

  lemma DigitAgrees(c: Byte)
    ensures HexDig(c) <==> Unhex(c) != -1 && c < 0x80
    ensures HexDig(c) ==> Unhex(c) == DigitOf(c)
  {
  }

  lemma {:induction false} ValueFront(ds: seq<nat>)
    requires ds != []
    ensures Value(16, ds) == ds[0] * Pow16(|ds| - 1) + Value(16, ds[1..])
    decreases |ds|
  {
    var n := |ds| - 1;
    if n == 0 {
      assert ds[..0] == [] && ds[1..] == [];
    } else {
      ValueFront(ds[..n]);
      assert ds[..n][1..] == ds[1..][..n - 1];
      assert ds[0] * Pow16(n) == 16 * (ds[0] * Pow16(n - 1));
    }
  }

  /** The parser's running sum is the number of the standard. */
  lemma {:induction false} NumberAgrees(s: seq<Byte>)
    requires HexDigits(s)
    ensures IsHex(s) && HexValue(s) == HexNumber(s)
    decreases |s|
  {
    forall i | 0 <= i < |s| ensures Unhex(s[i]) != -1 {
      DigitAgrees(s[i]);
    }
    if s != [] {
      NumberAgrees(s[1..]);
      ValueFront(Hex(s));
      assert Hex(s)[1..] == Hex(s[1..]);
      DigitAgrees(s[0]);
    }
  }

  predicate Zeros(s: seq<Byte>) { forall i | 0 <= i < |s| :: s[i] == 0x30 }

  lemma ZerosFront(s: seq<Byte>)
    requires s != []
    ensures Zeros(s) <==> s[0] == 0x30 && Zeros(s[1..])
  {
    assert forall i | 1 <= i < |s| :: s[i] == s[1..][i - 1];
  }

  lemma {:induction false} ZeroNumber(s: seq<Byte>)
    requires HexDigits(s)
    ensures HexNumber(s) == 0 <==> Zeros(s)
    decreases |s|
  {
    if s != [] {
      ZeroNumber(s[1..]);
      ZerosFront(s);
      PowPositive(|s| - 1);
      ZeroSum(DigitOf(s[0]), Pow16(|s| - 1), HexNumber(s[1..]));
      assert DigitOf(s[0]) == 0 <==> s[0] == 0x30;
    }
  }

  lemma ZeroSum(d: nat, p: nat, n: nat)
    requires p > 0
    ensures d * p + n == 0 <==> d == 0 && n == 0
  {
  }

  lemma {:induction false} PowPositive(k: nat)
    ensures Pow16(k) > 0
  {
    if k > 0 {
      PowPositive(k - 1);
    }
  }

  // ---- extensions ----

  lemma {:induction false} QuotedNoCR(s: seq<Byte>)
    requires Quoted(s)
    ensures forall i | 0 <= i < |s| :: s[i] != CR
    decreases |s|
  {
    if s != [] {
      var k := if s[0] == BACKSLASH then 2 else 1;
      QuotedNoCR(s[k..]);
      forall i | 0 <= i < |s| ensures s[i] != CR {
        if i >= k {
          assert s[i] == s[k..][i - k];
        }
      }
    }
  }

  lemma QuotedStringNoCR(s: seq<Byte>)
    requires QuotedString(s)
    ensures forall i | 0 <= i < |s| :: s[i] != CR
  {
    QuotedNoCR(s[1..|s| - 1]);
    forall i | 0 <= i < |s| ensures s[i] != CR {
      if 0 < i < |s| - 1 {
        assert s[i] == s[1..|s| - 1][i - 1];
      }
    }
  }

  lemma OneExtNoCR(e: seq<Byte>)
    requires OneExt(e)
    ensures e[0] == SEMICOLON && forall i | 0 <= i < |e| :: e[i] != CR
  {
    var name, value :|
      && e == [SEMICOLON] + name + value && Token(name)
      && (value == [] || (value[0] == EQUALS && (Token(value[1..]) || QuotedString(value[1..]))));
    if value != [] && QuotedString(value[1..]) {
      QuotedStringNoCR(value[1..]);
    }
    assert forall i | 1 <= i < |value| :: value[i] == value[1..][i - 1];
  }

  /** What the standard allows as an extension, the parser skips. */
  lemma {:induction false} ExtensionAllowed(e: seq<Byte>)
    requires ChunkExt(e)
    ensures Extension(e)
    decreases |e|
  {
    if e != [] {
      var n: nat :| 0 < n <= |e| && OneExt(e[..n]) && ChunkExt(e[n..]);
      OneExtNoCR(e[..n]);
      ExtensionAllowed(e[n..]);
      forall i | 0 <= i < |e| ensures e[i] != CR {
        if i < n {
          assert e[i] == e[..n][i];
        } else {
          assert e[i] == e[n..][i - n];
        }
      }
      assert e[0] == e[..n][0];
    }
  }

  // ---- every text of the standard is accepted ----

  lemma RfcLineOk(limit: nat, l: Line, n: nat)
    requires RfcLine(l, n) && n <= ABSENT - 16 && Fits(limit, |LineText(l)|)
    ensures LineOk(limit, l, n)
  {
    NumberAgrees(l.size);
    ExtensionAllowed(l.ext);
  }

  lemma RfcLastIsLine(l: Line)
    requires RfcLast(l)
    ensures RfcLine(l, 0)
  {
    ZeroNumber(l.size);
  }

  lemma RfcIsCoded(limit: nat, cs: seq<Chunk>, last: Line)
    requires Rfc(cs, last) && WithinLimits(limit, cs, last)
    ensures Coded(limit, cs, last, Texts(cs) + LineText(last))
  {
    forall i | 0 <= i < |cs| ensures ChunkOk(limit, cs[i]) {
      RfcLineOk(limit, cs[i].line, |cs[i].data|);
    }
    RfcLastIsLine(last);
    RfcLineOk(limit, last, 0);
  }

  /** After the headers of a chunked message, the parser accepts every body of the
      standard that is within its limits, and reports its data. */
  lemma AcceptsRfc(limit: nat, length: nat, needsEof: bool, cs: seq<Chunk>, last: Line)
    requires length <= ABSENT && Rfc(cs, last) && WithinLimits(limit, cs, last)
    ensures var m, text := AfterHeaders(true, length, needsEof), Texts(cs) + LineText(last);
            && Accepts(limit, m, text)
            && Feed(limit, m, text).log == Events(cs) + [ChunkHeader(0)]
            && BodyOf(Feed(limit, m, text).log) == Content(cs)
  {
    var m := AfterHeaders(true, length, needsEof);
    RfcIsCoded(limit, cs, last);
    DecodesChunks(limit, m, cs, last, Texts(cs) + LineText(last));
    ContentDecoded(cs);
    assert [] + Events(cs) == Events(cs);
    BodyOfAppend(Events(cs), [ChunkHeader(0)]);
    assert BodyOf([ChunkHeader(0)]) == [];
  }

  // ---- what else is accepted ----

  /** The guard: no size byte is outside ASCII, and the extension is one of the
      standard. */
  ghost predicate Standard(l: Line) {
    (forall i | 0 <= i < |l.size| :: l.size[i] < 0x80) && ChunkExt(l.ext)
  }

  lemma LineStandard(limit: nat, l: Line, n: nat)
    requires LineOk(limit, l, n)
    ensures RfcLine(l, n) <==> Standard(l)
    ensures n == 0 ==> (RfcLast(l) <==> Standard(l))
  {
    forall i | 0 <= i < |l.size| ensures HexDig(l.size[i]) <==> l.size[i] < 0x80 {
      DigitAgrees(l.size[i]);
    }
    if HexDigits(l.size) {
      NumberAgrees(l.size);
      ZeroNumber(l.size);
    }
    if Zeros(l.size) {
      assert forall i | 0 <= i < |l.size| :: l.size[i] < 0x80;
    }
  }

  /** Of what the parser accepts, the standard's texts are exactly those in which
      every size line meets the guard. */
  lemma StandardExactly(limit: nat, cs: seq<Chunk>, last: Line, text: seq<Byte>)
    requires Coded(limit, cs, last, text)
    ensures Rfc(cs, last) <==> (forall i | 0 <= i < |cs| :: Standard(cs[i].line)) && Standard(last)
  {
    forall i | 0 <= i < |cs|
      ensures ChunkOk(limit, cs[i]) && (RfcLine(cs[i].line, |cs[i].data|) <==> Standard(cs[i].line))
    {
      LineStandard(limit, cs[i].line, |cs[i].data|);
    }
    LineStandard(limit, last, 0);
  }

  // ---- a text is cut into chunks in one way ----

  /** A size line for `n` bytes, whatever the limits. */
  predicate LineShape(l: Line, n: nat) {
    l.size != [] && IsHex(l.size) && HexValue(l.size) == n && Extension(l.ext)
  }

  predicate Shaped(cs: seq<Chunk>, last: Line) {
    && (forall i | 0 <= i < |cs| :: cs[i].data != [] && LineShape(cs[i].line, |cs[i].data|))
    && LineShape(last, 0)
  }

  lemma {:induction false} TextsFront(cs: seq<Chunk>)
    requires cs != []
    ensures Texts(cs) == ChunkText(cs[0]) + Texts(cs[1..])
    decreases |cs|
  {
    var n := |cs| - 1;
    if n == 0 {
      assert cs[..0] == [] && cs[1..] == [];
      assert [] + ChunkText(cs[0]) == ChunkText(cs[0]) + [];
    } else {
      var tail := cs[1..];
      TextsFront(cs[..n]);
      assert cs[..n][1..] == tail[..n - 1] && tail[n - 1] == cs[n];
      Assoc(ChunkText(cs[0]), Texts(tail[..n - 1]), ChunkText(cs[n]));
      assert Texts(tail) == Texts(tail[..n - 1]) + ChunkText(cs[n]);
    }
  }

  /** The part of a text up to the first byte of a kind is determined. */
  lemma SamePrefix(a: seq<Byte>, x: seq<Byte>, b: seq<Byte>, y: seq<Byte>, stop: Byte -> bool)
    requires a + x == b + y && x != [] && y != [] && stop(x[0]) && stop(y[0])
    requires (forall i | 0 <= i < |a| :: !stop(a[i])) && (forall i | 0 <= i < |b| :: !stop(b[i]))
    ensures a == b && x == y
  {
    assert (a + x)[|a|] == x[0] && (b + y)[|b|] == y[0];
    assert (forall i | 0 <= i < |a| :: (a + x)[i] == a[i]) && (forall i | 0 <= i < |b| :: (b + y)[i] == b[i]);
    assert a == (a + x)[..|a|] && b == (b + y)[..|b|];
    assert x == (a + x)[|a|..] && y == (b + y)[|b|..];
  }

  lemma SameLine(l: Line, n: nat, r: seq<Byte>, l': Line, n': nat, r': seq<Byte>)
    requires LineShape(l, n) && LineShape(l', n') && LineText(l) + r == LineText(l') + r'
    ensures l == l' && r == r' && n == n'
  {
    var x, x' := l.ext + (CRLF + r), l'.ext + (CRLF + r');
    assert LineText(l) + r == l.size + x && LineText(l') + r' == l'.size + x';
    SamePrefix(l.size, x, l'.size, x', (c: Byte) => Unhex(c) == -1);
    SamePrefix(l.ext, CRLF + r, l'.ext, CRLF + r', (c: Byte) => c == CR);
    assert r == (CRLF + r)[2..] && r' == (CRLF + r')[2..];
  }

  /** The first line of a coded text, with the data that it announces. */
  function First(cs: seq<Chunk>, last: Line): Chunk { if cs == [] then Chunk(last, []) else cs[0] }

  function AfterFirst(cs: seq<Chunk>, last: Line): seq<Byte> {
    if cs == [] then [] else cs[0].data + CRLF + (Texts(cs[1..]) + LineText(last))
  }

  lemma FirstLine(cs: seq<Chunk>, last: Line)
    ensures Texts(cs) + LineText(last) == LineText(First(cs, last).line) + AfterFirst(cs, last)
  {
    if cs != [] {
      TextsFront(cs);
      Regroup(LineText(cs[0].line), cs[0].data, Texts(cs[1..]), LineText(last));
    }
  }

  lemma Regroup(a: seq<Byte>, d: seq<Byte>, t: seq<Byte>, l: seq<Byte>)
    ensures a + d + CRLF + t + l == a + (d + CRLF + (t + l))
  {
  }

  lemma ShapedTail(cs: seq<Chunk>, last: Line)
    requires cs != [] && Shaped(cs, last)
    ensures Shaped(cs[1..], last)
  {
    var t := cs[1..];
    forall i | 0 <= i < |t| ensures t[i].data != [] && LineShape(t[i].line, |t[i].data|) {
      assert t[i] == cs[i + 1];
    }
  }

  lemma FirstShape(cs: seq<Chunk>, last: Line)
    requires Shaped(cs, last)
    ensures var c := First(cs, last); LineShape(c.line, |c.data|) && (cs == [] <==> |c.data| == 0)
  {
  }

  lemma FirstOnce(cs: seq<Chunk>, last: Line, cs': seq<Chunk>, last': Line)
    requires Shaped(cs, last) && Shaped(cs', last')
    requires Texts(cs) + LineText(last) == Texts(cs') + LineText(last')
    ensures cs == [] <==> cs' == []
    ensures cs == [] ==> last == last'
    ensures cs != [] && cs' != [] ==>
              cs[0] == cs'[0] && Texts(cs[1..]) + LineText(last) == Texts(cs'[1..]) + LineText(last')
  {
    var c, c', r, r' := First(cs, last), First(cs', last'), AfterFirst(cs, last), AfterFirst(cs', last');
    FirstLine(cs, last);
    FirstLine(cs', last');
    FirstShape(cs, last);
    FirstShape(cs', last');
    SameLine(c.line, |c.data|, r, c'.line, |c'.data|, r');
    if cs != [] {
      SameTail(cs[0].data, Texts(cs[1..]) + LineText(last), cs'[0].data, Texts(cs'[1..]) + LineText(last'));
    }
  }

  lemma SameTail(d: seq<Byte>, r: seq<Byte>, d': seq<Byte>, r': seq<Byte>)
    requires |d| == |d'| && d + CRLF + r == d' + CRLF + r'
    ensures d == d' && r == r'
  {
    var x, x' := d + CRLF + r, d' + CRLF + r';
    assert d == x[..|d|] && d' == x'[..|d|] && r == x[|d| + 2..] && r' == x'[|d| + 2..];
  }

  /** The list of chunks and the last line that a text stands for are unique. */
  lemma {:induction false} CodedOnce(
    cs: seq<Chunk>, last: Line, cs': seq<Chunk>, last': Line, text: seq<Byte>)
    requires Shaped(cs, last) && Shaped(cs', last')
    requires text == Texts(cs) + LineText(last) == Texts(cs') + LineText(last')
    ensures cs == cs' && last == last'
    decreases |cs|
  {
    FirstOnce(cs, last, cs', last');
    if cs != [] {
      ShapedTail(cs, last);
      ShapedTail(cs', last');
      CodedOnce(cs[1..], last, cs'[1..], last', Texts(cs[1..]) + LineText(last));
      assert cs == [cs[0]] + cs[1..] && cs' == [cs'[0]] + cs'[1..];
    }
  }

  /** A text is a chunked body of the standard. */
  ghost predicate RfcText(text: seq<Byte>) {
    exists cs, last :: Rfc(cs, last) && text == Texts(cs) + LineText(last)
  }

  lemma RfcShaped(cs: seq<Chunk>, last: Line)
    requires Rfc(cs, last)
    ensures Shaped(cs, last)
  {
    forall i | 0 <= i < |cs| ensures LineShape(cs[i].line, |cs[i].data|) {
      NumberAgrees(cs[i].line.size);
      ExtensionAllowed(cs[i].line.ext);
    }
    RfcLastIsLine(last);
    NumberAgrees(last.size);
    ExtensionAllowed(last.ext);
  }

  lemma CodedShaped(limit: nat, cs: seq<Chunk>, last: Line, text: seq<Byte>)
    requires Coded(limit, cs, last, text)
    ensures Shaped(cs, last)
  {
    assert forall i | 0 <= i < |cs| :: ChunkOk(limit, cs[i]);
  }

  /** An accepted text is one of the standard if and only if no size byte is
      outside ASCII and every extension is one of the standard: no other way of
      cutting it up would make it one. */
  lemma AcceptedIsRfc(limit: nat, cs: seq<Chunk>, last: Line, text: seq<Byte>)
    requires Coded(limit, cs, last, text)
    ensures RfcText(text) <==> (forall i | 0 <= i < |cs| :: Standard(cs[i].line)) && Standard(last)
  {
    StandardExactly(limit, cs, last, text);
    if RfcText(text) {
      var cs', last' :| Rfc(cs', last') && text == Texts(cs') + LineText(last');
      RfcShaped(cs', last');
      CodedShaped(limit, cs, last, text);
      CodedOnce(cs, last, cs', last', text);
    }
  }

  /** A last line alone, as a text. */
  lemma LastAlone(limit: nat, m: Machine, last: Line)
    requires Fresh(m) && LineOk(limit, last, 0)
    ensures Accepts(limit, m, LineText(last))
    ensures RfcText(LineText(last)) <==> Standard(last)
  {
    assert LineText(last) == Texts([]) + LineText(last);
    DecodesChunks(limit, m, [], last, LineText(last));
    AcceptedIsRfc(limit, [], last, LineText(last));
  }

  /** Outside ASCII the size digits are not what they seem: the byte 0x80 reads
      as the digit zero. */
  lemma HighBytesAreDigits(limit: nat, m: Machine)
    requires Fresh(m) && limit >= 3
    ensures Accepts(limit, m, [0x80, CR, LF]) && !RfcText([0x80, CR, LF])
  {
    var l := Line([0x80], []);
    HexSnoc([], 0x80);
    assert [] + [0x80 as Byte] == [0x80] && Hex([]) == [];
    assert LineText(l) == [0x80, CR, LF];
    LastAlone(limit, m, l);
    assert l.size[0] >= 0x80;
  }

  /** Behind a space, or between semicolons, anything but CR is skipped. */
  lemma LooseExtensions(limit: nat, m: Machine)
    requires Fresh(m) && limit >= 6
    ensures Accepts(limit, m, [0x30, SP, LF, 0x00, CR, LF]) && !RfcText([0x30, SP, LF, 0x00, CR, LF])
  {
    var l := Line([0x30], [SP, LF, 0x00]);
    HexSnoc([], 0x30);
    assert [] + [0x30 as Byte] == [0x30] && Hex([]) == [];
    assert LineText(l) == [0x30, SP, LF, 0x00, CR, LF];
    LastAlone(limit, m, l);
    if ChunkExt(l.ext) {
      ExtFront(l.ext);
    }
  }

  lemma ExtFront(e: seq<Byte>)
    requires ChunkExt(e) && e != []
    ensures e[0] == SEMICOLON
  {
    var n: nat :| 0 < n <= |e| && OneExt(e[..n]) && ChunkExt(e[n..]);
    OneExtNoCR(e[..n]);
    assert e[0] == e[..n][0];
  }
}
