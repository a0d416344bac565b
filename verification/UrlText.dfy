// Percent coding and query text of include/http/http_url.hpp.
module UrlText {
  import opened Seqs

  // ---- characters ----

  predicate Between(c: char, a: char, b: char) { a <= c <= b }

  /** The entry of a character in the class table: one bit, or none. */
  function Class(c: char): nat {
    if Between(c, 'a', 'z') || Between(c, 'A', 'Z') || Between(c, '0', '9') || c in "!$&'()*+,-.;=_~" then 0x01
    else if c == '@' then 0x02
    else if c == ':' then 0x04
    else if c == '/' then 0x08
    else if c == '?' then 0x10
    else if c == '%' then 0x20
    else 0
  }

  /** Whether the class's bit is in the mask. */
  predicate IsChar(c: char, mask: nat) { Class(c) != 0 && mask / Class(c) % 2 == 1 }

  predicate IsChars(s: string, mask: nat) { forall i | 0 <= i < |s| :: IsChar(s[i], mask) }

  predicate Ascii(s: string) { forall i | 0 <= i < |s| :: s[i] as int < 0x80 }

  const DIGITS: string := "0123456789ABCDEF"

  function HexDigit(c: char): (r: int)
    ensures -1 <= r < 16
  {
    if Between(c, '0', '9') then c as int - '0' as int
    else if Between(c, 'A', 'F') then c as int - 'A' as int + 10
    else if Between(c, 'a', 'f') then c as int - 'a' as int + 10
    else -1
  }

  lemma DigitsAreHex(n: nat)
    requires n < 16
    ensures HexDigit(DIGITS[n]) == n && Class(DIGITS[n]) == 1
    ensures DIGITS[n] !in "=;&%+ "
  {
    if n < 10 {
      assert DIGITS[n] == (n + 48) as char;
    } else {
      assert DIGITS[n] == (n + 55) as char;
    }
  }

  // ---- encoding ----

  /** What is escaped, besides what is outside the mask. */
  datatype Coding = Coding(mask: nat, plus: bool, escaped: string)

  const PATH: Coding := Coding(0x0F, false, "")
  const KEY: Coding := Coding(0x1F, true, "+=&;")
  const VAL: Coding := Coding(0x1F, true, "+&;")

  function Percent(c: char): string
    requires c as int < 0x80
  {
    ['%', DIGITS[c as int / 16], DIGITS[c as int % 16]]
  }

  function EncodeChar(c: char, k: Coding): string
    requires c as int < 0x80
  {
    if k.plus && c == ' ' then "+"
    else if c in k.escaped || !IsChar(c, k.mask) then Percent(c)
    else [c]
  }

  function Encode(s: string, k: Coding): string
    requires Ascii(s)
  {
    if s == "" then "" else EncodeChar(s[0], k) + Encode(s[1..], k)
  }

  // ---- decoding ----

  datatype Decoded = Text(s: string) | Invalid

  function Cons(c: char, d: Decoded): Decoded {
    if d.Text? then Text([c] + d.s) else Invalid
  }

  /** decode, or decode_plus when `plus` is set. */
  function Decode(s: string, plus: bool): Decoded {
    if s == "" then Text("")
    else if s[0] == '%' then
      if |s| < 3 || HexDigit(s[1]) < 0 || HexDigit(s[2]) < 0 then Invalid
      else Cons((HexDigit(s[1]) * 16 + HexDigit(s[2])) as char, Decode(s[3..], plus))
    else Cons(if plus && s[0] == '+' then ' ' else s[0], Decode(s[1..], plus))
  }

  /** The codings that can be undone: a percent sign is escaped, and so is a plus
      sign where it would mean a space. */
  predicate Reversible(k: Coding) { k.mask < 0x20 && (k.plus ==> '+' in k.escaped) }

  lemma DecodeChar(c: char, k: Coding, rest: string)
    requires c as int < 0x80 && Reversible(k)
    ensures Decode(EncodeChar(c, k) + rest, k.plus) == Cons(c, Decode(rest, k.plus))
  {
    if k.plus && c == ' ' {
      DecodePlain('+', true, rest);
    } else if c in k.escaped || !IsChar(c, k.mask) {
      DecodePercent(c, k.plus, rest);
    } else {
      assert c != '%' && !(k.plus && c == '+');
      DecodePlain(c, k.plus, rest);
    }
  }

  lemma DecodePlain(c: char, plus: bool, rest: string)
    requires c != '%'
    ensures Decode([c] + rest, plus) == Cons(if plus && c == '+' then ' ' else c, Decode(rest, plus))
  {
    assert ([c] + rest)[1..] == rest;
  }

  lemma DecodePercent(c: char, plus: bool, rest: string)
    requires c as int < 0x80
    ensures Decode(Percent(c) + rest, plus) == Cons(c, Decode(rest, plus))
  {
    var s := Percent(c) + rest;
    DigitsAreHex(c as int / 16);
    DigitsAreHex(c as int % 16);
    assert s[0] == '%' && s[1] == DIGITS[c as int / 16] && s[2] == DIGITS[c as int % 16] && s[3..] == rest;
  }

  /** Decoding undoes encoding. */
  lemma {:induction false} DecodeEncode(s: string, k: Coding)
    requires Ascii(s) && Reversible(k)
    ensures Decode(Encode(s, k), k.plus) == Text(s)
    decreases |s|
  {
    if s != "" {
      assert Ascii(s[1..]);
      DecodeEncode(s[1..], k);
      DecodeChar(s[0], k, Encode(s[1..], k));
      assert [s[0]] + s[1..] == s;
    }
  }

  // ---- the characters of encoded text ----

  /** A character that encoding may produce. */
  predicate Produced(c: char, k: Coding) {
    c == '%' || c == '+' || (c in DIGITS) || (IsChar(c, k.mask) && c !in k.escaped)
  }

  lemma {:induction false} EncodeProduces(s: string, k: Coding)
    requires Ascii(s)
    ensures forall i | 0 <= i < |Encode(s, k)| :: Produced(Encode(s, k)[i], k)
    decreases |s|
  {
    if s != "" {
      assert Ascii(s[1..]);
      EncodeProduces(s[1..], k);
      var t, rest := EncodeChar(s[0], k), Encode(s[1..], k);
      assert forall i | 0 <= i < |t| :: Produced(t[i], k);
      forall i | 0 <= i < |t + rest| ensures Produced((t + rest)[i], k) {
        if i >= |t| {
          assert (t + rest)[i] == rest[i - |t|];
        }
      }
    }
  }

  /** Allowing percent signs as well changes nothing for the other classes. */
  lemma WiderMask(m: nat, d: nat)
    requires m < 0x20 && (d == 1 || d == 2 || d == 4 || d == 8 || d == 16)
    ensures (m + 0x20) / d % 2 == m / d % 2
  {
  }

  lemma DigitOk(c: char)
    requires c in DIGITS
    ensures Class(c) == 1 && c !in "=;&"
  {
    var n :| 0 <= n < |DIGITS| && DIGITS[n] == c;
    DigitsAreHex(n);
  }

  lemma ProducedOk(c: char, k: Coding)
    requires Produced(c, k) && k.mask < 0x20 && k.mask % 2 == 1
    ensures IsChar(c, k.mask + 0x20)
    ensures c in ";&=" ==> c !in k.escaped
  {
    WiderMask(k.mask, 1);
    if c in DIGITS {
      DigitOk(c);
    } else if c != '%' && c != '+' {
      WiderMask(k.mask, Class(c));
    }
  }

  /** Encoded text passes the character check of the parser. */
  lemma EncodedIsValid(s: string, k: Coding)
    requires Ascii(s) && k.mask < 0x20 && k.mask % 2 == 1
    ensures IsChars(Encode(s, k), k.mask + 0x20)
  {
    var t := Encode(s, k);
    EncodeProduces(s, k);
    forall i | 0 <= i < |t| ensures IsChar(t[i], k.mask + 0x20) {
      ProducedOk(t[i], k);
    }
  }

  /** A path set through the object survives printing and reading: encoding is
      undone, and the text passes the parser's check. */
  lemma PathRoundTrip(s: string)
    requires Ascii(s)
    ensures IsChars(Encode(s, PATH), 0x2F) && Decode(Encode(s, PATH), false) == Text(s)
  {
    EncodedIsValid(s, PATH);
    DecodeEncode(s, PATH);
  }

  // ---- queries ----

  datatype Pair = Pair(key: string, val: string)
  datatype QueryResult = Pairs(q: seq<Pair>) | BadQuery

  predicate AsciiPairs(q: seq<Pair>) { forall i | 0 <= i < |q| :: Ascii(q[i].key) && Ascii(q[i].val) }
  predicate HaveKeys(q: seq<Pair>) { forall i | 0 <= i < |q| :: q[i].key != "" }

  function PairText(p: Pair): string
    requires Ascii(p.key) && Ascii(p.val)
  {
    Encode(p.key, KEY) + if p.val == "" then "" else "=" + Encode(p.val, VAL)
  }

  /** The text of a query, without the question mark. */
  function QueryText(q: seq<Pair>): string
    requires AsciiPairs(q)
  {
    if q == [] then "" else if |q| == 1 then PairText(q[0]) else PairText(q[0]) + "&" + QueryText(q[1..])
  }

  /** find_first_of: where the first of some characters is, or the length. */
  function FindAny(s: string, stops: string): (p: nat)
    ensures p <= |s| && (p < |s| ==> s[p] in stops)
    ensures forall i | 0 <= i < p :: s[i] !in stops
  {
    if s == "" || s[0] in stops then 0 else 1 + FindAny(s[1..], stops)
  }

  function Add(p: Pair, r: QueryResult): QueryResult {
    if r.Pairs? then Pairs([p] + r.q) else BadQuery
  }

  /** A key or a value: valid characters, decoded. */
  function Part(s: string): Decoded {
    if !IsChars(s, 0x3F) then Invalid else Decode(s, true)
  }

  datatype Entry = Entry(pair: Pair, stop: nat) | BadEntry

  /** The pair of a key and the value at the front of `v`, which is found at `at`. */
  function WithValue(key: string, v: string, at: nat): (e: Entry)
    ensures e.Entry? ==> e.stop <= at + |v|
  {
    var n := FindAny(v, ";&");
    var val := Part(v[..n]);
    if val.Invalid? then BadEntry else Entry(Pair(key, val.s), at + n)
  }

  function EntryWith(t: string, p: nat, key: Decoded): (e: Entry)
    requires p <= |t|
    ensures e.Entry? ==> e.stop <= |t|
  {
    if key.Invalid? then BadEntry
    else if p == |t| || t[p] != '=' then Entry(Pair(key.s, ""), p)
    else WithValue(key.s, t[p + 1..], p + 1)
  }

  /** The first pair of a text, and where it stops: at a separator or at the end. */
  function FirstEntry(t: string): (e: Entry)
    ensures e.Entry? ==> e.stop <= |t|
  {
    var p := FindAny(t, "=;&");
    EntryWith(t, p, Part(t[..p]))
  }

  /** The pairs of a text that has at least one, perhaps empty. */
  function Entries(t: string): QueryResult
    decreases |t|
  {
    var e := FirstEntry(t);
    if e.BadEntry? then BadQuery
    else if e.stop == |t| then Pairs([e.pair])
    else Add(e.pair, Entries(t[e.stop + 1..]))
  }

  /** The query part of parse_url. */
  function ReadQuery(t: string): QueryResult { if t == "" then Pairs([]) else Entries(t) }

  /** A search stops right behind a text without stops. */
  lemma FindBehind(a: string, b: string, stops: string)
    requires (forall i | 0 <= i < |a| :: a[i] !in stops) && (b == "" || b[0] in stops)
    ensures FindAny(a + b, stops) == |a|
  {
    var p := FindAny(a + b, stops);
    assert forall i | 0 <= i < |a| :: (a + b)[i] == a[i];
    assert b != "" ==> (a + b)[|a|] == b[0];
  }

  lemma EncodedPart(s: string, k: Coding)
    requires Ascii(s) && (k == KEY || k == VAL)
    ensures Part(Encode(s, k)) == Text(s)
    ensures forall i | 0 <= i < |Encode(s, k)| :: Encode(s, k)[i] !in ";&"
    ensures k == KEY ==> forall i | 0 <= i < |Encode(s, k)| :: Encode(s, k)[i] !in "=;&"
  {
    var t := Encode(s, k);
    EncodedIsValid(s, k);
    DecodeEncode(s, k);
    EncodeProduces(s, k);
    forall i | 0 <= i < |t| ensures t[i] !in ";&" && (k == KEY ==> t[i] !in "=;&") {
      ProducedOk(t[i], k);
    }
  }

  lemma KeyRead(key: string, rest: string, t: string)
    requires Ascii(key) && (rest == "" || rest[0] in "&=") && t == Encode(key, KEY) + rest
    ensures |Encode(key, KEY)| <= |t| && FirstEntry(t) == EntryWith(t, |Encode(key, KEY)|, Text(key))
  {
    var k := Encode(key, KEY);
    EncodedPart(key, KEY);
    FindBehind(k, rest, "=;&");
    assert t[..|k|] == k;
  }

  lemma ValueRead(key: string, val: string, rest: string, at: nat)
    requires Ascii(val) && (rest == "" || rest[0] == '&')
    ensures WithValue(key, Encode(val, VAL) + rest, at) == Entry(Pair(key, val), at + |Encode(val, VAL)|)
  {
    var v := Encode(val, VAL);
    EncodedPart(val, VAL);
    FindBehind(v, rest, ";&");
    assert (v + rest)[..|v|] == v;
  }

  lemma FirstRead(p: Pair, rest: string)
    requires Ascii(p.key) && Ascii(p.val) && (rest == "" || rest[0] == '&')
    ensures FirstEntry(PairText(p) + rest) == Entry(p, |PairText(p)|)
  {
    var key := Encode(p.key, KEY);
    if p.val == "" {
      assert PairText(p) == key;
      KeyRead(p.key, rest, key + rest);
    } else {
      var tail := "=" + Encode(p.val, VAL);
      Assoc(key, tail, rest);
      BothRead(p.key, p.val, rest, key + (tail + rest), |key|);
    }
  }

  lemma BothRead(key: string, val: string, rest: string, t: string, n: nat)
    requires Ascii(key) && Ascii(val) && (rest == "" || rest[0] == '&') && n == |Encode(key, KEY)|
    requires t == Encode(key, KEY) + ("=" + Encode(val, VAL) + rest)
    ensures FirstEntry(t) == Entry(Pair(key, val), n + 1 + |Encode(val, VAL)|)
  {
    var k, v := Encode(key, KEY), Encode(val, VAL);
    AtEquals(k, v, rest);
    KeyRead(key, "=" + v + rest, t);
    ValueRead(key, val, rest, n + 1);
    EntryIs(t, n, key, v + rest, Entry(Pair(key, val), n + 1 + |v|));
  }

  lemma EntryIs(t: string, n: nat, key: string, w: string, e: Entry)
    requires n < |t| && t[n] == '=' && t[n + 1..] == w
    requires FirstEntry(t) == EntryWith(t, n, Text(key)) && WithValue(key, w, n + 1) == e
    ensures FirstEntry(t) == e
  {
  }

  lemma AtEquals(k: string, v: string, rest: string)
    ensures var t := k + ("=" + v + rest);
            |t| > |k| && t[|k|] == '=' && t[|k| + 1..] == v + rest && ("=" + v + rest)[0] == '='
  {
  }

  /** Reading a printed pair leaves the text behind it. */
  lemma PairRead(p: Pair, rest: string)
    requires Ascii(p.key) && Ascii(p.val) && (rest == "" || rest[0] == '&')
    ensures Entries(PairText(p) + rest) == if rest == "" then Pairs([p]) else Add(p, Entries(rest[1..]))
  {
    FirstRead(p, rest);
    EntriesBehind(PairText(p), rest, p);
  }

  lemma EntriesBehind(a: string, rest: string, p: Pair)
    requires FirstEntry(a + rest) == Entry(p, |a|)
    ensures Entries(a + rest) == if rest == "" then Pairs([p]) else Add(p, Entries(rest[1..]))
  {
    var t := a + rest;
    if rest != "" {
      assert t[|a| + 1..] == rest[1..];
    }
  }

  lemma QueryFront(q: seq<Pair>)
    requires AsciiPairs(q) && |q| > 1
    ensures AsciiPairs(q[1..])
    ensures var rest := "&" + QueryText(q[1..]); QueryText(q) == PairText(q[0]) + rest && rest[1..] == QueryText(q[1..])
  {
    Assoc(PairText(q[0]), "&", QueryText(q[1..]));
  }

  /** A printed query reads back as the pairs it was printed from. */
  lemma {:induction false} QueryRoundTrip(q: seq<Pair>)
    requires AsciiPairs(q) && q != []
    ensures Entries(QueryText(q)) == Pairs(q)
    decreases |q|
  {
    var p := q[0];
    if |q| == 1 {
      PairRead(p, "");
      assert PairText(p) + "" == PairText(p);
    } else {
      var rest := "&" + QueryText(q[1..]);
      QueryRoundTrip(q[1..]);
      PairRead(p, rest);
      QueryFront(q);
      assert [p] + q[1..] == q;
    }
  }

  lemma EncodeSome(s: string, k: Coding)
    requires Ascii(s) && s != ""
    ensures Encode(s, k) != ""
  {
  }

  /** So does the query of a URL, since a pair with a key is never printed as
      nothing. */
  lemma QueryReadBack(q: seq<Pair>)
    requires AsciiPairs(q) && HaveKeys(q)
    ensures ReadQuery(QueryText(q)) == Pairs(q)
  {
    if q != [] {
      EncodeSome(q[0].key, KEY);
      QueryRoundTrip(q);
    }
  }

  // ---- the loops ----

  /** The printing of `encode`, `encode_query_key` and `encode_query_val`, which
      differ in what they escape. The source shifts a signed character, so that
      only ASCII text may be encoded. */
  method EncodeText(s: string, k: Coding) returns (o: string)
    requires Ascii(s)
    ensures o == Encode(s, k)
  {
    o := "";
    assert s[0..] == s;
    for i := 0 to |s|
      invariant Ascii(s[i..]) && Encode(s, k) == o + Encode(s[i..], k)
    {
      var c := s[i];
      assert s[i..][1..] == s[i + 1..];
      var piece;
      if k.plus && c == ' ' {
        piece := "+";
      } else if c !in k.escaped && IsChar(c, k.mask) {
        piece := [c];
      } else {
        piece := ['%', DIGITS[c as int / 16], DIGITS[c as int % 16]];
      }
      assert Encode(s[i..], k) == piece + Encode(s[i + 1..], k);
      Assoc(o, piece, Encode(s[i + 1..], k));
      o := o + piece;
    }
  }

  function Prepend(o: string, d: Decoded): Decoded {
    if d.Text? then Text(o + d.s) else Invalid
  }

  lemma PrependCons(o: string, c: char, d: Decoded)
    ensures Prepend(o, Cons(c, d)) == Prepend(o + [c], d)
  {
    if d.Text? {
      Assoc(o, [c], d.s);
    }
  }

  /** decode and decode_plus. */
  method DecodeText(s: string, plus: bool) returns (r: Decoded)
    ensures r == Decode(s, plus)
  {
    var o, p := "", 0;
    assert s[0..] == s;
    while p < |s|
      invariant 0 <= p <= |s|
      invariant Decode(s, plus) == Prepend(o, Decode(s[p..], plus))
      decreases |s| - p
    {
      var c, q := s[p], p + 1;
      assert s[p..][1..] == s[p + 1..];
      if plus && c == '+' {
        c := ' ';
      } else if c == '%' {
        if p + 2 >= |s| || HexDigit(s[p + 1]) < 0 || HexDigit(s[p + 2]) < 0 {
          return Invalid;
        }
        assert s[p..][1] == s[p + 1] && s[p..][2] == s[p + 2] && s[p..][3..] == s[p + 3..];
        c, q := (HexDigit(s[p + 1]) * 16 + HexDigit(s[p + 2])) as char, p + 3;
      }
      assert Decode(s[p..], plus) == Cons(c, Decode(s[q..], plus));
      PrependCons(o, c, Decode(s[q..], plus));
      o, p := o + [c], q;
    }
    r := Text(o);
  }

  datatype Printed = Printed(text: string) | NoKey

  method PrintPair(p: Pair) returns (o: string)
    requires Ascii(p.key) && Ascii(p.val)
    ensures o == PairText(p)
  {
    o := EncodeText(p.key, KEY);
    if p.val == "" {
      o := o + "";
    } else {
      var val := EncodeText(p.val, VAL);
      o := o + ("=" + val);
    }
  }

  /** What is printed of the first `i` pairs. */
  ghost predicate PrintedOf(q: seq<Pair>, i: nat, o: string) {
    && i <= |q| && AsciiPairs(q) && AsciiPairs(q[i..])
    && QueryText(q) == if i == 0 then QueryText(q[i..]) else if i == |q| then o else o + "&" + QueryText(q[i..])
  }

  lemma PrintStep(q: seq<Pair>, i: nat, o: string, entry: string)
    requires i < |q| && PrintedOf(q, i, o) && entry == PairText(q[i])
    ensures PrintedOf(q, i + 1, if i == 0 then entry else o + "&" + entry)
  {
    var rest := q[i..];
    assert rest[1..] == q[i + 1..] && rest[0] == q[i];
    var later := q[i + 1..];
    forall j | 0 <= j < |later| ensures Ascii(later[j].key) && Ascii(later[j].val) {
      assert later[j] == q[i + 1 + j];
    }
    if i > 0 && i + 1 < |q| {
      var more := QueryText(q[i + 1..]);
      Assoc(o + "&", entry + "&", more);
      Assoc(o + "&", entry, "&");
    }
  }

  /** The query part of build_url, which refuses an entry without a key. */
  method PrintQuery(q: seq<Pair>) returns (r: Printed)
    requires AsciiPairs(q)
    ensures r == if HaveKeys(q) then Printed(QueryText(q)) else NoKey
  {
    var o := "";
    assert q[0..] == q;
    for i := 0 to |q|
      invariant PrintedOf(q, i, o) && (i == 0 ==> o == "")
      invariant forall j | 0 <= j < i :: q[j].key != ""
    {
      if q[i].key == "" {
        return NoKey;
      }
      var entry := PrintPair(q[i]);
      PrintStep(q, i, o, entry);
      o := if i == 0 then entry else o + "&" + entry;
    }
    r := Printed(o);
  }

  // ---- reading a query ----

  function AddAll(done: seq<Pair>, r: QueryResult): QueryResult {
    if r.Pairs? then Pairs(done + r.q) else BadQuery
  }

  lemma AddSnoc(done: seq<Pair>, p: Pair, r: QueryResult)
    ensures AddAll(done, Add(p, r)) == AddAll(done + [p], r)
  {
    if r.Pairs? {
      Assoc(done, [p], r.q);
    }
  }

  method FindFirst(t: string, b: nat, stops: string) returns (p: nat)
    requires b <= |t|
    ensures p == b + FindAny(t[b..], stops)
  {
    p := b;
    while p < |t| && t[p] !in stops
      invariant b <= p <= |t| && b + FindAny(t[b..], stops) == p + FindAny(t[p..], stops)
    {
      assert t[p..][1..] == t[p + 1..];
      p := p + 1;
    }
  }

  method ReadPart(t: string, b: nat, p: nat) returns (r: Decoded)
    requires b <= p <= |t|
    ensures r == Part(t[b..p])
  {
    if !IsChars(t[b..p], 0x3F) {
      return Invalid;
    }
    r := DecodeText(t[b..p], true);
  }

  /** One turn of the reading loop: the pair that starts at `b`. */
  method ReadEntry(t: string, b: nat) returns (e: Entry)
    requires b <= |t|
    ensures e == FirstEntry(t[b..])
  {
    var p := FindFirst(t, b, "=;&");
    var key := ReadPart(t, b, p);
    FirstAt(t, b, p, key);
    if key.Invalid? {
      return BadEntry;
    }
    if p < |t| && t[p] == '=' {
      e := ReadValue(t, b, p + 1, key.s);
    } else {
      e := Entry(Pair(key.s, ""), p - b);
    }
  }

  lemma FirstAt(t: string, b: nat, p: nat, key: Decoded)
    requires b <= |t| && p == b + FindAny(t[b..], "=;&") && key == Part(t[b..p])
    ensures FirstEntry(t[b..])
            == if key.Invalid? then BadEntry
               else if p == |t| || t[p] != '=' then Entry(Pair(key.s, ""), p - b)
               else WithValue(key.s, t[p + 1..], p + 1 - b)
  {
    var all := t[b..];
    SliceOfTail(t, b, p);
    assert FirstEntry(all) == EntryWith(all, p - b, key);
    if p < |t| {
      TailOfTail(t, b, p + 1);
      assert all[p - b] == t[p];
    }
  }

  method ReadValue(t: string, b: nat, c: nat, key: string) returns (e: Entry)
    requires b <= c <= |t|
    ensures e == WithValue(key, t[c..], c - b)
  {
    var p := FindFirst(t, c, ";&");
    assert t[c..][..p - c] == t[c..p];
    var val := ReadPart(t, c, p);
    if val.Invalid? {
      return BadEntry;
    }
    e := Entry(Pair(key, val.s), p - b);
  }

  /** What a first entry says about the whole text from `b` on. */
  ghost predicate Leads(t: string, b: nat, e: Entry)
    requires b <= |t|
  {
    var all := Entries(t[b..]);
    if e.BadEntry? then all.BadQuery?
    else if b + e.stop < |t| then all == Add(e.pair, Entries(t[b + e.stop + 1..]))
    else b + e.stop == |t| && all == Pairs([e.pair])
  }

  lemma FirstLeads(t: string, b: nat)
    requires b <= |t|
    ensures Leads(t, b, FirstEntry(t[b..]))
  {
    var e := FirstEntry(t[b..]);
    if e.Entry? && b + e.stop < |t| {
      assert t[b..][e.stop + 1..] == t[b + e.stop + 1..];
    }
  }

  lemma LeadsOn(t: string, b: nat, e: Entry, q: seq<Pair>, total: QueryResult)
    requires b <= |t| && Leads(t, b, e) && total == AddAll(q, Entries(t[b..]))
    ensures e.BadEntry? ==> total.BadQuery?
    ensures e.Entry? ==> b + e.stop <= |t|
    ensures e.Entry? && b + e.stop == |t| ==> total == Pairs(q + [e.pair])
    ensures e.Entry? && b + e.stop < |t| ==> total == AddAll(q + [e.pair], Entries(t[b + e.stop + 1..]))
  {
    if e.Entry? && b + e.stop < |t| {
      AddSnoc(q, e.pair, Entries(t[b + e.stop + 1..]));
    }
  }

  /** Where the reading loop stands: `q` has been read, and the search stopped
      at `p`, just before `b`. */
  ghost predicate Standing(t: string, q: seq<Pair>, b: nat, p: nat, total: QueryResult) {
    if p == |t| then total == Pairs(q) else b <= |t| && total == AddAll(q, Entries(t[b..]))
  }

  /** The same, as a function value, so that the loop's proof does not look
      into the reading of entries. */
  type Stand = (seq<Pair>, nat, nat) -> bool

  ghost predicate StandsFor(stand: Stand, t: string, total: QueryResult) {
    forall q, b, p {:trigger Standing(t, q, b, p, total)} :: stand(q, b, p) == Standing(t, q, b, p, total)
  }

  lemma Stood(stand: Stand, t: string, total: QueryResult, q: seq<Pair>, b: nat)
    requires StandsFor(stand, t, total) && stand(q, b, |t|)
    ensures total == Pairs(q)
  {
    assert Standing(t, q, b, |t|, total);
  }

  method NextEntry(t: string, b: nat, p: nat, ghost q: seq<Pair>, ghost total: QueryResult, ghost stand: Stand)
    returns (e: Entry)
    requires b <= |t| && p != |t| && StandsFor(stand, t, total) && stand(q, b, p)
    ensures e.BadEntry? ==> total.BadQuery?
    ensures e.Entry? ==> b + e.stop <= |t| && stand(q + [e.pair], b + e.stop + 1, b + e.stop)
  {
    assert Standing(t, q, b, p, total);
    e := ReadEntry(t, b);
    assert e.Entry? ==>
      stand(q + [e.pair], b + e.stop + 1, b + e.stop) == Standing(t, q + [e.pair], b + e.stop + 1, b + e.stop, total);
    FirstLeads(t, b);
    LeadsOn(t, b, e, q, total);
  }

  /** The query part of parse_url. */
  method ParseQuery(t: string) returns (r: QueryResult)
    ensures r == ReadQuery(t)
  {
    StartAt(t);
    ghost var total := ReadQuery(t);
    ghost var stand: Stand := (q: seq<Pair>, b: nat, p: nat) => Standing(t, q, b, p, total);
    assert stand([], 0, 0) == Standing(t, [], 0, 0, total);
    r := ReadPairs(t, total, stand);
  }

  method ReadPairs(t: string, ghost total: QueryResult, ghost stand: Stand) returns (r: QueryResult)
    requires StandsFor(stand, t, total) && stand([], 0, 0)
    ensures r == total
  {
    var q: seq<Pair>, b: nat, p: nat := [], 0, 0;
    while p != |t|
      invariant p <= |t| && (p != |t| ==> b <= |t|)
      invariant stand(q, b, p)
      decreases if p == |t| then 0 else 1 + |t| - b
    {
      var e := NextEntry(t, b, p, q, total, stand);
      if e.BadEntry? {
        return BadQuery;
      }
      p := b + e.stop;
      b := p + 1;
      q := q + [e.pair];
    }
    Stood(stand, t, total, q, b);
    r := Pairs(q);
  }

  lemma StartAt(t: string)
    ensures Standing(t, [], 0, 0, ReadQuery(t))
  {
    assert t[0..] == t;
    var r := Entries(t);
    assert r.Pairs? ==> [] + r.q == r.q;
  }
}
