// The grammar of percent coding and of queries: which texts encoding writes, which
// texts decoding accepts, and how a query is cut into pairs.
module UrlCoding {
  import opened Seqs
  import opened UrlText

  // ---- characters ----

  predicate Alphanumeric(c: char) { 'a' <= c <= 'z' || 'A' <= c <= 'Z' || '0' <= c <= '9' }

  /** What stands as it is in a path, in a key and in a value of a query. */
  predicate PathKeeps(c: char) { Alphanumeric(c) || c in "!$&'()*+,-.;=_~@:/" }
  predicate KeyKeeps(c: char) { Alphanumeric(c) || c in "!$'()*,-._~@:/?" }
  predicate ValueKeeps(c: char) { Alphanumeric(c) || c in "!$'()*,-._~@:/?=" }

  /** `d` is a hexadecimal digit with value `n`, in capitals or in small letters. */
  predicate Upper(d: char, n: int) { (0 <= n < 10 && d as int == 48 + n) || (10 <= n < 16 && d as int == 55 + n) }
  predicate Hex(d: char, n: int) { Upper(d, n) || (10 <= n < 16 && d as int == 87 + n) }

  lemma PathClass(c: char)
    ensures IsChar(c, 0x0F) <==> PathKeeps(c)
  {
  }

  lemma KeyClass(c: char)
    ensures IsChar(c, 0x1F) && c !in "+=&;" <==> KeyKeeps(c)
  {
  }

  lemma ValueClass(c: char)
    ensures IsChar(c, 0x1F) && c !in "+&;" <==> ValueKeeps(c)
  {
  }

  /** The character stands as it is. */
  predicate Keeps(k: Coding, c: char) {
    if k == PATH then PathKeeps(c) else if k == KEY then KeyKeeps(c) else ValueKeeps(c)
  }

  // ---- encoding ----

  /** How a character is written: as it is, a space as a plus sign in a query, and
      otherwise as a percent sign and two capital digits, the higher one first. */
  predicate Writes(k: Coding, c: char, u: string) {
    if k != PATH && c == ' ' then u == "+"
    else if Keeps(k, c) then u == [c]
    else |u| == 3 && u[0] == '%' && Upper(u[1], c as int / 16) && Upper(u[2], c as int % 16)
  }

  ghost predicate WritesAll(k: Coding, s: string, us: seq<string>) {
    |us| == |s| && forall i | 0 <= i < |s| :: Writes(k, s[i], us[i])
  }

  lemma DigitIs(n: nat)
    requires n < 16
    ensures Upper(DIGITS[n], n)
  {
    DigitsAreHex(n);
    if n < 10 {
      assert DIGITS[n] == (n + 48) as char;
    } else {
      assert DIGITS[n] == (n + 55) as char;
    }
  }

  lemma CharWrites(k: Coding, c: char)
    requires c as int < 0x80 && (k == PATH || k == KEY || k == VAL)
    ensures Writes(k, c, EncodeChar(c, k))
  {
    PathClass(c);
    KeyClass(c);
    ValueClass(c);
    DigitIs(c as int / 16);
    DigitIs(c as int % 16);
  }

  /** Encoded text is its characters, each written like that. */
  lemma {:induction false} EncodeWrites(s: string, k: Coding) returns (us: seq<string>)
    requires Ascii(s) && (k == PATH || k == KEY || k == VAL)
    ensures WritesAll(k, s, us) && Encode(s, k) == Flatten(us)
    decreases |s|
  {
    if s == "" {
      us := [];
    } else {
      assert Ascii(s[1..]);
      var rest := EncodeWrites(s[1..], k);
      CharWrites(k, s[0]);
      us := [EncodeChar(s[0], k)] + rest;
      FlattenFront(us);
      assert us[1..] == rest;
    }
  }

  // ---- decoding ----

  /** A piece of text stands for a character. */
  ghost predicate Spells(plus: bool, u: string, c: char) {
    || (|u| == 1 && u[0] != '%' && c == if plus && u[0] == '+' then ' ' else u[0])
    || (|u| == 3 && u[0] == '%'
        && exists hi, lo :: Hex(u[1], hi) && Hex(u[2], lo) && c as int == 16 * hi + lo)
  }

  ghost predicate SpellsAll(plus: bool, us: seq<string>, t: string) {
    |us| == |t| && forall i | 0 <= i < |t| :: Spells(plus, us[i], t[i])
  }

  lemma HexIs(d: char, n: int)
    ensures Hex(d, n) <==> 0 <= n && HexDigit(d) == n
  {
  }

  lemma SpellsOne(plus: bool, u: string, c: char, rest: string)
    requires Spells(plus, u, c)
    ensures Decode(u + rest, plus) == Cons(c, Decode(rest, plus))
  {
    if |u| == 1 {
      DecodePlain(u[0], plus, rest);
      assert u == [u[0]];
    } else {
      var hi, lo :| Hex(u[1], hi) && Hex(u[2], lo) && c as int == 16 * hi + lo;
      HexIs(u[1], hi);
      HexIs(u[2], lo);
      assert (u + rest)[3..] == rest;
    }
  }

  lemma {:induction false} SpellsDecode(plus: bool, us: seq<string>, t: string)
    requires SpellsAll(plus, us, t)
    ensures Decode(Flatten(us), plus) == Text(t)
    decreases |us|
  {
    if us != [] {
      FlattenFront(us);
      SpellsDecode(plus, us[1..], t[1..]);
      SpellsOne(plus, us[0], t[0], Flatten(us[1..]));
      assert t == [t[0]] + t[1..];
    }
  }

  /** The piece at the front of a text that decoding accepts. */
  lemma FirstSpelled(s: string, plus: bool) returns (u: string, rest: string, c: char)
    requires s != "" && Decode(s, plus).Text?
    ensures s == u + rest && |rest| < |s| && Spells(plus, u, c) && Decode(s, plus) == Cons(c, Decode(rest, plus))
  {
    if s[0] == '%' {
      u, rest := s[..3], s[3..];
      var hi, lo := HexDigit(s[1]), HexDigit(s[2]);
      c := (hi * 16 + lo) as char;
      HexIs(u[1], hi);
      HexIs(u[2], lo);
    } else {
      u, rest := s[..1], s[1..];
      c := if plus && s[0] == '+' then ' ' else s[0];
    }
  }

  lemma {:induction false} DecodeSpells(s: string, plus: bool) returns (us: seq<string>)
    requires Decode(s, plus).Text?
    ensures SpellsAll(plus, us, Decode(s, plus).s) && s == Flatten(us)
    decreases |s|
  {
    if s == "" {
      us := [];
    } else {
      var u, rest, c := FirstSpelled(s, plus);
      var more := DecodeSpells(rest, plus);
      us := [u] + more;
      FlattenFront(us);
      assert us[1..] == more;
    }
  }

  /** Decoding accepts exactly the texts that are spelled, and gives what they spell. */
  lemma DecodesExactly(s: string, plus: bool, t: string)
    ensures Decode(s, plus) == Text(t) <==> exists us :: SpellsAll(plus, us, t) && s == Flatten(us)
  {
    if Decode(s, plus) == Text(t) {
      var us := DecodeSpells(s, plus);
    }
    if us :| SpellsAll(plus, us, t) && s == Flatten(us) {
      SpellsDecode(plus, us, t);
    }
  }

  // ---- queries ----

  /** What may stand in a query: whatever a key keeps, its delimiters and percent signs. */
  predicate QueryChar(c: char) { Alphanumeric(c) || c in "!$&'()*+,-.;=_~@:/?%" }

  lemma QueryClass(c: char)
    ensures IsChar(c, 0x3F) <==> QueryChar(c)
  {
  }

  /** A key or a value as it stands in a query, and what it means. */
  ghost predicate Means(s: string, t: string) {
    (forall i | 0 <= i < |s| :: QueryChar(s[i])) && exists us :: SpellsAll(true, us, t) && s == Flatten(us)
  }

  lemma PartMeans(s: string, t: string)
    ensures Part(s) == Text(t) <==> Means(s, t)
  {
    forall i | 0 <= i < |s| ensures IsChar(s[i], 0x3F) <==> QueryChar(s[i]) {
      QueryClass(s[i]);
    }
    DecodesExactly(s, true, t);
  }

  predicate Without(s: string, stops: string) { forall i | 0 <= i < |s| :: s[i] !in stops }

  /** An entry is a key, or a key and a value around the first equals sign. */
  ghost predicate Reads(e: string, p: Pair) {
    || (Without(e, "=") && Means(e, p.key) && p.val == "")
    || exists n :: 0 <= n < |e| && e[n] == '=' && Without(e[..n], "=")
         && Means(e[..n], p.key) && Means(e[n + 1..], p.val)
  }

  /** Entries with a separator between each two. */
  function Join(es: seq<string>, seps: string): string
    requires |es| == |seps| + 1
  {
    if |es| == 1 then es[0] else es[0] + ([seps[0]] + Join(es[1..], seps[1..]))
  }

  ghost predicate IsQuery(es: seq<string>, seps: string, q: seq<Pair>, t: string) {
    && |es| == |q| == |seps| + 1 && (forall i | 0 <= i < |seps| :: seps[i] == '&' || seps[i] == ';')
    && (forall i | 0 <= i < |es| :: Without(es[i], "&;") && Reads(es[i], q[i])) && t == Join(es, seps)
  }

  // ---- one entry ----

  /** What the reader makes of an entry whose first equals sign is at `n`, if any. */
  function Own(e: string, n: nat): Entry
    requires n <= |e|
  {
    var key := Part(e[..n]);
    if key.Invalid? then BadEntry
    else if n == |e| then Entry(Pair(key.s, ""), n)
    else
      var val := Part(e[n + 1..]);
      if val.Invalid? then BadEntry else Entry(Pair(key.s, val.s), |e|)
  }

  predicate FirstEquals(e: string, n: nat) { n <= |e| && Without(e[..n], "=") && (n < |e| ==> e[n] == '=') }

  predicate Behind(rest: string) { rest == "" || rest[0] == '&' || rest[0] == ';' }

  lemma KeyFound(e: string, rest: string, n: nat)
    requires Without(e, "&;") && Behind(rest) && FirstEquals(e, n)
    ensures FindAny(e + rest, "=;&") == n && (e + rest)[..n] == e[..n]
  {
    SliceBoth(e, n);
    Assoc(e[..n], e[n..], rest);
    FindBehind(e[..n], e[n..] + rest, "=;&");
    assert n < |e| ==> (e[n..] + rest)[0] == '=';
  }

  lemma ValueFound(e: string, rest: string, n: nat)
    requires Without(e, "&;") && Behind(rest) && n < |e|
    ensures (e + rest)[n + 1..] == e[n + 1..] + rest
    ensures FindAny((e + rest)[n + 1..], ";&") == |e| - n - 1 && (e + rest)[n + 1..][..|e| - n - 1] == e[n + 1..]
  {
    var v := e[n + 1..];
    assert (e + rest)[n + 1..] == v + rest;
    FindBehind(v, rest, ";&");
  }

  lemma FirstIsOwn(e: string, rest: string, n: nat)
    requires Without(e, "&;") && Behind(rest) && FirstEquals(e, n)
    ensures FirstEntry(e + rest) == Own(e, n)
  {
    var t := e + rest;
    KeyFound(e, rest, n);
    assert FirstEntry(t) == EntryWith(t, n, Part(e[..n]));
    if n < |e| {
      ValueFound(e, rest, n);
    }
  }

  lemma OneFirst(e: string, n: nat, m: nat)
    requires FirstEquals(e, n) && FirstEquals(e, m) && n < |e| && m < |e|
    ensures m == n
  {
    assert forall i | 0 <= i < m :: e[..m][i] == e[i];
    assert forall i | 0 <= i < n :: e[..n][i] == e[i];
  }

  lemma OwnReads(e: string, n: nat, p: Pair)
    requires FirstEquals(e, n)
    ensures Own(e, n) == Entry(p, |e|) <==> Reads(e, p)
  {
    PartMeans(e[..n], p.key);
    SliceAll(e);
    if n < |e| {
      PartMeans(e[n + 1..], p.val);
      forall m | 0 <= m < |e| && e[m] == '=' && Without(e[..m], "=") ensures m == n {
        OneFirst(e, n, m);
      }
    }
  }

  /** Where the first equals sign is. */
  lemma EqualsAt(e: string) returns (n: nat)
    ensures FirstEquals(e, n)
  {
    n := FindAny(e, "=");
  }

  // ---- all entries ----

  /** An entry and what stands behind it. */
  lemma EntryLeads(e: string, rest: string, p: Pair)
    requires Without(e, "&;") && Behind(rest) && Reads(e, p)
    ensures Entries(e + rest) == if rest == "" then Pairs([p]) else Add(p, Entries(rest[1..]))
  {
    var n := EqualsAt(e);
    FirstIsOwn(e, rest, n);
    OwnReads(e, n, p);
    EntriesBehind(e, rest, p);
  }

  lemma {:induction false} QueryRead(es: seq<string>, seps: string, q: seq<Pair>, t: string)
    requires IsQuery(es, seps, q, t)
    ensures Entries(t) == Pairs(q)
    decreases |es|
  {
    if |es| == 1 {
      EntryLeads(es[0], "", q[0]);
      assert es[0] + "" == es[0] && q == [q[0]];
    } else {
      var more := QueryTail(es, seps, q, t);
      QueryRead(es[1..], seps[1..], q[1..], more);
      QueryMore(es[0], seps[0], q[0], q[1..], more);
    }
  }

  lemma QueryTail(es: seq<string>, seps: string, q: seq<Pair>, t: string) returns (more: string)
    requires IsQuery(es, seps, q, t) && |es| > 1
    ensures IsQuery(es[1..], seps[1..], q[1..], more) && t == es[0] + ([seps[0]] + more) && q == [q[0]] + q[1..]
  {
    more := Join(es[1..], seps[1..]);
  }

  lemma QueryMore(e: string, sep: char, p: Pair, q: seq<Pair>, more: string)
    requires Without(e, "&;") && (sep == '&' || sep == ';') && Reads(e, p) && Entries(more) == Pairs(q)
    ensures Entries(e + ([sep] + more)) == Pairs([p] + q)
  {
    EntryLeads(e, [sep] + more, p);
    assert ([sep] + more)[1..] == more;
  }

  lemma OwnPair(e: string, n: nat)
    requires FirstEquals(e, n) && Own(e, n).Entry?
    ensures Reads(e, Own(e, n).pair)
  {
    OwnReads(e, n, Own(e, n).pair);
  }

  /** The entry in front of a text that is read. */
  lemma FirstRead(t: string) returns (e: string, rest: string, p: Pair)
    requires Entries(t).Pairs?
    ensures t == e + rest && Without(e, "&;") && Behind(rest) && Reads(e, p)
    ensures Entries(t) == if rest == "" then Pairs([p]) else Add(p, Entries(rest[1..]))
  {
    var m := FindAny(t, "&;");
    e, rest := t[..m], t[m..];
    SliceBoth(t, m);
    var n := EqualsAt(e);
    FirstIsOwn(e, rest, n);
    OwnPair(e, n);
    p := Own(e, n).pair;
    EntryLeads(e, rest, p);
  }

  lemma QueryFront(e: string, p: Pair, rest: string, es: seq<string>, seps: string, q: seq<Pair>)
    requires Without(e, "&;") && Behind(rest) && Reads(e, p) && rest != "" && IsQuery(es, seps, q, rest[1..])
    ensures IsQuery([e] + es, [rest[0]] + seps, [p] + q, e + rest)
  {
    assert ([e] + es)[1..] == es && ([rest[0]] + seps)[1..] == seps && rest == [rest[0]] + rest[1..];
  }

  lemma {:induction false} ReadQueryParts(t: string) returns (es: seq<string>, seps: string)
    requires Entries(t).Pairs?
    ensures IsQuery(es, seps, Entries(t).q, t)
    decreases |t|
  {
    var e, rest, p := FirstRead(t);
    if rest == "" {
      assert e + rest == e;
      es, seps := [e], "";
    } else {
      es, seps := ReadQueryParts(rest[1..]);
      QueryFront(e, p, rest, es, seps, Entries(rest[1..]).q);
      es, seps := [e] + es, [rest[0]] + seps;
    }
  }

  /** A query is read as some pairs if and only if it is entries that read as them,
      in order, with an ampersand or a semicolon between each two. */
  lemma ReadsExactly(t: string, q: seq<Pair>)
    ensures ReadQuery(t) == Pairs(q) <==> if t == "" then q == [] else exists es, seps :: IsQuery(es, seps, q, t)
  {
    if t != "" && Entries(t) == Pairs(q) {
      var es, seps := ReadQueryParts(t);
    }
    if es, seps :| IsQuery(es, seps, q, t) {
      QueryRead(es, seps, q, t);
    }
  }
}