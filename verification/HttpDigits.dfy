// Length digits of include/http/http_parser.hpp: the Content-Length value and
// the hexadecimal chunk size, both accumulated in 64 bits behind a guard.
module HttpDigits {
  import opened Circular
  import opened Seqs

  const M64: int := 0x1_0000_0000_0000_0000
  /** The largest 64-bit value, which stands for "no Content-Length". */
  const ABSENT: int := M64 - 1

  const SP: Byte := 0x20

  function U64(x: int): nat { x % M64 }

  /** The number that a sequence of digits denotes, most significant first. */
  function Value(base: nat, ds: seq<nat>): nat {
    if ds == [] then 0 else Value(base, ds[..|ds| - 1]) * base + ds[|ds| - 1]
  }

  /** The largest value that passes the guard `(ULLONG_MAX - base) / base`. */
  function Largest(base: nat): int
    requires base > 0
  {
    (ABSENT - base) / base * base + base - 1
  }

  lemma LargestValues()
    ensures Largest(16) == ABSENT - 16
    ensures Largest(10) == ABSENT - 6
  {
  }

  /** The guard looks at the digits before the last one, and decides exactly
      whether the number with the last digit is at most `Largest`. */
  lemma Guard(base: nat, v: nat, d: nat)
    requires base > 0 && d < base
    ensures (ABSENT - base) / base < v <==> Largest(base) < v * base + d
  {
    var g := (ABSENT - base) / base;
    if g < v {
      assert (g + 1) * base <= v * base;
    } else {
      assert v * base <= g * base;
    }
  }

  /** One digit more, computed in 64 bits before the guard is consulted: what
      passes the guard has not wrapped. */
  method Accumulate(base: nat, v: nat, d: nat) returns (ok: bool, t: nat)
    requires (base == 10 || base == 16) && d < base
    ensures ok <==> v * base + d <= (if base == 10 then ABSENT - 6 else ABSENT - 16)
    ensures ok ==> t == v * base + d
  {
    LargestValues();
    Guard(base, v, d);
    t := U64(U64(v * base) + d);
    ok := !((ABSENT - base) / base < v);
  }

  lemma ValueSnoc(base: nat, ds: seq<nat>, d: nat)
    ensures Value(base, ds + [d]) == Value(base, ds) * base + d
  {
    assert (ds + [d])[..|ds|] == ds;
  }

  lemma TimesGrows(x: nat, base: nat)
    requires base > 0
    ensures x <= x * base
  {
  }

  /** A longer number is not smaller. */
  lemma {:induction false} ValueGrows(base: nat, a: seq<nat>, b: seq<nat>)
    requires base > 0
    ensures Value(base, a) <= Value(base, a + b)
    decreases |b|
  {
    if b == [] {
      assert a + b == a;
    } else {
      var n := |b| - 1;
      AppendLast(a, b);
      ValueSnoc(base, a + b[..n], b[n]);
      ValueGrows(base, a, b[..n]);
      TimesGrows(Value(base, a + b[..n]), base);
    }
  }

  // ---- Content-Length ----

  predicate IsNumber(c: Byte) { 0x30 <= c <= 0x39 }

  function Digit(c: Byte): (r: nat)
    requires IsNumber(c)
    ensures r < 10
  {
    var n: int := c;
    n - 0x30
  }

  datatype LengthResult = Length(value: nat) | InvalidLength | UnexpectedLength

  /** What the decimal digits of a text denote. */
  function Decimals(text: seq<Byte>): (r: seq<nat>)
    requires forall i | 0 <= i < |text| :: IsNumber(text[i])
    ensures |r| == |text|
  {
    seq(|text|, i requires 0 <= i < |text| => Digit(text[i]))
  }

  /** A header value that is a number: `n` digits and then only spaces. */
  ghost predicate Number(text: seq<Byte>, n: nat) {
    && 0 < n <= |text|
    && (forall i | 0 <= i < n :: IsNumber(text[i]))
    && (forall i | n <= i < |text| :: text[i] == SP)
  }

  lemma DecimalsSnoc(text: seq<Byte>, n: nat)
    requires n < |text| && forall i | 0 <= i <= n :: IsNumber(text[i])
    ensures Value(10, Decimals(text[..n + 1])) == Value(10, Decimals(text[..n])) * 10 + Digit(text[n])
  {
    assert Decimals(text[..n + 1]) == Decimals(text[..n]) + [Digit(text[n])];
    ValueSnoc(10, Decimals(text[..n]), Digit(text[n]));
  }

  lemma DecimalsGrow(text: seq<Byte>, n: nat, m: nat)
    requires n <= m <= |text| && forall i | 0 <= i < m :: IsNumber(text[i])
    ensures Value(10, Decimals(text[..n])) <= Value(10, Decimals(text[..m]))
  {
    var a, b := Decimals(text[..n]), Decimals(text[..m]);
    assert b == a + b[n..];
    ValueGrows(10, a, b[n..]);
  }

  /** What a Content-Length header means: its number, unless an earlier header
      gave a length or the number is above ULLONG_MAX - 6. */
  ghost predicate Meaning(text: seq<Byte>, seen: bool, r: LengthResult) {
    && (forall n: nat | Number(text, n) ::
          var v := Value(10, Decimals(text[..n]));
          r == if seen then UnexpectedLength else if v <= ABSENT - 6 then Length(v) else InvalidLength)
    && ((forall n: nat :: !Number(text, n)) ==> !r.Length?)
  }

  /** A byte that is no digit, and is no space either or follows a space. */
  lemma NoNumber(text: seq<Byte>, seen: bool, i: nat)
    requires i < |text| && text[i] != SP
    requires !IsNumber(text[i]) || (i > 0 && text[i - 1] == SP)
    ensures Meaning(text, seen, InvalidLength)
  {
  }

  /** No digit comes after the digits of a number. */
  lemma NumberEnds(text: seq<Byte>, n: nat, m: nat)
    requires n <= |text| && forall i | 0 <= i < n :: IsNumber(text[i])
    requires Number(text, m)
    ensures n <= m
  {
    assert m < |text| ==> text[m] == SP;
  }

  /** The first `i` bytes are `n` digits and then spaces. */
  ghost predicate Scanned(text: seq<Byte>, n: nat, i: nat, length: nat) {
    && n <= i <= |text|
    && (forall k | 0 <= k < n :: IsNumber(text[k]))
    && (forall k | n <= k < i :: text[k] == SP)
    && length == Value(10, Decimals(text[..n])) <= ABSENT - 6
  }

  lemma DecimalsFirst(text: seq<Byte>)
    requires text != [] && IsNumber(text[0])
    ensures Scanned(text, 1, 1, Digit(text[0]))
  {
    assert Decimals(text[..1]) == [] + [Digit(text[0])];
    ValueSnoc(10, [], Digit(text[0]));
  }

  lemma ScannedDigit(text: seq<Byte>, i: nat, length: nat)
    requires i < |text| && Scanned(text, i, i, length) && IsNumber(text[i])
    requires length * 10 + Digit(text[i]) <= ABSENT - 6
    ensures Scanned(text, i + 1, i + 1, length * 10 + Digit(text[i]))
  {
    DecimalsSnoc(text, i);
  }

  lemma ScannedTooLarge(text: seq<Byte>, i: nat, length: nat)
    requires i < |text| && Scanned(text, i, i, length) && IsNumber(text[i])
    requires length * 10 + Digit(text[i]) > ABSENT - 6
    ensures Meaning(text, false, InvalidLength)
  {
    DecimalsSnoc(text, i);
    TooLarge(text, i + 1);
  }

  lemma TooLarge(text: seq<Byte>, n: nat)
    requires n <= |text| && forall i | 0 <= i < n :: IsNumber(text[i])
    requires Value(10, Decimals(text[..n])) > ABSENT - 6
    ensures Meaning(text, false, InvalidLength)
  {
    forall m: nat | Number(text, m) ensures Value(10, Decimals(text[..m])) > ABSENT - 6 {
      NumberEnds(text, n, m);
      DecimalsGrow(text, n, m);
    }
  }

  lemma IsMeaning(text: seq<Byte>, n: nat, length: nat)
    requires n > 0 && Scanned(text, n, |text|, length)
    ensures Meaning(text, false, Length(length))
  {
    assert Number(text, n);
    forall m: nat | Number(text, m) ensures m == n {
      NumberEnds(text, n, m);
      NumberEnds(text, m, n);
    }
  }

  /** The value of a Content-Length header. It is entered at the value's first
      byte, and `seen` says that an earlier header gave a length. A length that
      is accepted is never the one that stands for an absent header. */
  method ContentLength(text: seq<Byte>, seen: bool) returns (r: LengthResult)
    requires text != []
    ensures Meaning(text, seen, r)
    ensures r.Length? ==> r.value < ABSENT
  {
    if !IsNumber(text[0]) {
      return InvalidLength;
    }
    if seen {
      return UnexpectedLength;
    }
    var length := Digit(text[0]);
    var spaces := false;
    ghost var n := 1;
    var i := 1;
    DecimalsFirst(text);
    while i < |text|
      invariant 1 <= n <= i <= |text|
      invariant Scanned(text, n, i, length)
      invariant spaces == (n < i)
    {
      var c := text[i];
      if spaces {
        if c != SP {
          NoNumber(text, seen, i);
          return InvalidLength;
        }
      } else if c == SP {
        spaces := true;
      } else {
        if !IsNumber(c) {
          NoNumber(text, seen, i);
          return InvalidLength;
        }
        var ok, t := Accumulate(10, length, Digit(c));
        if !ok {
          ScannedTooLarge(text, i, length);
          return InvalidLength;
        }
        ScannedDigit(text, i, length);
        length := t;
        n := i + 1;
      }
      i := i + 1;
    }
    IsMeaning(text, n, length);
    r := Length(length);
  }

  // ---- hexadecimal digits ----

  /** The `unhex` table. Its initialiser lists 128 entries, so that the other
      bytes read as the digit zero. */
  function Unhex(c: Byte): (r: int)
    ensures -1 <= r < 16
  {
    if 0x30 <= c <= 0x39 then c - 0x30
    else if 0x41 <= c <= 0x46 then c - 0x41 + 10
    else if 0x61 <= c <= 0x66 then c - 0x61 + 10
    else if c >= 0x80 then 0
    else -1
  }

  predicate IsHex(text: seq<Byte>) {
    forall i | 0 <= i < |text| :: Unhex(text[i]) != -1
  }

  function Hex(text: seq<Byte>): (r: seq<nat>)
    requires IsHex(text)
    ensures |r| == |text|
  {
    seq(|text|, i requires 0 <= i < |text| => Unhex(text[i]))
  }

  function HexValue(text: seq<Byte>): nat
    requires IsHex(text)
  {
    Value(16, Hex(text))
  }

  lemma HexSnoc(text: seq<Byte>, c: Byte)
    requires IsHex(text) && Unhex(c) != -1
    ensures IsHex(text + [c])
    ensures HexValue(text + [c]) == HexValue(text) * 16 + Unhex(c)
  {
    assert Hex(text + [c]) == Hex(text) + [Unhex(c)];
    ValueSnoc(16, Hex(text), Unhex(c));
  }
}
