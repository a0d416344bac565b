// What base64 text means (section 4 of RFC 4648): reading it back gives the octets.
module WsBase64 {
  import opened Seqs
  import opened WsHandshake

  /** The number that a symbol stands for. */
  function ValueOf(c: char): Octet {
    if 'A' <= c <= 'Z' then (c as int - 'A' as int) as Octet
    else if 'a' <= c <= 'z' then (c as int - 'a' as int + 26) as Octet
    else if '0' <= c <= '9' then (c as int - '0' as int + 52) as Octet
    else if c == '+' then 62
    else 63
  }

  /** Four numbers as three octets. */
  function Join(a: Octet, b: Octet, c: Octet, d: Octet): seq<Octet> {
    [(a << 2) | (b >> 4), (b << 4) | (c >> 2), (c << 6) | d]
  }

  /** Four symbols as three octets. */
  function Octets(q: string): seq<Octet>
    requires |q| == 4
  {
    Join(ValueOf(q[0]), ValueOf(q[1]), ValueOf(q[2]), ValueOf(q[3]))
  }

  /** Text whose length is a multiple of four; an equals sign stands for no octet. */
  function Read(t: string): seq<Octet> {
    if |t| < 4 then []
    else if t[2] == '=' then Octets(t[..4])[..1]
    else if t[3] == '=' then Octets(t[..4])[..2]
    else Octets(t[..4]) + Read(t[4..])
  }

  lemma UpperSymbol(n: nat)
    requires n < 26
    ensures ALPHABET[n] == (n + 65) as char
  {
    assert ALPHABET[n] == UPPER[n];
    assert n < 13 ==> UPPER[n] == (n + 65) as char;
  }

  lemma LowerSymbol(n: nat)
    requires 26 <= n < 52
    ensures ALPHABET[n] == (n - 26 + 97) as char
  {
  }

  lemma DigitSymbol(n: nat)
    requires 52 <= n < 62
    ensures ALPHABET[n] == (n - 52 + 48) as char
  {
  }

  lemma SymbolRead(v: Octet)
    requires v < 64
    ensures ValueOf(Symbol(v)) == v && Symbol(v) != '='
  {
    var n := v as int;
    if n < 26 {
      UpperSymbol(n);
    } else if n < 52 {
      LowerSymbol(n);
    } else if n < 62 {
      DigitSymbol(n);
    }
  }

  lemma Bits(x: Octet, y: Octet, z: Octet)
    ensures (((x >> 2) & 63) << 2) | ((((x & 3) << 4) | ((y & 240) >> 4)) >> 4) == x
    ensures ((((x & 3) << 4) | ((y & 240) >> 4)) << 4) | ((((y & 15) << 2) | ((z & 192) >> 6)) >> 2) == y
    ensures ((((y & 15) << 2) | ((z & 192) >> 6)) << 6) | (z & 63) == z
  {
  }

  lemma SymbolsRead(q: string, a: Octet, b: Octet, c: Octet, d: Octet)
    requires a < 64 && b < 64 && c < 64 && d < 64 && q == [Symbol(a), Symbol(b), Symbol(c), Symbol(d)]
    ensures Octets(q) == Join(a, b, c, d) && forall i | 0 <= i < 4 :: q[i] != '='
  {
    SymbolRead(a);
    SymbolRead(b);
    SymbolRead(c);
    SymbolRead(d);
  }

  lemma QuadIs(x: Octet, y: Octet, z: Octet, b: Octet, c: Octet)
    requires b == ((x & 3) << 4) | ((y & 240) >> 4) && c == ((y & 15) << 2) | ((z & 192) >> 6)
    ensures (x >> 2) & 63 < 64 && b < 64 && c < 64 && z & 63 < 64
    ensures Quad(x, y, z) == [Symbol((x >> 2) & 63), Symbol(b), Symbol(c), Symbol(z & 63)]
  {
    Parts(x, y, z);
  }

  lemma QuadRead(x: Octet, y: Octet, z: Octet)
    ensures Octets(Quad(x, y, z)) == [x, y, z] && forall i | 0 <= i < 4 :: Quad(x, y, z)[i] != '='
  {
    var b, c := ((x & 3) << 4) | ((y & 240) >> 4), ((y & 15) << 2) | ((z & 192) >> 6);
    Bits(x, y, z);
    QuadIs(x, y, z, b, c);
    SymbolsRead(Quad(x, y, z), (x >> 2) & 63, b, c, z & 63);
  }

  /** The base64 text of some octets reads back as those octets. */
  lemma {:induction false} ReadBack(d: seq<Octet>)
    ensures Read(Base64(d)) == d
    decreases |d|
  {
    if |d| >= 3 {
      ReadBack(d[3..]);
      ReadThree(d, d[3..]);
    } else if |d| == 2 {
      ReadTwo(d[0], d[1]);
    } else if |d| == 1 {
      ReadOne(d[0]);
    }
  }

  lemma ReadThree(d: seq<Octet>, rest: seq<Octet>)
    requires |d| >= 3 && rest == d[3..] && Read(Base64(rest)) == rest
    ensures Read(Base64(d)) == d
  {
    QuadRead(d[0], d[1], d[2]);
    BaseThree(d);
    ReadMore(Quad(d[0], d[1], d[2]), Base64(rest));
  }

  lemma ReadMore(q: string, t: string)
    requires |q| == 4 && q[2] != '=' && q[3] != '='
    ensures Read(q + t) == Octets(q) + Read(t)
  {
    assert (q + t)[..4] == q && (q + t)[4..] == t;
  }

  lemma ReadTwo(x: Octet, y: Octet)
    ensures Read(Quad(x, y, 0)[..3] + "=") == [x, y]
  {
    QuadRead(x, y, 0);
    var q, t := Quad(x, y, 0), Quad(x, y, 0)[..3] + "=";
    assert t[..4] == t && t[0] == q[0] && t[1] == q[1] && t[2] == q[2];
    Front2(t, q);
  }

  lemma ReadOne(x: Octet)
    ensures Read(Quad(x, 0, 0)[..2] + "==") == [x]
  {
    QuadRead(x, 0, 0);
    var q, t := Quad(x, 0, 0), Quad(x, 0, 0)[..2] + "==";
    assert t[..4] == t && t[0] == q[0] && t[1] == q[1];
    Front1(t, q);
  }

  lemma Front2(t: string, q: string)
    requires |t| == 4 && |q| == 4 && t[0] == q[0] && t[1] == q[1] && t[2] == q[2]
    ensures Octets(t)[..2] == Octets(q)[..2]
  {
  }

  lemma Front1(t: string, q: string)
    requires |t| == 4 && |q| == 4 && t[0] == q[0] && t[1] == q[1]
    ensures Octets(t)[..1] == Octets(q)[..1]
  {
  }
}
