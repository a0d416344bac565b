// Texts that are put together from pieces, one for each rank: where the fields
// of such a text are.
module UrlPieces {
  import opened Circular
  import opened Seqs
  import opened UrlSplit
  import opened UrlFields
  import opened UrlRefine

  type Text = seq<Byte>

  function Last(t: Text): Byte
    requires t != []
  {
    t[|t| - 1]
  }

  function Front(t: Text): Text
    requires t != []
  {
    t[..|t| - 1]
  }

  lemma SnocChars(t: Text, c: Byte)
    ensures c in t + [c] && forall x :: x in t + [c] <==> x in t || x == c
    ensures t + [c] != [] && Last(t + [c]) == c && (t != [] ==> (t + [c])[0] == t[0])
    ensures forall i | 0 <= i < |t| :: (t + [c])[i] == t[i]
  {
  }

  lemma OneChar(t: Text, c: Byte)
    ensures |t + [c]| == 1 ==> t == [] && t + [c] == [c]
  {
  }

  lemma TwoChars(t: Text, c: Byte)
    ensures |t + [c]| == 2 ==> |t| == 1 && t + [c] == [t[0], c]
  {
  }

  function Times(n: nat, r: int): (s: seq<int>)
    ensures |s| == n && forall i | 0 <= i < n :: s[i] == r
  {
    seq(n, _ => r)
  }

  /** The ranks of the joined pieces, the first of which has rank `base`. */
  function PieceRanks(ps: seq<Text>, base: int): seq<int> {
    if ps == [] then []
    else PieceRanks(ps[..|ps| - 1], base) + Times(|ps[|ps| - 1]|, base + |ps| - 1)
  }

  lemma {:induction false} RanksLength(ps: seq<Text>, base: int)
    ensures |PieceRanks(ps, base)| == |Flatten(ps)|
    decreases |ps|
  {
    if ps != [] {
      RanksLength(ps[..|ps| - 1], base);
    }
  }

  lemma RanksSnoc(ps: seq<Text>, p: Text, base: int)
    ensures PieceRanks(ps + [p], base) == PieceRanks(ps, base) + Times(|p|, base + |ps|)
  {
    assert (ps + [p])[..|ps|] == ps;
  }

  lemma {:induction false} RanksAppend(a: seq<Text>, b: seq<Text>, base: int)
    ensures PieceRanks(a + b, base) == PieceRanks(a, base) + PieceRanks(b, base + |a|)
    decreases |b|
  {
    if b == [] {
      assert a + b == a;
    } else {
      var n := |b| - 1;
      RanksAppend(a, b[..n], base);
      AppendSnoc(a, b[..n], b[n], base);
      FrontLast(b);
    }
  }

  lemma AppendSnoc(a: seq<Text>, b: seq<Text>, p: Text, base: int)
    requires PieceRanks(a + b, base) == PieceRanks(a, base) + PieceRanks(b, base + |a|)
    ensures PieceRanks(a + (b + [p]), base) == PieceRanks(a, base) + PieceRanks(b + [p], base + |a|)
  {
    Assoc(a, b, [p]);
    RanksSnoc(a + b, p, base);
    RanksSnoc(b, p, base + |a|);
    Assoc(PieceRanks(a, base), PieceRanks(b, base + |a|), Times(|p|, base + |a| + |b|));
  }

  // ---- one character more ----

  /** Nothing stands behind piece `r`. */
  predicate LastIs(ps: seq<Text>, r: int) { 0 <= r < |ps| && forall k | r < k < |ps| :: ps[k] == [] }

  lemma EndEmpty(ps: seq<Text>, base: int)
    requires ps != [] && ps[|ps| - 1] == []
    ensures Flatten(ps) == Flatten(ps[..|ps| - 1]) && PieceRanks(ps, base) == PieceRanks(ps[..|ps| - 1], base)
  {
    assert Times(0, base + |ps| - 1) == [];
  }

  lemma {:induction false} PutJoins(ps: seq<Text>, base: int, r: nat, c: Byte)
    requires LastIs(ps, r)
    ensures Flatten(ps[r := ps[r] + [c]]) == Flatten(ps) + [c]
    ensures PieceRanks(ps[r := ps[r] + [c]], base) == PieceRanks(ps, base) + [base + r]
    decreases |ps|
  {
    var n := |ps| - 1;
    var qs := ps[r := ps[r] + [c]];
    if r == n {
      assert qs[..n] == ps[..n];
      Assoc(Flatten(ps[..n]), ps[n], [c]);
      assert Times(|qs[n]|, base + r) == Times(|ps[n]|, base + r) + [base + r];
    } else {
      assert qs[..n] == ps[..n][r := ps[r] + [c]];
      PutJoins(ps[..n], base, r, c);
      EndEmpty(ps, base);
      EndEmpty(qs, base);
    }
  }

  lemma {:induction false} AllEmpty(ps: seq<Text>, base: int)
    requires forall k | 0 <= k < |ps| :: ps[k] == []
    ensures Flatten(ps) == [] && PieceRanks(ps, base) == []
    decreases |ps|
  {
    if ps != [] {
      AllEmpty(ps[..|ps| - 1], base);
    }
  }

  // ---- fields ----

  lemma {:induction false} RanksBelow(ps: seq<Text>, base: int, x: int)
    requires x < base
    ensures Count(PieceRanks(ps, base), x) == 0
    decreases |ps|
  {
    if ps != [] {
      var n := |ps| - 1;
      RanksBelow(ps[..n], base, x);
      CountAppend(PieceRanks(ps[..n], base), Times(|ps[n]|, base + n), x);
      CountNone(Times(|ps[n]|, base + n), x);
    }
  }

  lemma TimesUpTo(n: nat, r: int, x: int)
    requires r <= x
    ensures Count(Times(n, r), x) == n
  {
    CountAll(Times(n, r), x);
  }

  lemma {:induction false} RanksUpTo(ps: seq<Text>, base: int, x: int)
    requires x >= base + |ps| - 1
    ensures Count(PieceRanks(ps, base), x) == |Flatten(ps)|
    decreases |ps|
  {
    if ps != [] {
      var n := |ps| - 1;
      RanksUpTo(ps[..n], base, x);
      SnocUpTo(ps[..n], ps[n], base, x);
      FrontLast(ps);
    }
  }

  lemma SnocUpTo(ps: seq<Text>, p: Text, base: int, x: int)
    requires x >= base + |ps| && Count(PieceRanks(ps, base), x) == |Flatten(ps)|
    ensures Count(PieceRanks(ps + [p], base), x) == |Flatten(ps + [p])|
  {
    RanksSnoc(ps, p, base);
    FlattenSnoc(ps, p);
    CountAppend(PieceRanks(ps, base), Times(|p|, base + |ps|), x);
    TimesUpTo(|p|, base + |ps|, x);
  }

  /** The characters up to a rank are those of the pieces up to it. */
  lemma CountPieces(ps: seq<Text>, x: int)
    requires -1 <= x < |ps|
    ensures Count(PieceRanks(ps, 0), x) == |Flatten(ps[..x + 1])|
  {
    SliceBoth(ps, x + 1);
    CountFront(ps[..x + 1], ps[x + 1..], x);
  }

  lemma CountFront(a: seq<Text>, b: seq<Text>, x: int)
    requires x + 1 == |a|
    ensures Count(PieceRanks(a + b, 0), x) == |Flatten(a)|
  {
    RanksAppend(a, b, 0);
    CountAppend(PieceRanks(a, 0), PieceRanks(b, x + 1), x);
    RanksUpTo(a, 0, x);
    RanksBelow(b, x + 1, x);
  }

  /** Piece `k` in the joined text. */
  function PieceSlice(ps: seq<Text>, k: nat): Slice
    requires k < |ps|
  {
    Slice(|Flatten(ps[..k])|, |ps[k]|)
  }

  lemma SliceIsPiece(ps: seq<Text>, f: Field)
    requires 2 * Place(f) < |ps|
    ensures SliceOf(PieceRanks(ps, 0), f) == PieceSlice(ps, 2 * Place(f))
  {
    var k := 2 * Place(f);
    CountPieces(ps, k - 1);
    CountPieces(ps, k);
    OnePiece(ps, k);
  }

  lemma OnePiece(ps: seq<Text>, k: nat)
    requires k < |ps|
    ensures |Flatten(ps[..k + 1])| == |Flatten(ps[..k])| + |ps[k]|
  {
    SliceLast(ps, k);
    FlattenSnoc(ps[..k], ps[k]);
  }

  lemma PieceText(ps: seq<Text>, k: nat)
    requires k < |ps|
    ensures var s := PieceSlice(ps, k);
            s.off + s.len <= |Flatten(ps)| && SliceText(Flatten(ps), s) == ps[k]
  {
    SliceBoth(ps, k + 1);
    SliceLast(ps, k);
    FlattenAppend(ps[..k + 1], ps[k + 1..]);
    FlattenSnoc(ps[..k], ps[k]);
  }

  /** The fields of a text that is made of 13 pieces. */
  function PieceFields(ps: seq<Text>): map<Field, Slice>
    requires |ps| == 13
  {
    map f | f in FIELDS && ps[2 * Place(f)] != [] :: PieceSlice(ps, 2 * Place(f))
  }

  lemma FieldsArePieces(ps: seq<Text>)
    requires |ps| == 13
    ensures Fields(PieceRanks(ps, 0)) == PieceFields(ps)
  {
    forall f: Field ensures SameAt(Fields(PieceRanks(ps, 0)), PieceFields(ps), f) {
      SliceIsPiece(ps, f);
      FieldsAt(PieceRanks(ps, 0), f);
    }
    SameMaps(Fields(PieceRanks(ps, 0)), PieceFields(ps));
  }
}
