// Facts about sequences used throughout.
module Seqs {

  function Flatten<T>(ss: seq<seq<T>>): seq<T> {
    if ss == [] then [] else Flatten(ss[..|ss| - 1]) + ss[|ss| - 1]
  }

  lemma FlattenSnoc<T>(ss: seq<seq<T>>, s: seq<T>)
    ensures Flatten(ss + [s]) == Flatten(ss) + s
  {
    assert (ss + [s])[..|ss|] == ss;
  }

  lemma {:induction false} FlattenAppend<T>(a: seq<seq<T>>, b: seq<seq<T>>)
    ensures Flatten(a + b) == Flatten(a) + Flatten(b)
    decreases |b|
  {
    if b == [] {
      assert a + b == a;
    } else {
      var n := |b| - 1;
      AppendLast(a, b);
      FlattenSnoc(a + b[..n], b[n]);
      FlattenAppend(a, b[..n]);
    }
  }

  lemma FlattenFront<T>(ss: seq<seq<T>>)
    requires ss != []
    ensures Flatten(ss) == ss[0] + Flatten(ss[1..])
  {
    assert ss == [ss[0]] + ss[1..];
    FlattenAppend([ss[0]], ss[1..]);
    assert [ss[0]][..0] == [];
  }

  lemma FrontLast<T>(s: seq<T>)
    requires s != []
    ensures s[..|s| - 1] + [s[|s| - 1]] == s
  {
  }

  lemma SliceAll<T>(s: seq<T>)
    ensures s[..|s|] == s
  {
  }

  lemma SliceLast<T>(s: seq<T>, n: nat)
    requires n < |s|
    ensures s[..n + 1] == s[..n] + [s[n]]
  {
  }

  lemma SliceBoth<T>(s: seq<T>, n: nat)
    requires n <= |s|
    ensures s[..n] + s[n..] == s
  {
  }

  lemma AppendLast<T>(a: seq<T>, b: seq<T>)
    requires b != []
    ensures a + b == (a + b[..|b| - 1]) + [b[|b| - 1]]
  {
  }

  lemma SliceOfTail<T>(s: seq<T>, b: nat, p: nat)
    requires b <= p <= |s|
    ensures s[b..][..p - b] == s[b..p]
  {
  }

  lemma TailOfTail<T>(s: seq<T>, b: nat, p: nat)
    requires b <= p <= |s|
    ensures s[b..][p - b..] == s[p..]
  {
  }

  lemma Assoc<T>(a: seq<T>, b: seq<T>, c: seq<T>)
    ensures a + b + c == a + (b + c)
  {
  }
}
