// Path normalisation of include/http/http_url.hpp.
module UrlPath {
  import opened Seqs
  import T = UrlText

  /** Where the first slash is, or the length. */
  function Find(s: string): (p: nat)
    ensures p <= |s| && (p < |s| ==> s[p] == '/')
    ensures forall i | 0 <= i < p :: s[i] != '/'
  {
    if s == "" || s[0] == '/' then 0 else 1 + Find(s[1..])
  }

  /** The segments between slashes; there is always at least one. */
  function Segments(s: string): (r: seq<string>)
    ensures |r| > 0
    decreases |s|
  {
    var p := Find(s);
    if p == |s| then [s] else [s[..p]] + Segments(s[p + 1..])
  }

  function Join(e: seq<string>): string {
    if e == [] then "" else if |e| == 1 then e[0] else e[0] + "/" + Join(e[1..])
  }

  /** What a segment that is not the last does to the segments kept so far. */
  function Push(kept: seq<string>, seg: string): seq<string> {
    if seg == "" || seg == "." then kept
    else if seg == ".." then if kept == [] then [] else kept[..|kept| - 1]
    else kept + [seg]
  }

  function Keep(segs: seq<string>): seq<string> {
    if segs == [] then [] else Push(Keep(segs[..|segs| - 1]), segs[|segs| - 1])
  }

  /** What the last segment does. */
  function PushLast(kept: seq<string>, seg: string): seq<string> {
    if seg == "." then kept + [""]
    else if seg == ".." then if kept == [] then [] else kept[..|kept| - 1]
    else kept + [seg]
  }

  function Normal(segs: seq<string>): seq<string>
    requires |segs| > 0
  {
    PushLast(Keep(segs[..|segs| - 1]), segs[|segs| - 1])
  }

  function Root(s: string): string { if s != "" && s[0] == '/' then "/" else "" }

  function Normalize(s: string): string {
    if s == "" then "" else Root(s) + Join(Normal(Segments(s)))
  }

  // ---- what a normal path is ----

  predicate Plain(seg: string) { '/' !in seg && seg != "" && seg != "." && seg != ".." }

  predicate AllPlain(segs: seq<string>) { forall i | 0 <= i < |segs| :: Plain(segs[i]) }

  /** No dot segment, and no empty one but perhaps the last. */
  predicate Clean(segs: seq<string>) {
    segs == [] || (AllPlain(segs[..|segs| - 1]) && (segs[|segs| - 1] == "" || Plain(segs[|segs| - 1])))
  }

  predicate NoSlash(segs: seq<string>) { forall i | 0 <= i < |segs| :: '/' !in segs[i] }

  lemma {:induction false} SegmentsNoSlash(s: string)
    ensures NoSlash(Segments(s))
    decreases |s|
  {
    var p := Find(s);
    if p < |s| {
      SegmentsNoSlash(s[p + 1..]);
    } else {
      assert s[..p] == s;
    }
  }

  lemma {:induction false} KeepPlain(segs: seq<string>)
    requires NoSlash(segs)
    ensures AllPlain(Keep(segs))
    decreases |segs|
  {
    if segs != [] {
      KeepPlain(segs[..|segs| - 1]);
    }
  }

  lemma NormalClean(segs: seq<string>)
    requires |segs| > 0 && NoSlash(segs)
    ensures Clean(Normal(segs))
  {
    var n := |segs| - 1;
    KeepPlain(segs[..n]);
    var kept := Keep(segs[..n]);
    if segs[n] == "." || segs[n] != ".." {
      assert (kept + [segs[n]])[..|kept|] == kept;
      assert (kept + [""])[..|kept|] == kept;
    }
  }

  // ---- joining and splitting ----

  lemma FindJoined(a: string, b: string)
    requires '/' !in a
    ensures Find(a) == |a|
    ensures Find(a + "/" + b) == |a|
  {
    assert (a + "/" + b)[|a|] == '/';
    assert forall i | 0 <= i < |a| :: (a + "/" + b)[i] == a[i];
  }

  lemma {:induction false} SegmentsJoin(e: seq<string>)
    requires e != [] && NoSlash(e)
    ensures Segments(Join(e)) == e
    decreases |e|
  {
    if |e| == 1 {
      FindJoined(e[0], "");
    } else {
      var rest := Join(e[1..]);
      var s := e[0] + "/" + rest;
      FindJoined(e[0], rest);
      assert s[..|e[0]|] == e[0] && s[|e[0]| + 1..] == rest;
      SegmentsJoin(e[1..]);
    }
  }

  /** The segments of a path, without the empty one before a leading slash. */
  function Body(s: string): seq<string> {
    if s != "" && s[0] == '/' then Segments(s[1..]) else Segments(s)
  }

  lemma {:induction false} KeepAll(segs: seq<string>)
    requires AllPlain(segs)
    ensures Keep(segs) == segs
    decreases |segs|
  {
    if segs != [] {
      var n := |segs| - 1;
      KeepAll(segs[..n]);
      assert segs[..n] + [segs[n]] == segs;
    }
  }

  lemma {:induction false} KeepSkips(segs: seq<string>)
    ensures Keep([""] + segs) == Keep(segs)
    decreases |segs|
  {
    if segs == [] {
      assert [""] + segs == [""];
      assert [""][..0] == [];
    } else {
      var n := |segs| - 1;
      assert ([""] + segs)[..n + 1] == [""] + segs[..n];
      KeepSkips(segs[..n]);
    }
  }

  lemma CleanIsNormal(segs: seq<string>)
    requires segs != [] && Clean(segs)
    ensures Normal(segs) == segs && Normal([""] + segs) == segs
  {
    var n := |segs| - 1;
    KeepAll(segs[..n]);
    KeepSkips(segs[..n]);
    assert ([""] + segs)[..n + 1] == [""] + segs[..n];
    assert segs[..n] + [segs[n]] == segs;
  }

  /** Clean segments make a text that does not start with a slash. */
  lemma CleanStart(e: seq<string>)
    requires e != [] && Clean(e)
    ensures Join(e) == "" <==> e == [""]
    ensures Join(e) != "" ==> Join(e)[0] != '/'
  {
    if |e| > 1 {
      assert e[..|e| - 1][0] == e[0];
      assert Plain(e[0]);
    }
  }

  lemma BodyOfRooted(r: string, t: string)
    requires r == "/" + t
    ensures Body(r) == Segments(t)
  {
    assert r[1..] == t;
  }

  /** The text of clean segments, behind a slash, has them as its body. */
  lemma RootedBody(e: seq<string>, r: string)
    requires e != [] && Clean(e) && r == "/" + Join(e)
    ensures Body(r) == e
  {
    BodyOfRooted(r, Join(e));
    CleanNoSlash(e);
    SegmentsJoin(e);
  }

  lemma UnrootedBody(e: seq<string>, r: string)
    requires e != [] && Clean(e) && r == Join(e)
    ensures Body(r) == e
  {
    CleanStart(e);
    CleanNoSlash(e);
    SegmentsJoin(e);
  }

  lemma CleanNoSlash(e: seq<string>)
    requires Clean(e)
    ensures NoSlash(e)
  {
    forall i | 0 <= i < |e| ensures '/' !in e[i] {
      if i < |e| - 1 {
        assert e[..|e| - 1][i] == e[i];
      }
    }
  }

  lemma TextNormal(s: string)
    requires s != "" && Normal(Segments(s)) != []
    ensures Clean(Normal(Segments(s)))
    ensures Body(Normalize(s)) == Normal(Segments(s))
  {
    var e := Normal(Segments(s));
    SegmentsNoSlash(s);
    NormalClean(Segments(s));
    if s[0] == '/' {
      RootedBody(e, "/" + Join(e));
    } else {
      assert "" + Join(e) == Join(e);
      UnrootedBody(e, Join(e));
    }
  }

  lemma TextRoot(s: string, e: seq<string>)
    requires s != "" && e != [] && Clean(e)
    ensures var r := Root(s) + Join(e); r != "" ==> Root(r) == Root(s)
  {
    CleanStart(e);
    assert "" + Join(e) == Join(e);
  }

  lemma EmptyNormal(s: string)
    requires s != "" && Normal(Segments(s)) == []
    ensures Normalize(s) == "" || Normalize(s) == "/"
  {
  }

  /** A normalised path has no dot segment, and no empty one but the last. */
  lemma NormalizedIsClean(s: string)
    ensures Clean(Body(Normalize(s)))
  {
    if s != "" {
      if Normal(Segments(s)) == [] {
        EmptyNormal(s);
        EmptyBodies();
      } else {
        TextNormal(s);
      }
    }
  }

  lemma EmptyBodies()
    ensures Body("") == [""] && Body("/") == [""]
  {
    assert "/"[1..] == "";
  }

  lemma SegmentsOfRooted(r: string)
    requires r != "" && r[0] == '/'
    ensures Segments(r) == [""] + Segments(r[1..])
  {
    assert r[..0] == "";
  }

  lemma SlashIsNormal()
    ensures Normalize("/") == "/"
  {
    SegmentsOfRooted("/");
    assert "/"[1..] == "";
    CleanIsNormal([""]);
    assert Segments("/") == [""] + [""];
    assert Join([""]) == "";
  }

  /** Clean segments are left as they are. */
  lemma CleanIsFixed(r: string, e: seq<string>)
    requires r != "" && e != [] && Clean(e) && Body(r) == e && r == Root(r) + Join(e)
    ensures Normalize(r) == r
  {
    CleanIsNormal(e);
    if r[0] == '/' {
      SegmentsOfRooted(r);
    }
  }

  /** Normalising again changes nothing. */
  lemma Idempotent(s: string)
    ensures Normalize(Normalize(s)) == Normalize(s)
  {
    if s != "" {
      if Normal(Segments(s)) == [] {
        EmptyNormal(s);
        SlashIsNormal();
      } else if Normalize(s) != "" {
        TextNormal(s);
        TextRoot(s, Normal(Segments(s)));
        CleanIsFixed(Normalize(s), Normal(Segments(s)));
      }
    }
  }

  // ---- through encoding and decoding ----

  predicate AllAscii(segs: seq<string>) { forall i | 0 <= i < |segs| :: T.Ascii(segs[i]) }

  lemma {:induction false} SegmentsAscii(s: string)
    requires T.Ascii(s)
    ensures AllAscii(Segments(s))
    decreases |s|
  {
    var p := Find(s);
    if p < |s| {
      assert T.Ascii(s[p + 1..]);
      SegmentsAscii(s[p + 1..]);
    }
  }

  lemma {:induction false} KeepAscii(segs: seq<string>)
    requires AllAscii(segs)
    ensures AllAscii(Keep(segs))
    decreases |segs|
  {
    if segs != [] {
      KeepAscii(segs[..|segs| - 1]);
    }
  }

  lemma {:induction false} JoinAscii(e: seq<string>)
    requires AllAscii(e)
    ensures T.Ascii(Join(e))
    decreases |e|
  {
    if |e| > 1 {
      JoinAscii(e[1..]);
    }
  }

  lemma NormalizeAscii(s: string)
    requires T.Ascii(s)
    ensures T.Ascii(Normalize(s))
  {
    if s != "" {
      var segs := Segments(s);
      SegmentsAscii(s);
      KeepAscii(segs[..|segs| - 1]);
      JoinAscii(Normal(segs));
    }
  }

  /** A normalised path comes back from printing and reading: encoding it,
      decoding that and normalising again yields the same path. */
  lemma PathStable(s: string)
    requires T.Ascii(s)
    ensures T.Ascii(Normalize(s))
    ensures var p := Normalize(s);
            var text := T.Encode(p, T.PATH);
            T.IsChars(text, 0x2F) && T.Decode(text, false) == T.Text(p) && Normalize(p) == p
  {
    NormalizeAscii(s);
    T.PathRoundTrip(Normalize(s));
    Idempotent(s);
  }

  // ---- the loop ----

  method FindSlash(s: string, pos: nat) returns (p: nat)
    requires pos <= |s|
    ensures p == pos + Find(s[pos..])
  {
    p := pos;
    while p < |s| && s[p] != '/'
      invariant pos <= p <= |s| && pos + Find(s[pos..]) == p + Find(s[p..])
    {
      assert s[p..][1..] == s[p + 1..];
      p := p + 1;
    }
  }

  lemma KeepSnoc(segs: seq<string>, seg: string)
    ensures Keep(segs + [seg]) == Push(Keep(segs), seg)
  {
    assert (segs + [seg])[..|segs|] == segs;
  }

  /** The segment between two positions comes before those behind the slash. */
  lemma SegmentsFrom(s: string, pos: nat, p: nat)
    requires pos <= p < |s| && p == pos + Find(s[pos..])
    ensures Segments(s[pos..]) == [s[pos..p]] + Segments(s[p + 1..])
  {
    assert s[pos..][..p - pos] == s[pos..p];
    assert s[pos..][p - pos + 1..] == s[p + 1..];
  }

  /** One more segment of a text is known. */
  lemma OneMore(all: seq<string>, s: string, done: seq<string>, pos: nat, p: nat)
    requires pos <= p < |s| && p == pos + Find(s[pos..]) && all == done + Segments(s[pos..])
    ensures all == done + [s[pos..p]] + Segments(s[p + 1..])
    ensures Keep(done + [s[pos..p]]) == Push(Keep(done), s[pos..p])
  {
    SegmentsFrom(s, pos, p);
    Moved(all, done, s[pos..p], Segments(s[pos..]), Segments(s[p + 1..]));
    KeepSnoc(done, s[pos..p]);
  }

  lemma Moved(all: seq<string>, done: seq<string>, elem: string, rest: seq<string>, more: seq<string>)
    requires all == done + rest && rest == [elem] + more
    ensures all == done + [elem] + more
  {
    Assoc(done, [elem], more);
  }

  lemma TheLast(s: string, done: seq<string>, pos: nat)
    requires pos <= |s| == pos + Find(s[pos..]) && Segments(s) == done + Segments(s[pos..])
    ensures Normal(Segments(s)) == PushLast(Keep(done), s[pos..])
  {
    var last := s[pos..];
    assert Segments(last) == [last];
    assert (done + [last])[..|done|] == done;
  }

  /** The kept segments after all but the last. */
  method Collect(s: string) returns (elems: seq<string>, pos: nat)
    ensures pos <= |s| && Normal(Segments(s)) == PushLast(elems, s[pos..])
  {
    elems, pos := [], 0;
    ghost var done: seq<string> := [];
    assert s[0..] == s;
    var p := FindSlash(s, 0);
    while p < |s|
      invariant pos <= p <= |s| && p == pos + Find(s[pos..])
      invariant Segments(s) == done + Segments(s[pos..]) && elems == Keep(done)
      decreases |s| - p
    {
      OneMore(Segments(s), s, done, pos, p);
      var elem := s[pos..p];
      done := done + [elem];
      pos := p + 1;
      p := FindSlash(s, pos);
      if elem == "" || elem == "." {
        continue;
      }
      if elem == ".." {
        if elems != [] {
          elems := elems[..|elems| - 1];
        }
        continue;
      }
      elems := elems + [elem];
    }
    TheLast(s, done, pos);
  }

  /** normalize_path: takes segments off the text one by one. */
  method NormalizePath(s: string) returns (r: string)
    ensures r == Normalize(s)
  {
    if s == "" {
      return s;
    }
    var elems, pos := Collect(s);
    var elem := s[pos..];
    if elem == "." {
      elems := elems + [""];
    } else if elem == ".." {
      if elems != [] {
        elems := elems[..|elems| - 1];
      }
    } else {
      elems := elems + [elem];
    }
    var text := JoinAll(elems);
    r := (if s[0] == '/' then "/" else "") + text;
  }

  lemma JoinAt(e: seq<string>, i: nat)
    requires i < |e|
    ensures Join(e[i..]) == if i + 1 == |e| then e[i] else e[i] + "/" + Join(e[i + 1..])
  {
    assert e[i..][1..] == e[i + 1..];
  }

  method JoinAll(elems: seq<string>) returns (r: string)
    ensures r == Join(elems)
  {
    r := "";
    if elems != [] {
      r := elems[0];
      assert elems[0..] == elems;
      JoinAt(elems, 0);
      for i := 1 to |elems|
        invariant Join(elems) == if i == |elems| then r else r + "/" + Join(elems[i..])
      {
        JoinAt(elems, i);
        assert r + "/" + (elems[i] + "/" + Join(elems[i + 1..])) == r + "/" + elems[i] + "/" + Join(elems[i + 1..]);
        r := r + "/" + elems[i];
      }
    }
  }
}
