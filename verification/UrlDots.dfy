// Normalised paths beside section 5.2.4 of RFC 3986: what its routine
// remove_dot_segments makes of a rooted path, and where the code differs.
module UrlDots {
  import opened Seqs
  import opened UrlPath

  // ---- the routine of the standard ----

  /** The output without its last segment and the slash before it. */
  function DropSegment(out: string): string {
    if out == "" then ""
    else if out[|out| - 1] == '/' then out[..|out| - 1]
    else DropSegment(out[..|out| - 1])
  }

  /** Its steps 2A to 2E. */
  function RemoveDots(input: string, out: string): string
    decreases |input|
  {
    if input == "" then out
    else if "../" <= input then RemoveDots(input[3..], out)
    else if "./" <= input then RemoveDots(input[2..], out)
    else if "/./" <= input then RemoveDots(input[2..], out)
    else if input == "/." then RemoveDots("/", out)
    else if "/../" <= input then RemoveDots(input[3..], DropSegment(out))
    else if input == "/.." then RemoveDots("/", DropSegment(out))
    else if input == "." || input == ".." then out
    else
      var p := 1 + Find(input[1..]);
      RemoveDots(input[p..], out + input[..p])
  }

  // ---- the same on segments ----

  /** Each segment behind a slash. */
  function Slashed(segs: seq<string>): string {
    if segs == [] then "" else "/" + segs[0] + Slashed(segs[1..])
  }

  function Drop(kept: seq<string>): seq<string> { if kept == [] then [] else kept[..|kept| - 1] }

  function RfcPush(kept: seq<string>, seg: string): seq<string> {
    if seg == "." then kept else if seg == ".." then Drop(kept) else kept + [seg]
  }

  function RfcLast(kept: seq<string>, seg: string): seq<string> {
    if seg == "." then kept + [""] else if seg == ".." then Drop(kept) + [""] else kept + [seg]
  }

  function RfcFrom(kept: seq<string>, segs: seq<string>): seq<string>
    requires segs != []
    decreases |segs|
  {
    if |segs| == 1 then RfcLast(kept, segs[0]) else RfcFrom(RfcPush(kept, segs[0]), segs[1..])
  }

  lemma {:induction false} SlashedSnoc(segs: seq<string>, seg: string)
    ensures Slashed(segs + [seg]) == Slashed(segs) + "/" + seg
    decreases |segs|
  {
    if segs == [] {
      assert [seg][1..] == [];
    } else {
      assert (segs + [seg])[1..] == segs[1..] + [seg];
      SlashedSnoc(segs[1..], seg);
      SlashedEnds(segs[0], Slashed(segs[1..]), seg);
    }
  }

  lemma SlashedEnds(a: string, rest: string, seg: string)
    ensures "/" + a + (rest + "/" + seg) == "/" + a + rest + "/" + seg
  {
  }

  lemma {:induction false} DropAfter(text: string, seg: string)
    requires '/' !in seg
    ensures DropSegment(text + "/" + seg) == text
    decreases |seg|
  {
    var out := text + "/" + seg;
    var n := |out| - 1;
    if seg == "" {
      assert out[n] == '/' && out[..n] == text;
    } else {
      var front := seg[..|seg| - 1];
      assert out[n] == seg[|seg| - 1] && seg[|seg| - 1] in seg;
      assert out[..n] == text + "/" + front;
      DropAfter(text, front);
    }
  }

  lemma DropSlashed(kept: seq<string>)
    requires NoSlash(kept)
    ensures DropSegment(Slashed(kept)) == Slashed(Drop(kept))
  {
    if kept != [] {
      var n := |kept| - 1;
      FrontLast(kept);
      SlashedSnoc(kept[..n], kept[n]);
      DropAfter(Slashed(kept[..n]), kept[n]);
    }
  }

  /** A lone slash is moved to the output. */
  lemma MoveSlash(out: string)
    ensures RemoveDots("/", out) == out + "/"
  {
    assert "/"[1..] == "" && "/"[..1] == "/";
    assert RemoveDots("/", out) == RemoveDots("", out + "/");
  }

  /** A segment that is no dot segment is moved to the output. */
  lemma MoveSegment(seg: string, rest: string, out: string)
    requires '/' !in seg && seg != "." && seg != ".." && (rest == "" || rest[0] == '/')
    ensures RemoveDots("/" + seg + rest, out) == RemoveDots(rest, out + ("/" + seg))
  {
    var input := "/" + seg + rest;
    assert input[1..] == seg + rest;
    FindSegment(seg, rest);
    assert input[..1 + |seg|] == "/" + seg && input[1 + |seg|..] == rest;
    NoDots(seg, rest, input);
  }

  lemma FindSegment(seg: string, rest: string)
    requires '/' !in seg && (rest == "" || rest[0] == '/')
    ensures Find(seg + rest) == |seg|
  {
    var s := seg + rest;
    forall i | 0 <= i < |seg| ensures s[i] != '/' {
      assert s[i] == seg[i] && seg[i] in seg;
    }
    assert rest != "" ==> s[|seg|] == rest[0];
  }

  lemma Starts(s: string, p: string)
    ensures p <= s <==> |p| <= |s| && forall i | 0 <= i < |p| :: p[i] == s[i]
  {
  }

  lemma Unlike(s: string, p: string, i: nat)
    requires i < |p| && i < |s| && s[i] != p[i]
    ensures !(p <= s)
  {
  }

  lemma InSegment(seg: string, i: nat)
    requires '/' !in seg && i < |seg|
    ensures seg[i] != '/'
  {
    assert seg[i] in seg;
  }

  lemma NoDots(seg: string, rest: string, input: string)
    requires '/' !in seg && seg != "." && seg != ".." && input == "/" + seg + rest && (rest == "" || rest[0] == '/')
    ensures !("../" <= input) && !("./" <= input) && !("/./" <= input) && !("/../" <= input)
    ensures input != "/." && input != "/.." && input != "." && input != ".."
  {
    assert input[0] == '/';
    assert forall i | 0 <= i < |seg| :: input[i + 1] == seg[i];
    assert rest != "" ==> input[|seg| + 1] == '/';
    NotOne(seg, input);
    NotTwo(seg, input);
    Starts(input, "/./");
    Starts(input, "/../");
    if |seg| == 0 {
      assert |input| > 1 ==> input[1] == '/';
    } else if |seg| >= 2 {
      InSegment(seg, 1);
      if |seg| >= 3 {
        InSegment(seg, 2);
      }
    }
  }

  lemma NotOne(seg: string, input: string)
    requires seg != "." && |input| > |seg| && forall i | 0 <= i < |seg| :: input[i + 1] == seg[i]
    ensures |seg| == 1 ==> input[1] != '.'
  {
    if |seg| == 1 {
      assert seg == [seg[0]];
    }
  }

  lemma NotTwo(seg: string, input: string)
    requires seg != ".." && |input| > |seg| && forall i | 0 <= i < |seg| :: input[i + 1] == seg[i]
    ensures |seg| == 2 ==> input[1] != '.' || input[2] != '.'
  {
    if |seg| == 2 {
      assert seg == [seg[0], seg[1]];
      assert input[1] == seg[0] && input[2] == seg[1];
    }
  }

  lemma LoneDot(input: string, out: string)
    requires input == "/."
    ensures RemoveDots(input, out) == out + "/"
  {
    Unlike(input, "./", 0);
    assert !("../" <= input) && !("./" <= input) && !("/./" <= input);
    MoveSlash(out);
    assert RemoveDots(input, out) == RemoveDots("/", out);
  }

  lemma LoneDots(input: string, out: string)
    requires input == "/.."
    ensures RemoveDots(input, out) == DropSegment(out) + "/"
  {
    Unlike(input, "../", 0);
    Unlike(input, "./", 0);
    Unlike(input, "/./", 2);
    assert !("../" <= input) && !("./" <= input) && !("/./" <= input) && !("/../" <= input);
    assert input != "/.";
    MoveSlash(DropSegment(out));
    assert RemoveDots(input, out) == RemoveDots("/", DropSegment(out));
  }

  lemma DotStart(input: string, rest: string)
    requires input == "/." + rest && rest != "" && rest[0] == '/'
    ensures !("../" <= input) && !("./" <= input) && "/./" <= input && input[2..] == rest
  {
    assert input[0] == '/' && input[1] == '.' && input[2] == '/';
  }

  lemma DotsStart(input: string, rest: string)
    requires input == "/.." + rest && rest != "" && rest[0] == '/'
    ensures !("../" <= input) && !("./" <= input) && !("/./" <= input) && "/../" <= input && input[3..] == rest
  {
    assert input[0] == '/' && input[1] == '.' && input[2] == '.' && input[3] == '/';
    Starts(input, "/./");
  }

  lemma StepB(input: string, out: string)
    requires !("../" <= input) && !("./" <= input) && "/./" <= input
    ensures RemoveDots(input, out) == RemoveDots(input[2..], out)
  {
  }

  lemma StepC(input: string, out: string)
    requires !("../" <= input) && !("./" <= input) && !("/./" <= input) && "/../" <= input
    ensures RemoveDots(input, out) == RemoveDots(input[3..], DropSegment(out))
  {
  }

  /** A single dot goes away ... */
  lemma SkipDot(rest: string, out: string)
    requires rest == "" || rest[0] == '/'
    ensures RemoveDots("/." + rest, out) == if rest == "" then out + "/" else RemoveDots(rest, out)
  {
    if rest == "" {
      LoneDot("/." + rest, out);
    } else {
      DotStart("/." + rest, rest);
      StepB("/." + rest, out);
    }
  }

  /** ... and two dots take the last segment of the output along. */
  lemma SkipDots(rest: string, out: string)
    requires rest == "" || rest[0] == '/'
    ensures RemoveDots("/.." + rest, out)
            == if rest == "" then DropSegment(out) + "/" else RemoveDots(rest, DropSegment(out))
  {
    if rest == "" {
      LoneDots("/.." + rest, out);
    } else {
      DotsStart("/.." + rest, rest);
      StepC("/.." + rest, out);
    }
  }

  /** The routine on a rooted path is the fold over its segments. */
  lemma {:induction false} RemoveDotsFolds(segs: seq<string>, kept: seq<string>)
    requires segs != [] && NoSlash(segs) && NoSlash(kept)
    ensures RemoveDots(Slashed(segs), Slashed(kept)) == Slashed(RfcFrom(kept, segs))
    decreases |segs|
  {
    var seg, rest := segs[0], Slashed(segs[1..]);
    SlashedStart(segs[1..]);
    FirstStep(seg, rest, kept);
    if |segs| > 1 {
      assert NoSlash(segs[1..]) && NoSlash(RfcPush(kept, seg));
      RemoveDotsFolds(segs[1..], RfcPush(kept, seg));
    }
  }

  lemma SlashedStart(segs: seq<string>)
    ensures if segs == [] then Slashed(segs) == "" else Slashed(segs) != "" && Slashed(segs)[0] == '/'
  {
  }

  /** What one segment does, with others behind it or as the last. */
  lemma FirstStep(seg: string, rest: string, kept: seq<string>)
    requires '/' !in seg && NoSlash(kept) && (rest == "" || rest[0] == '/')
    ensures RemoveDots("/" + seg + rest, Slashed(kept))
            == if rest == "" then Slashed(RfcLast(kept, seg)) else RemoveDots(rest, Slashed(RfcPush(kept, seg)))
  {
    var out := Slashed(kept);
    if seg == "." {
      assert "/" + seg + rest == "/." + rest;
      SkipDot(rest, out);
      SlashedEmpty(kept);
    } else if seg == ".." {
      assert "/" + seg + rest == "/.." + rest;
      SkipDots(rest, out);
      DropSlashed(kept);
      SlashedEmpty(Drop(kept));
    } else {
      MoveSegment(seg, rest, out);
      SlashedSnoc(kept, seg);
      Assoc(out, "/", seg);
      assert out + ("/" + seg) == Slashed(kept + [seg]);
      assert RemoveDots("", Slashed(kept + [seg])) == Slashed(kept + [seg]);
    }
  }

  lemma SlashedEmpty(kept: seq<string>)
    ensures Slashed(kept + [""]) == Slashed(kept) + "/"
  {
    SlashedSnoc(kept, "");
  }

  // ---- beside the code ----

  /** The segments without the empty ones before the last. */
  function Filled(segs: seq<string>): seq<string>
    requires segs != []
    ensures Filled(segs) != []
  {
    if |segs| == 1 then segs
    else if segs[0] == "" then Filled(segs[1..]) else [segs[0]] + Filled(segs[1..])
  }

  function KeepFrom(kept: seq<string>, segs: seq<string>): seq<string>
    decreases |segs|
  {
    if segs == [] then kept else KeepFrom(Push(kept, segs[0]), segs[1..])
  }

  lemma {:induction false} KeepIsFrom(a: seq<string>, b: seq<string>)
    ensures Keep(a + b) == KeepFrom(Keep(a), b)
    decreases |b|
  {
    if b == [] {
      assert a + b == a;
    } else {
      assert a + b == (a + [b[0]]) + b[1..];
      KeepSnoc(a, b[0]);
      KeepIsFrom(a + [b[0]], b[1..]);
    }
  }

  lemma {:induction false} FilledFolds(segs: seq<string>, kept: seq<string>)
    requires segs != []
    ensures var n := |segs| - 1;
            RfcFrom(kept, Filled(segs)) == RfcLast(KeepFrom(kept, segs[..n]), segs[n])
    decreases |segs|
  {
    if |segs| > 1 {
      var rest := segs[1..];
      FilledFolds(rest, Push(kept, segs[0]));
      assert segs[..|segs| - 1][1..] == rest[..|rest| - 1];
      if segs[0] != "" {
        assert ([segs[0]] + Filled(rest))[1..] == Filled(rest);
      }
    }
  }

  lemma {:induction false} FilledNoSlash(segs: seq<string>)
    requires segs != [] && NoSlash(segs)
    ensures NoSlash(Filled(segs))
    decreases |segs|
  {
    if |segs| > 1 {
      FilledNoSlash(segs[1..]);
    }
  }

  lemma {:induction false} SlashedJoin(e: seq<string>)
    requires e != []
    ensures Slashed(e) == "/" + Join(e)
    decreases |e|
  {
    if |e| > 1 {
      SlashedJoin(e[1..]);
      SlashedMore(e[0], Join(e[1..]));
    } else {
      assert e[1..] == [];
      assert "/" + e[0] + "" == "/" + e[0];
    }
  }

  lemma SlashedMore(a: string, rest: string)
    ensures "/" + a + ("/" + rest) == "/" + (a + "/" + rest)
  {
  }

  /** The segments of a path join to it. */
  lemma {:induction false} JoinSegments(t: string)
    ensures Join(Segments(t)) == t
    decreases |t|
  {
    var p := Find(t);
    if p < |t| {
      JoinSegments(t[p + 1..]);
      JoinMore(t[..p], Segments(t[p + 1..]));
      CutAtSlash(t, p);
    }
  }

  lemma CutAtSlash(t: string, p: nat)
    requires p < |t| && t[p] == '/'
    ensures t[..p] + "/" + t[p + 1..] == t
  {
  }

  lemma JoinMore(a: string, e: seq<string>)
    requires e != []
    ensures Join([a] + e) == a + "/" + Join(e)
  {
    assert ([a] + e)[1..] == e;
  }

  predicate Rooted(s: string) { s != "" && s[0] == '/' }

  lemma SlashedBody(s: string)
    requires Rooted(s)
    ensures Slashed(Body(s)) == s
  {
    SlashedJoin(Body(s));
    JoinSegments(s[1..]);
    assert s == "/" + s[1..];
  }

  /** A rooted path is normalised by its own segments. */
  lemma NormalBody(s: string)
    requires Rooted(s)
    ensures Normal(Segments(s)) == Normal(Body(s))
  {
    var segs := Body(s);
    var n := |segs| - 1;
    SegmentsOfRooted(s);
    assert ([""] + segs)[..n + 1] == [""] + segs[..n];
    KeepSkips(segs[..n]);
  }

  /** A path that ends in two dots and is more than a slash when normalised. */
  predicate LosesSlash(s: string) {
    var segs := Body(s);
    segs[|segs| - 1] == ".." && Normal(segs) != []
  }

  lemma LastSlashed(segs: seq<string>)
    requires segs != []
    ensures var n := |segs| - 1;
            var rfc, code := RfcLast(Keep(segs[..n]), segs[n]), Normal(segs);
            Slashed(rfc) == "/" + Join(code) + if segs[n] == ".." && code != [] then "/" else ""
  {
    var n := |segs| - 1;
    var rfc, code := RfcLast(Keep(segs[..n]), segs[n]), Normal(segs);
    SlashedJoin(rfc);
    if segs[n] == ".." {
      SlashedSnoc(code, "");
      if code != [] {
        SlashedJoin(code);
      }
    } else {
      assert rfc == code;
    }
  }

  /** A normalised path is what the standard makes of the path without its empty
      inner segments, except that a final ".." leaves no slash behind. */
  lemma NormalIsRfc(s: string)
    requires Rooted(s)
    ensures RemoveDots(Slashed(Filled(Body(s))), "") == Normalize(s) + if LosesSlash(s) then "/" else ""
  {
    SegmentsNoSlash(s[1..]);
    FilledIsNormal(Body(s));
    NormalBody(s);
    assert "/" + Join(Normal(Body(s))) == Normalize(s);
  }

  lemma FilledIsNormal(segs: seq<string>)
    requires segs != [] && NoSlash(segs)
    ensures RemoveDots(Slashed(Filled(segs)), "")
            == "/" + Join(Normal(segs)) + if segs[|segs| - 1] == ".." && Normal(segs) != [] then "/" else ""
  {
    var n := |segs| - 1;
    FilledNoSlash(segs);
    RemoveDotsFolds(Filled(segs), []);
    FilledFolds(segs, []);
    KeepIsFrom([], segs[..n]);
    assert [] + segs[..n] == segs[..n];
    LastSlashed(segs);
  }

  predicate InnerFull(segs: seq<string>) { forall i | 0 <= i < |segs| - 1 :: segs[i] != "" }

  lemma {:induction false} FilledSame(segs: seq<string>)
    requires segs != [] && InnerFull(segs)
    ensures Filled(segs) == segs
    decreases |segs|
  {
    if |segs| > 1 {
      FilledSame(segs[1..]);
    }
  }

  /** A rooted path without empty inner segments is normalised as the standard
      asks if and only if it is not one that loses its slash. */
  lemma AgreesWithRfc(s: string)
    requires Rooted(s) && InnerFull(Body(s))
    ensures Normalize(s) == RemoveDots(s, "") <==> !LosesSlash(s)
  {
    FilledSame(Body(s));
    SlashedBody(s);
    NormalIsRfc(s);
    assert Normalize(s) + "" == Normalize(s);
    assert |Normalize(s) + "/"| == |Normalize(s)| + 1;
  }

  // ---- two paths that differ ----

  /** A path that is put together from its segments. */
  lemma PathOf(s: string, segs: seq<string>)
    requires segs != [] && NoSlash(segs) && s == "/" + Join(segs)
    ensures Rooted(s) && Body(s) == segs && Slashed(segs) == s
    ensures RemoveDots(s, "") == Slashed(RfcFrom([], segs)) && Normalize(s) == "/" + Join(Normal(segs))
  {
    BodyOfRooted(s, Join(segs));
    SegmentsJoin(segs);
    SlashedBody(s);
    NormalBody(s);
    RemoveDotsFolds(segs, []);
  }

  lemma JoinThree(a: string, b: string, c: string)
    ensures Join([a, b, c]) == a + "/" + (b + "/" + c)
  {
    assert [a, b, c][1..] == [b, c] && [b, c][1..] == [c];
    assert Join([b, c]) == b + "/" + c;
  }

  lemma FoldThree(a: string, b: string, c: string)
    ensures RfcFrom([], [a, b, c]) == RfcLast(RfcPush(RfcPush([], a), b), c)
  {
    var x := RfcPush([], a);
    assert [a, b, c][1..] == [b, c] && [b, c][1..] == [c];
    assert RfcFrom(x, [b, c]) == RfcFrom(RfcPush(x, b), [c]);
  }

  lemma NormalThree(a: string, b: string, c: string)
    ensures Normal([a, b, c]) == PushLast(Push(Push([], a), b), c)
  {
    assert [a, b, c][..2] == [a] + [b] && [] + [a] == [a];
    KeepSnoc([a], b);
    KeepSnoc([], a);
  }

  /** Behind two segments a final ".." leaves no slash ... */
  lemma SlashLost(a: string, b: string, s: string)
    requires Plain(a) && Plain(b) && s == "/" + (a + "/" + (b + "/" + ".."))
    ensures RemoveDots(s, "") == "/" + a + "/" && Normalize(s) == "/" + a
  {
    var c := "..";
    JoinThree(a, b, c);
    FoldThree(a, b, c);
    NormalThree(a, b, c);
    PathOf(s, [a, b, c]);
    TwoDots(a, b);
    SlashedEmpty([a]);
    SlashedSnoc([], a);
  }

  lemma TwoDots(a: string, b: string)
    requires Plain(a) && Plain(b)
    ensures RfcLast(RfcPush(RfcPush([], a), b), "..") == [a] + [""]
    ensures PushLast(Push(Push([], a), b), "..") == [a]
  {
    assert [] + [a] == [a] && ([a] + [b])[..1] == [a];
  }

  /** ... and an empty segment between two is lost. */
  lemma EmptyLost(a: string, b: string, s: string)
    requires Plain(a) && Plain(b) && s == "/" + (a + "/" + ("" + "/" + b))
    ensures RemoveDots(s, "") == s && Normalize(s) == "/" + (a + "/" + b)
  {
    JoinThree(a, "", b);
    FoldThree(a, "", b);
    NormalThree(a, "", b);
    PathOf(s, [a, "", b]);
    assert [] + [a] + [""] + [b] == [a, "", b];
    JoinMore(a, [b]);
  }
}
