// The two passes over a URL together: what the second pass finds in the host
// takes the place of the server in the ranks of the first.
module UrlRefine {
  import opened Circular
  import opened Seqs
  import opened UrlSplit
  import opened UrlFields

  // ---- one rank more ----

  lemma CountSnoc(ranks: seq<int>, r: int, x: int)
    ensures Count(ranks + [r], x) == Count(ranks, x) + if r <= x then 1 else 0
  {
    assert (ranks + [r])[..|ranks|] == ranks;
  }

  predicate AtMost(ranks: seq<int>, r: int) { forall i | 0 <= i < |ranks| :: ranks[i] <= r }

  /** How a field's slice changes when a character is read. */
  lemma SliceSnoc(ranks: seq<int>, r: int, f: Field)
    requires AtMost(ranks, r)
    ensures var old_, new_ := SliceOf(ranks, f), SliceOf(ranks + [r], f);
            && (r == 2 * Place(f) ==>
                  && new_.len == old_.len + 1
                  && old_.off + old_.len == |ranks|
                  && new_.off == old_.off)
            && (r > 2 * Place(f) ==> new_ == old_)
            && (r < 2 * Place(f) ==> new_.len == 0 && old_.len == 0)
  {
    CountSnoc(ranks, r, 2 * Place(f) - 1);
    CountSnoc(ranks, r, 2 * Place(f));
    if r <= 2 * Place(f) {
      CountAll(ranks, 2 * Place(f));
    }
    if r < 2 * Place(f) {
      CountAll(ranks, 2 * Place(f) - 1);
    }
  }

  function Shift(s: Slice, base: nat): Slice { Slice(base + s.off, s.len) }

  // ---- the host ----

  predicate HostPart(f: Field) { f.Userinfo? || f.Host? || f.Port? }

  lemma HostNext(h0: HostState, text: seq<Byte>, p: nat)
    requires p < |text|
    ensures HostWalk(h0, text[..p + 1]) == HostStep(HostWalk(h0, text[..p]), text[p])
    ensures HostRanks(h0, text[..p + 1]) == HostRanks(h0, text[..p]) + [HostRank(HostWalk(h0, text[..p + 1]))]
    ensures AtMost(HostRanks(h0, text[..p]), HostRank(HostWalk(h0, text[..p + 1])))
  {
    assert text[..p + 1][..p] == text[..p];
    HostRanksSorted(h0, text[..p]);
    HostRankGrows(HostWalk(h0, text[..p]), text[p]);
  }

  /** A host cannot be passed over. */
  lemma {:induction false} HostSeen(h0: HostState, text: seq<Byte>)
    requires HostRank(h0) <= 3 && HostRank(HostWalk(h0, text)) >= 4 && !HostWalk(h0, text).HostDead?
    ensures SliceOf(HostRanks(h0, text), Host).len > 0
    decreases |text|
  {
    var n := |text| - 1;
    SliceAll(text);
    HostNext(h0, text, n);
    HostLeap(HostWalk(h0, text[..n]), text[n]);
    SliceSnoc(HostRanks(h0, text[..n]), HostRank(HostWalk(h0, text)), Host);
    if HostRank(HostWalk(h0, text[..n])) >= 4 {
      HostSeen(h0, text[..n]);
    }
  }

  lemma EndRank(s: HostState)
    requires HostEnd(s)
    ensures HostRank(s) >= 4 && !s.HostDead?
  {
  }

  /** A well-ended host has a host. */
  lemma HostFound(h0: HostState, text: seq<Byte>)
    requires (h0.UserinfoStart? || h0.HostStart?) && HostEnd(HostWalk(h0, text))
    ensures SliceOf(HostRanks(h0, text), Host).len > 0
  {
    EndRank(HostWalk(h0, text));
    HostSeen(h0, text);
  }

  lemma HostLeap(s: HostState, c: Byte)
    ensures var t := HostStep(s, c);
            !t.HostDead? ==> !s.HostDead? && (HostRank(s) <= 3 && HostRank(t) >= 4 ==> HostRank(t) == 4)
  {
  }

  // ---- ranks cut at the server ----

  lemma {:induction false} CountAppend(a: seq<int>, b: seq<int>, x: int)
    ensures Count(a + b, x) == Count(a, x) + Count(b, x)
    decreases |b|
  {
    if b == [] {
      assert a + b == a;
    } else {
      var n := |b| - 1;
      assert a + b == (a + b[..n]) + [b[n]];
      CountSnoc(a + b[..n], b[n], x);
      CountAppend(a, b[..n], x);
    }
  }

  lemma {:induction false} CountNone(ranks: seq<int>, x: int)
    requires forall i | 0 <= i < |ranks| :: ranks[i] > x
    ensures Count(ranks, x) == 0
    decreases |ranks|
  {
    if ranks != [] {
      CountNone(ranks[..|ranks| - 1], x);
    }
  }

  /** Ranks cut before and after the server. */
  predicate Cut(a: seq<int>, b: seq<int>, c: seq<int>) {
    && (forall i | 0 <= i < |a| :: a[i] <= 1)
    && (forall i | 0 <= i < |b| :: 1 <= b[i] <= 6)
    && (forall i | 0 <= i < |c| :: c[i] >= 8)
  }

  predicate InParts(ranks: seq<int>, s: Slice, i: nat)
    requires i < |ranks|
  {
    if i < s.off then ranks[i] <= 1 else if i < s.off + s.len then ranks[i] == 4 else ranks[i] >= 8
  }

  lemma CutAt(ranks: seq<int>, s: Slice)
    requires s.off + s.len <= |ranks| && forall i: nat | i < |ranks| :: InParts(ranks, s, i)
    ensures var b := ranks[s.off..s.off + s.len];
            Cut(ranks[..s.off], b, ranks[s.off + s.len..])
  {
    var a, b, c := ranks[..s.off], ranks[s.off..s.off + s.len], ranks[s.off + s.len..];
    forall i | 0 <= i < |a| ensures a[i] <= 1 {
      assert InParts(ranks, s, i);
    }
    forall i | 0 <= i < |b| ensures b[i] == 4 {
      assert InParts(ranks, s, s.off + i);
    }
    forall i | 0 <= i < |c| ensures c[i] >= 8 {
      assert InParts(ranks, s, s.off + s.len + i);
    }
  }

  lemma CutServer(s0: UrlState, text: seq<Byte>)
    requires !UrlWalk(s0, text).UrlDead?
    ensures var ranks := UrlRanks(s0, text);
            var s := SliceOf(ranks, Host);
            Cut(ranks[..s.off], ranks[s.off..s.off + s.len], ranks[s.off + s.len..])
  {
    var ranks := UrlRanks(s0, text);
    var s := SliceOf(ranks, Host);
    UrlRanksSorted(s0, text);
    forall i: nat | i < |ranks| ensures InParts(ranks, s, i) {
      SliceExact(ranks, Host, i);
      if !Inside(s, i) {
        OutsideHost(s0, text, i);
      }
    }
    CutAt(ranks, s);
  }

  lemma CountParts(a: seq<int>, b: seq<int>, c: seq<int>, x: int)
    requires Cut(a, b, c)
    ensures x <= 0 ==> Count(a + b + c, x) == Count(a, x)
    ensures 1 <= x <= 6 ==> Count(a + b + c, x) == |a| + Count(b, x)
    ensures x >= 7 ==> Count(a + b + c, x) == |a| + |b| + Count(c, x)
  {
    CountAppend(a + b, c, x);
    CountAppend(a, b, x);
    if x <= 0 {
      CountNone(b, x);
    }
    if x <= 6 {
      CountNone(c, x);
    }
    if x >= 1 {
      CountAll(a, x);
    }
    if x >= 7 {
      CountAll(b, x);
    }
  }

  lemma SliceParts(a: seq<int>, b: seq<int>, inner: seq<int>, c: seq<int>, f: Field)
    requires Cut(a, b, c) && Cut(a, inner, c) && |b| == |inner|
    ensures SliceOf(a + inner + c, f) == if HostPart(f) then Shift(SliceOf(inner, f), |a|) else SliceOf(a + b + c, f)
  {
    CountParts(a, b, c, 2 * Place(f) - 1);
    CountParts(a, b, c, 2 * Place(f));
    CountParts(a, inner, c, 2 * Place(f) - 1);
    CountParts(a, inner, c, 2 * Place(f));
  }

  /** Refining the server's ranks leaves the other fields where they were, and
      puts the host's parts into its place. */
  lemma RefinedSlices(s0: UrlState, text: seq<Byte>, f: Field)
    requires !UrlWalk(s0, text).UrlDead?
    requires var host := SliceText(text, SliceOf(UrlRanks(s0, text), Host)); HostEnd(HostWalk(HostBegin(host), host))
    ensures var ranks := UrlRanks(s0, text);
            var s := SliceOf(ranks, Host);
            var host := SliceText(text, s);
            SliceOf(Refine(text, ranks), f) ==
            if HostPart(f) then Shift(SliceOf(HostRanks(HostBegin(host), host), f), s.off) else SliceOf(ranks, f)
  {
    CutServer(s0, text);
    RefineSlices(text, UrlRanks(s0, text), f);
  }

  lemma RefineSlices(text: seq<Byte>, ranks: seq<int>, f: Field)
    requires |ranks| == |text|
    requires var s := SliceOf(ranks, Host);
             var host := SliceText(text, s);
             && Cut(ranks[..s.off], ranks[s.off..s.off + s.len], ranks[s.off + s.len..])
             && HostEnd(HostWalk(HostBegin(host), host))
    ensures var s := SliceOf(ranks, Host);
            var host := SliceText(text, s);
            SliceOf(Refine(text, ranks), f) ==
            if HostPart(f) then Shift(SliceOf(HostRanks(HostBegin(host), host), f), s.off) else SliceOf(ranks, f)
  {
    var s := SliceOf(ranks, Host);
    var host := SliceText(text, s);
    InnerRange(host);
    SliceReplaced(ranks, s, HostRanks(HostBegin(host), host), f);
  }

  lemma InnerRange(host: seq<Byte>)
    requires HostEnd(HostWalk(HostBegin(host), host))
    ensures forall i | 0 <= i < |host| :: 1 <= HostRanks(HostBegin(host), host)[i] <= 6
  {
    HostRanksSorted(HostBegin(host), host);
  }

  lemma SliceReplaced(ranks: seq<int>, s: Slice, inner: seq<int>, f: Field)
    requires s.off + s.len <= |ranks| && |inner| == s.len
    requires Cut(ranks[..s.off], ranks[s.off..s.off + s.len], ranks[s.off + s.len..])
    requires forall i | 0 <= i < |inner| :: 1 <= inner[i] <= 6
    ensures SliceOf(ranks[..s.off] + inner + ranks[s.off + s.len..], f)
            == if HostPart(f) then Shift(SliceOf(inner, f), s.off) else SliceOf(ranks, f)
  {
    var a, b, c := ranks[..s.off], ranks[s.off..s.off + s.len], ranks[s.off + s.len..];
    assert ranks == a + b + c;
    SliceParts(a, b, inner, c, f);
  }

  // ---- the fields of both passes ----

  ghost predicate SameAt(a: map<Field, Slice>, b: map<Field, Slice>, f: Field) {
    (f in a <==> f in b) && (f in b ==> a[f] == b[f])
  }

  lemma SameMaps(a: map<Field, Slice>, b: map<Field, Slice>)
    requires forall f :: SameAt(a, b, f)
    ensures a == b
  {
    forall f ensures f in a <==> f in b {
      assert SameAt(a, b, f);
    }
    forall f | f in a ensures a[f] == b[f] {
      assert SameAt(a, b, f);
    }
  }

  lemma CountEmpty(s0: UrlState, text: seq<Byte>, f: Field)
    requires !UrlWalk(s0, text).UrlDead? && (f.Userinfo? || f.Port?)
    ensures SliceOf(UrlRanks(s0, text), f).len == 0
  {
    var ranks := UrlRanks(s0, text);
    var s := SliceOf(ranks, f);
    if s.len > 0 {
      UrlRanksSorted(s0, text);
      SliceExact(ranks, f, s.off);
      UrlRanksChar(s0, text, s.off);
    }
  }

  const HOST_FIELDS: set<Field> := {Userinfo, Host, Port}

  /** The parts of a ranked host that starts at `base`. */
  function HostFields(ranks: seq<int>, base: nat): map<Field, Slice> {
    map f | f in HOST_FIELDS && SliceOf(ranks, f).len > 0 :: Shift(SliceOf(ranks, f), base)
  }

  /** The first pass finds neither user info nor a port. */
  lemma PlainFields(s0: UrlState, text: seq<Byte>)
    requires !UrlWalk(s0, text).UrlDead?
    ensures Userinfo !in Fields(UrlRanks(s0, text)) && Port !in Fields(UrlRanks(s0, text))
  {
    CountEmpty(s0, text, Userinfo);
    CountEmpty(s0, text, Port);
  }

  /** The parts of a well-ended host, put over the fields of the first pass, are
      the fields of the refined ranks. */
  lemma Merged(s0: UrlState, text: seq<Byte>)
    requires !UrlWalk(s0, text).UrlDead?
    requires var host := SliceText(text, SliceOf(UrlRanks(s0, text), Host)); HostEnd(HostWalk(HostBegin(host), host))
    ensures var ranks := UrlRanks(s0, text);
            var s := SliceOf(ranks, Host);
            var host := SliceText(text, s);
            Fields(ranks) + HostFields(HostRanks(HostBegin(host), host), s.off) == Fields(Refine(text, ranks))
  {
    var ranks := UrlRanks(s0, text);
    var s := SliceOf(ranks, Host);
    var host := SliceText(text, s);
    PlainFields(s0, text);
    HostFound(HostBegin(host), host);
    RefinedAll(s0, text);
    MergedAll(ranks, Refine(text, ranks), HostRanks(HostBegin(host), host), s.off);
  }

  /** A field of the refined ranks `fine` comes from the pass that it belongs to. */
  predicate FromPass(ranks: seq<int>, fine: seq<int>, inner: seq<int>, base: nat, f: Field) {
    SliceOf(fine, f) == if HostPart(f) then Shift(SliceOf(inner, f), base) else SliceOf(ranks, f)
  }

  lemma RefinedAll(s0: UrlState, text: seq<Byte>)
    requires !UrlWalk(s0, text).UrlDead?
    requires var host := SliceText(text, SliceOf(UrlRanks(s0, text), Host)); HostEnd(HostWalk(HostBegin(host), host))
    ensures var ranks := UrlRanks(s0, text);
            var s := SliceOf(ranks, Host);
            var host := SliceText(text, s);
            forall f: Field :: FromPass(ranks, Refine(text, ranks), HostRanks(HostBegin(host), host), s.off, f)
  {
    var ranks := UrlRanks(s0, text);
    var s := SliceOf(ranks, Host);
    var host := SliceText(text, s);
    forall f: Field ensures FromPass(ranks, Refine(text, ranks), HostRanks(HostBegin(host), host), s.off, f) {
      RefinedSlices(s0, text, f);
    }
  }

  lemma MergedAll(ranks: seq<int>, fine: seq<int>, inner: seq<int>, base: nat)
    requires Userinfo !in Fields(ranks) && Port !in Fields(ranks) && SliceOf(inner, Host).len > 0
    requires forall f: Field :: FromPass(ranks, fine, inner, base, f)
    ensures Fields(ranks) + HostFields(inner, base) == Fields(fine)
  {
    forall f: Field ensures SameAt(Fields(ranks) + HostFields(inner, base), Fields(fine), f) {
      assert FromPass(ranks, fine, inner, base, f);
      MergedAt(ranks, fine, inner, base, f);
    }
    SameMaps(Fields(ranks) + HostFields(inner, base), Fields(fine));
  }

  lemma MergedAt(ranks: seq<int>, fine: seq<int>, inner: seq<int>, base: nat, f: Field)
    requires Userinfo !in Fields(ranks) && Port !in Fields(ranks) && SliceOf(inner, Host).len > 0
    requires FromPass(ranks, fine, inner, base, f)
    ensures SameAt(Fields(ranks) + HostFields(inner, base), Fields(fine), f)
  {
    FieldsAt(fine, f);
    FieldsAt(ranks, f);
    HostFieldsAt(inner, base, f);
    HostFieldsAt(inner, base, Host);
  }

  lemma FieldsAt(ranks: seq<int>, f: Field)
    ensures var s := SliceOf(ranks, f);
            if s.len > 0 then f in Fields(ranks) && Fields(ranks)[f] == s else f !in Fields(ranks)
  {
  }

  lemma HostFieldsAt(ranks: seq<int>, base: nat, f: Field)
    ensures var s, parts := SliceOf(ranks, f), HostFields(ranks, base);
            if HostPart(f) && s.len > 0 then f in parts && parts[f] == Shift(s, base) else f !in parts
  {
  }

  /** A schema, user info or a port never stands without a host. */
  lemma NeedsHost(text: seq<Byte>, isConnect: bool)
    ensures var r := SplitUrl(text, isConnect);
            r.Split? && Host !in r.url.fields ==>
              Schema !in r.url.fields && Userinfo !in r.url.fields && Port !in r.url.fields
  {
    var s0 := UrlStart(isConnect);
    var ranks := UrlRanks(s0, text);
    var s := SliceOf(ranks, Host);
    if SplitUrl(text, isConnect).Split? {
      if s.len == 0 {
        CountEmpty(s0, text, Userinfo);
        CountEmpty(s0, text, Port);
      } else {
        HostKept(s0, text);
      }
    }
  }

  lemma HostKept(s0: UrlState, text: seq<Byte>)
    requires !UrlWalk(s0, text).UrlDead?
    requires var host := SliceText(text, SliceOf(UrlRanks(s0, text), Host)); HostEnd(HostWalk(HostBegin(host), host))
    ensures Host in Fields(Refine(text, UrlRanks(s0, text)))
  {
    var host := SliceText(text, SliceOf(UrlRanks(s0, text), Host));
    RefinedSlices(s0, text, Host);
    HostFound(HostBegin(host), host);
  }
}
