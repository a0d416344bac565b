// What a split URL is like: nonempty fields inside the text, in the order of a
// URL, with nothing but delimiters between them.
module UrlFields {
  import opened Circular
  import opened HttpDigits
  import opened UrlSplit

  /** The characters that may have a rank. */
  predicate RankChar(rank: int, c: Byte) {
    match rank
    case 0 => IsAlpha(c)
    case 1 => c == COLON || c == SLASH
    case 2 => IsUserinfoChar(c)
    case 3 => c == AT || c == OPEN
    case 4 => IsHostChar(c) || IsZoneChar(c) || c == COLON
    case 5 => c == COLON || c == CLOSE
    case 6 => IsNumber(c)
    case 8 => IsUrlChar(c)
    case 9 => c == QUESTION
    case 10 => IsUrlChar(c) || c == QUESTION
    case 11 => c == HASH
    case 12 => IsUrlChar(c) || c == QUESTION || c == HASH
    case _ => false
  }

  predicate Delimiter(c: Byte) {
    c == COLON || c == SLASH || c == AT || c == OPEN || c == CLOSE || c == QUESTION || c == HASH
  }

  predicate Sorted(ranks: seq<int>) {
    forall i, j | 0 <= i <= j < |ranks| :: ranks[i] <= ranks[j]
  }

  // ---- counting in sorted ranks ----

  /** In sorted ranks the first ones are the small ones. */
  lemma {:induction false} CountCuts(ranks: seq<int>, x: int, k: nat)
    requires Sorted(ranks) && k < |ranks|
    ensures k < Count(ranks, x) <==> ranks[k] <= x
    decreases |ranks|
  {
    var n := |ranks| - 1;
    if k < n {
      CountCuts(ranks[..n], x, k);
      if ranks[n] <= x {
        CountAll(ranks[..n], x);
      }
    } else if ranks[n] <= x {
      CountAll(ranks[..n], x);
    }
  }

  lemma {:induction false} CountAll(ranks: seq<int>, x: int)
    requires forall i | 0 <= i < |ranks| :: ranks[i] <= x
    ensures Count(ranks, x) == |ranks|
    decreases |ranks|
  {
    if ranks != [] {
      CountAll(ranks[..|ranks| - 1], x);
    }
  }

  predicate Inside(s: Slice, k: int) { s.off <= k < s.off + s.len }

  /** A field's slice is exactly the characters with the field's rank. */
  lemma SliceExact(ranks: seq<int>, f: Field, k: nat)
    requires Sorted(ranks) && k < |ranks|
    ensures Inside(SliceOf(ranks, f), k) <==> ranks[k] == 2 * Place(f)
  {
    CountCuts(ranks, 2 * Place(f) - 1, k);
    CountCuts(ranks, 2 * Place(f), k);
  }

  lemma SlicesOrdered(ranks: seq<int>, f: Field, g: Field)
    requires Place(f) < Place(g)
    ensures SliceOf(ranks, f).off + SliceOf(ranks, f).len <= SliceOf(ranks, g).off
  {
    CountGrows(ranks, 2 * Place(f), 2 * Place(g) - 1);
  }

  // ---- the ranks of walks ----

  lemma {:induction false} UrlRanksAt(s: UrlState, text: seq<Byte>, i: nat)
    requires i < |text|
    ensures UrlRanks(s, text)[i] == UrlRank(UrlWalk(s, text[..i + 1]))
    decreases |text|
  {
    var n := |text| - 1;
    if i < n {
      UrlRanksAt(s, text[..n], i);
      assert text[..n][..i + 1] == text[..i + 1];
    } else {
      assert text[..i + 1] == text;
    }
  }

  lemma {:induction false} UrlWalkGrows(s: UrlState, text: seq<Byte>, i: nat, j: nat)
    requires i <= j <= |text|
    ensures UrlRank(UrlWalk(s, text[..i])) <= UrlRank(UrlWalk(s, text[..j]))
    decreases j
  {
    if i < j {
      UrlWalkGrows(s, text, i, j - 1);
      assert text[..j][..j - 1] == text[..j - 1];
      UrlRankGrows(UrlWalk(s, text[..j - 1]), text[j - 1]);
    }
  }

  lemma UrlRanksOrdered(s: UrlState, text: seq<Byte>, i: nat, j: nat)
    requires i <= j < |text|
    ensures UrlRanks(s, text)[i] <= UrlRanks(s, text)[j] <= UrlRank(UrlWalk(s, text))
  {
    UrlRanksAt(s, text, i);
    UrlRanksAt(s, text, j);
    UrlWalkGrows(s, text, i + 1, j + 1);
    UrlWalkGrows(s, text, j + 1, |text|);
    assert text[..|text|] == text;
  }

  lemma UrlRanksSorted(s: UrlState, text: seq<Byte>)
    ensures Sorted(UrlRanks(s, text))
    ensures forall i | 0 <= i < |text| :: UrlRanks(s, text)[i] <= UrlRank(UrlWalk(s, text))
  {
    var r := UrlRanks(s, text);
    forall i, j | 0 <= i <= j < |r| ensures r[i] <= r[j] {
      UrlRanksOrdered(s, text, i, j);
    }
    forall i | 0 <= i < |text| ensures r[i] <= UrlRank(UrlWalk(s, text)) {
      UrlRanksOrdered(s, text, i, i);
    }
  }

  lemma {:induction false} HostRanksAt(s: HostState, text: seq<Byte>, i: nat)
    requires i < |text|
    ensures HostRanks(s, text)[i] == HostRank(HostWalk(s, text[..i + 1]))
    decreases |text|
  {
    var n := |text| - 1;
    if i < n {
      HostRanksAt(s, text[..n], i);
      assert text[..n][..i + 1] == text[..i + 1];
    } else {
      assert text[..i + 1] == text;
    }
  }

  lemma {:induction false} HostWalkGrows(s: HostState, text: seq<Byte>, i: nat, j: nat)
    requires i <= j <= |text|
    ensures HostRank(HostWalk(s, text[..i])) <= HostRank(HostWalk(s, text[..j]))
    decreases j
  {
    if i < j {
      HostWalkGrows(s, text, i, j - 1);
      assert text[..j][..j - 1] == text[..j - 1];
      HostRankGrows(HostWalk(s, text[..j - 1]), text[j - 1]);
    }
  }

  lemma HostRanksOrdered(s: HostState, text: seq<Byte>, i: nat, j: nat)
    requires i <= j < |text|
    ensures HostRanks(s, text)[i] <= HostRanks(s, text)[j]
  {
    HostRanksAt(s, text, i);
    HostRanksAt(s, text, j);
    HostWalkGrows(s, text, i + 1, j + 1);
  }

  lemma HostRanksBounded(s: HostState, text: seq<Byte>, i: nat)
    requires i < |text|
    ensures HostRank(s) <= HostRanks(s, text)[i] <= HostRank(HostWalk(s, text))
  {
    HostRanksAt(s, text, i);
    HostWalkGrows(s, text, i + 1, |text|);
    HostWalkGrows(s, text, 0, i + 1);
    assert text[..|text|] == text && text[..0] == [];
  }

  lemma HostRanksSorted(s: HostState, text: seq<Byte>)
    ensures Sorted(HostRanks(s, text))
    ensures forall i | 0 <= i < |text| ::
              HostRank(s) <= HostRanks(s, text)[i] <= HostRank(HostWalk(s, text))
  {
    var r := HostRanks(s, text);
    forall i, j | 0 <= i <= j < |r| ensures r[i] <= r[j] {
      HostRanksOrdered(s, text, i, j);
    }
    forall i | 0 <= i < |text| ensures HostRank(s) <= r[i] <= HostRank(HostWalk(s, text)) {
      HostRanksBounded(s, text, i);
    }
  }

  // ---- characters and their ranks ----

  lemma UrlStepChar(s: UrlState, c: Byte)
    requires var t := UrlStep(s, c); !t.UrlDead?
    ensures var r := UrlRank(UrlStep(s, c)); r == 4 || (r != 2 && r != 3 && r != 5 && r != 6 && RankChar(r, c))
  {
  }

  lemma HostStepChar(s: HostState, c: Byte)
    requires var t := HostStep(s, c); !t.HostDead?
    ensures var r := HostRank(HostStep(s, c)); RankChar(r, c)
  {
  }

  lemma UrlRanksChar(s: UrlState, text: seq<Byte>, i: nat)
    requires i < |text| && !UrlWalk(s, text).UrlDead?
    ensures var r := UrlRanks(s, text)[i];
            r == 4 || (r != 2 && r != 3 && r != 5 && r != 6 && RankChar(r, text[i]))
  {
    UrlRanksSorted(s, text);
    UrlRanksAt(s, text, i);
    assert text[..i + 1][..i] == text[..i];
    UrlStepChar(UrlWalk(s, text[..i]), text[i]);
  }

  lemma HostRanksChar(s: HostState, text: seq<Byte>, i: nat)
    requires i < |text| && !HostWalk(s, text).HostDead?
    ensures RankChar(HostRanks(s, text)[i], text[i])
  {
    HostRanksSorted(s, text);
    HostRanksAt(s, text, i);
    assert text[..i + 1][..i] == text[..i];
    HostStepChar(HostWalk(s, text[..i]), text[i]);
  }

  /** Sorted ranks that suit their characters. */
  ghost predicate Ranked(text: seq<Byte>, ranks: seq<int>) {
    |ranks| == |text| && Sorted(ranks) && forall i | 0 <= i < |text| :: RankChar(ranks[i], text[i])
  }

  /** A text without a server has ranks that suit it. */
  lemma PlainRanked(s: UrlState, text: seq<Byte>)
    requires !UrlWalk(s, text).UrlDead? && SliceOf(UrlRanks(s, text), Host).len == 0
    ensures Ranked(text, UrlRanks(s, text))
  {
    var ranks := UrlRanks(s, text);
    UrlRanksSorted(s, text);
    forall i | 0 <= i < |text| ensures RankChar(ranks[i], text[i]) {
      UrlRanksChar(s, text, i);
      SliceExact(ranks, Host, i);
    }
  }

  /** Where the refined ranks come from. */
  lemma RefineAt(text: seq<Byte>, ranks: seq<int>, i: nat)
    requires |ranks| == |text| && i < |text|
    ensures var s := SliceOf(ranks, Host);
            var host := SliceText(text, s);
            Refine(text, ranks)[i] ==
            if Inside(s, i) then HostRanks(HostBegin(host), host)[i - s.off] else ranks[i]
    ensures var s := SliceOf(ranks, Host); Inside(s, i) ==> SliceText(text, s)[i - s.off] == text[i]
  {
  }

  lemma OutsideHost(s: UrlState, text: seq<Byte>, i: nat)
    requires !UrlWalk(s, text).UrlDead? && i < |text|
    requires !Inside(SliceOf(UrlRanks(s, text), Host), i)
    ensures var ranks := UrlRanks(s, text);
            && RankChar(ranks[i], text[i])
            && (if i < SliceOf(ranks, Host).off then ranks[i] <= 1 else ranks[i] >= 8)
  {
    var ranks := UrlRanks(s, text);
    UrlRanksSorted(s, text);
    UrlRanksChar(s, text, i);
    SliceExact(ranks, Host, i);
    CountCuts(ranks, 3, i);
  }

  /** A character of the host has one of the host's ranks. */
  lemma InsideHost(host: seq<Byte>, k: nat)
    requires k < |host| && HostEnd(HostWalk(HostBegin(host), host))
    ensures var r := HostRanks(HostBegin(host), host)[k]; RankChar(r, host[k]) && 1 <= r <= 6
  {
    HostRanksSorted(HostBegin(host), host);
    HostRanksChar(HostBegin(host), host, k);
  }

  lemma RefinedRank(s: UrlState, text: seq<Byte>, i: nat)
    requires !UrlWalk(s, text).UrlDead? && i < |text|
    requires var host := SliceText(text, SliceOf(UrlRanks(s, text), Host)); HostEnd(HostWalk(HostBegin(host), host))
    ensures var ranks := UrlRanks(s, text);
            var slice := SliceOf(ranks, Host);
            var r := Refine(text, ranks)[i];
            && RankChar(r, text[i])
            && (i < slice.off ==> r == ranks[i] <= 1)
            && (Inside(slice, i) ==> 1 <= r <= 6)
            && (slice.off + slice.len <= i ==> r == ranks[i] >= 8)
  {
    var ranks := UrlRanks(s, text);
    var slice := SliceOf(ranks, Host);
    RefineAt(text, ranks, i);
    if Inside(slice, i) {
      var host := SliceText(text, slice);
      InsideHost(host, i - slice.off);
    } else {
      OutsideHost(s, text, i);
    }
  }

  lemma RefinedSorted(s: UrlState, text: seq<Byte>, i: nat, j: nat)
    requires !UrlWalk(s, text).UrlDead? && i <= j < |text|
    requires var host := SliceText(text, SliceOf(UrlRanks(s, text), Host)); HostEnd(HostWalk(HostBegin(host), host))
    ensures var r := Refine(text, UrlRanks(s, text)); r[i] <= r[j]
  {
    var ranks := UrlRanks(s, text);
    var slice := SliceOf(ranks, Host);
    var host := SliceText(text, slice);
    UrlRanksSorted(s, text);
    RefinedRank(s, text, i);
    RefinedRank(s, text, j);
    RefineAt(text, ranks, i);
    RefineAt(text, ranks, j);
    HostRanksSorted(HostBegin(host), host);
  }

  /** A text with a server whose host is well formed. */
  lemma RefinedRanked(s: UrlState, text: seq<Byte>)
    requires !UrlWalk(s, text).UrlDead?
    requires var host := SliceText(text, SliceOf(UrlRanks(s, text), Host)); HostEnd(HostWalk(HostBegin(host), host))
    ensures Ranked(text, Refine(text, UrlRanks(s, text)))
  {
    var r := Refine(text, UrlRanks(s, text));
    forall i, j | 0 <= i <= j < |r| ensures r[i] <= r[j] {
      RefinedSorted(s, text, i, j);
    }
    forall i | 0 <= i < |text| ensures RankChar(r[i], text[i]) {
      RefinedRank(s, text, i);
    }
  }

  // ---- the theorem ----

  ghost predicate Digits(text: seq<Byte>) { forall i | 0 <= i < |text| :: IsNumber(text[i]) }

  ghost predicate WellSplit(text: seq<Byte>, url: Url) {
    && (forall f | f in url.fields :: url.fields[f].len > 0 && url.fields[f].off + url.fields[f].len <= |text|)
    && (forall f, g | f in url.fields && g in url.fields && Place(f) < Place(g) ::
          url.fields[f].off + url.fields[f].len <= url.fields[g].off)
    && (forall f, k: nat | f in url.fields && k < |text| && Inside(url.fields[f], k) ::
          RankChar(2 * Place(f), text[k]))
    && (forall k: nat | k < |text| :: (exists f :: f in url.fields && Inside(url.fields[f], k)) || Delimiter(text[k]))
    && (Port !in url.fields ==> url.port == 0)
    && (Port in url.fields ==>
          var digits := SliceText(text, url.fields[Port]);
          Digits(digits) && url.port == Value(10, Decimals(digits)) <= 0xFFFF)
  }

  lemma {:induction false} PortIsValue(text: seq<Byte>)
    requires Digits(text)
    ensures PortValue(text) == Value(10, Decimals(text)) >= 0
    decreases |text|
  {
    if text != [] {
      var n := |text| - 1;
      PortIsValue(text[..n]);
      assert Decimals(text)[..n] == Decimals(text[..n]);
    }
  }

  lemma CoveredByFields(text: seq<Byte>, ranks: seq<int>, k: nat)
    requires Ranked(text, ranks) && k < |text|
    ensures (exists f :: f in Fields(ranks) && Inside(Fields(ranks)[f], k)) || Delimiter(text[k])
  {
    if f: Field :| 2 * Place(f) == ranks[k] {
      SliceExact(ranks, f, k);
      assert f in Fields(ranks) && Inside(Fields(ranks)[f], k);
    } else {
      assert RankChar(ranks[k], text[k]);
      var fs := [Schema, Userinfo, Host, Port, Path, Query, Fragment];
      assert forall i | 0 <= i < 7 :: 2 * Place(fs[i]) == 2 * i;
      assert ranks[k] != 2 * Place(Schema) && ranks[k] != 2 * Place(Userinfo) && ranks[k] != 2 * Place(Host)
          && ranks[k] != 2 * Place(Port) && ranks[k] != 2 * Place(Path) && ranks[k] != 2 * Place(Query)
          && ranks[k] != 2 * Place(Fragment);
    }
  }

  lemma RankedIsWell(text: seq<Byte>, isConnect: bool, ranks: seq<int>)
    requires Ranked(text, ranks)
    ensures var r := Finish(text, isConnect, ranks); r.Split? ==> WellSplit(text, r.url)
  {
    var fields := Fields(ranks);
    forall f, g | f in fields && g in fields && Place(f) < Place(g)
      ensures fields[f].off + fields[f].len <= fields[g].off
    {
      SlicesOrdered(ranks, f, g);
    }
    forall f, k: nat | f in fields && k < |text| && Inside(fields[f], k)
      ensures ranks[k] == 2 * Place(f) && RankChar(2 * Place(f), text[k])
    {
      SliceExact(ranks, f, k);
    }
    forall k: nat | k < |text|
      ensures (exists f :: f in fields && Inside(fields[f], k)) || Delimiter(text[k])
    {
      CoveredByFields(text, ranks, k);
    }
    if Port in fields {
      PortDigits(text, ranks);
    }
  }

  lemma PortDigits(text: seq<Byte>, ranks: seq<int>)
    requires Ranked(text, ranks) && Port in Fields(ranks)
    ensures var digits := SliceText(text, Fields(ranks)[Port]);
            Digits(digits) && PortValue(digits) == Value(10, Decimals(digits)) >= 0
  {
    var s := Fields(ranks)[Port];
    var digits := SliceText(text, s);
    forall i | 0 <= i < |digits| ensures IsNumber(digits[i]) {
      SliceExact(ranks, Port, s.off + i);
      assert RankChar(ranks[s.off + i], text[s.off + i]);
    }
    PortIsValue(digits);
  }

  /** Whatever the splitter accepts is well split. */
  lemma SplitIsWell(text: seq<Byte>, isConnect: bool)
    ensures var r := SplitUrl(text, isConnect); r.Split? ==> WellSplit(text, r.url)
  {
    if SplitUrl(text, isConnect).Split? {
      var s := UrlStart(isConnect);
      var ranks := UrlRanks(s, text);
      if SliceOf(ranks, Host).len == 0 {
        PlainRanked(s, text);
        RankedIsWell(text, isConnect, ranks);
      } else {
        RefinedRanked(s, text);
        RankedIsWell(text, isConnect, Refine(text, ranks));
      }
    }
  }
}
