// What http_parser_parse_url returns when its numbers are 16 bits wide: offsets
// and lengths are stored modulo 2^16, the second pass reads the host through its
// stored slice, and the port is read through its own.
module UrlStored {
  import opened Circular
  import opened Seqs
  import opened UrlSplit
  import opened UrlFields
  import opened UrlRefine

  function U16(n: nat): (r: nat)
    ensures r <= n && r <= 0xFFFF
  {
    n % 0x1_0000
  }

  /** What a field of 16-bit numbers holds of a slice. */
  function Stored(s: Slice): Slice { Slice(U16(s.off), U16(s.len)) }

  predicate Narrow(s: Slice) { s.off <= 0xFFFF && s.len <= 0xFFFF }

  function StoredAll(fields: map<Field, Slice>): map<Field, Slice> {
    map f | f in fields :: Stored(fields[f])
  }

  predicate AllNarrow(fields: map<Field, Slice>) { forall f | f in fields :: Narrow(fields[f]) }

  /** Slices are stored as they are exactly when they are narrow. */
  lemma StoredExactly(fields: map<Field, Slice>)
    ensures StoredAll(fields) == fields <==> AllNarrow(fields)
  {
    if StoredAll(fields) == fields {
      forall f | f in fields ensures Narrow(fields[f]) {
        assert Stored(fields[f]) == StoredAll(fields)[f];
      }
    } else {
      assert exists f :: f in fields && Stored(fields[f]) != fields[f];
    }
  }

  lemma StoredBoth(a: map<Field, Slice>, b: map<Field, Slice>)
    ensures StoredAll(a + b) == StoredAll(a) + StoredAll(b)
  {
  }

  // ---- slices stay inside the text ----

  predicate InText(text: seq<Byte>, fields: map<Field, Slice>) {
    forall f | f in fields :: fields[f].off + fields[f].len <= |text|
  }

  lemma RanksInText(text: seq<Byte>, ranks: seq<int>)
    requires |ranks| <= |text|
    ensures InText(text, Fields(ranks)) && InText(text, StoredAll(Fields(ranks)))
  {
    forall f | f in Fields(ranks)
      ensures SliceOf(ranks, f).off + SliceOf(ranks, f).len <= |text|
    {
      CountGrows(ranks, 2 * Place(f) - 1, 2 * Place(f));
    }
  }

  lemma HostInText(text: seq<Byte>, h0: HostState, at: Slice)
    requires at.off + at.len <= |text|
    ensures InText(text, StoredAll(HostFields(HostRanks(h0, SliceText(text, at)), at.off)))
  {
    var host := SliceText(text, at);
    RanksInText(host, HostRanks(h0, host));
  }

  // ---- the result ----

  /** The checks behind both passes, when the second has read the host at `at`. */
  function FinishHost(text: seq<Byte>, isConnect: bool, fields: map<Field, Slice>, h0: HostState, at: Slice)
    : SplitResult
    requires at.off + at.len <= |text| && InText(text, fields)
  {
    HostInText(text, h0, at);
    var host := SliceText(text, at);
    if !HostEnd(HostWalk(h0, host)) then Malformed
    else FinishFields(text, isConnect, fields + StoredAll(HostFields(HostRanks(h0, host), at.off)))
  }

  /** What http_parser_parse_url makes of a text of any length. Whether an at
      sign was seen is known from the whole host, not from its stored slice. */
  function SplitStored(text: seq<Byte>, isConnect: bool): SplitResult {
    var s0 := UrlStart(isConnect);
    if text == [] || UrlWalk(s0, text).UrlDead? then Malformed
    else
      var ranks := UrlRanks(s0, text);
      RanksInText(text, ranks);
      var fields := StoredAll(Fields(ranks));
      if Host !in fields then
        if Schema in fields then Malformed else FinishFields(text, isConnect, fields)
      else
        FinishHost(text, isConnect, fields, HostBegin(SliceText(text, SliceOf(ranks, Host))), fields[Host])
  }

  /** A slice that the second pass or the port is read through is not stored as it is. */
  predicate ReadsElsewhere(text: seq<Byte>, isConnect: bool) {
    var s0 := UrlStart(isConnect);
    var ranks := UrlRanks(s0, text);
    var s := SliceOf(ranks, Host);
    var host := SliceText(text, s);
    && text != [] && !UrlWalk(s0, text).UrlDead? && s.len > 0
    && (!Narrow(s)
        || (HostEnd(HostWalk(HostBegin(host), host))
            && var port := SliceOf(Refine(text, ranks), Port); port.len > 0 && !Narrow(port)))
  }

  /** The result of the splitter in 16-bit numbers. */
  function StoredResult(r: SplitResult): SplitResult {
    if r.Split? then Split(Url(StoredAll(r.url.fields), r.url.port)) else Malformed
  }

  lemma FinishStored(text: seq<Byte>, isConnect: bool, fields: map<Field, Slice>)
    requires InText(text, fields) && InText(text, StoredAll(fields))
    requires Port in fields ==> Narrow(fields[Port])
    ensures FinishFields(text, isConnect, StoredAll(fields)) == StoredResult(FinishFields(text, isConnect, fields))
  {
    assert StoredAll(fields).Keys == fields.Keys;
  }

  /** Unless it reads through a slice that does not fit, the code finds the
      fields of the splitter and stores their numbers modulo 2^16. */
  lemma StoredIsSplit(text: seq<Byte>, isConnect: bool)
    requires !ReadsElsewhere(text, isConnect)
    ensures SplitStored(text, isConnect) == StoredResult(SplitUrl(text, isConnect))
  {
    var s0 := UrlStart(isConnect);
    if text != [] && !UrlWalk(s0, text).UrlDead? {
      var ranks := UrlRanks(s0, text);
      RanksInText(text, ranks);
      RanksInText(text, Refine(text, ranks));
      if SliceOf(ranks, Host).len == 0 {
        PlainFields(s0, text);
        FinishStored(text, isConnect, Fields(ranks));
      } else {
        HostStored(text, isConnect, s0);
      }
    }
  }

  lemma HostStored(text: seq<Byte>, isConnect: bool, s0: UrlState)
    requires s0 == UrlStart(isConnect) && text != [] && !UrlWalk(s0, text).UrlDead?
    requires SliceOf(UrlRanks(s0, text), Host).len > 0 && !ReadsElsewhere(text, isConnect)
    ensures SplitStored(text, isConnect) == StoredResult(SplitUrl(text, isConnect))
  {
    var ranks := UrlRanks(s0, text);
    var s := SliceOf(ranks, Host);
    var h0 := HostBegin(SliceText(text, s));
    RanksInText(text, ranks);
    StoredThrough(text, isConnect, s0, s, h0);
    if HostEnd(HostWalk(h0, SliceText(text, s))) {
      Merged(s0, text);
      RanksInText(text, Refine(text, ranks));
      FieldsAt(Refine(text, ranks), Port);
      FinishMerged(text, isConnect, Fields(ranks), Fields(Refine(text, ranks)), h0, s);
    }
  }

  /** A host whose slice fits is read through its own slice. */
  lemma StoredThrough(text: seq<Byte>, isConnect: bool, s0: UrlState, s: Slice, h0: HostState)
    requires s0 == UrlStart(isConnect) && text != [] && !UrlWalk(s0, text).UrlDead?
    requires s == SliceOf(UrlRanks(s0, text), Host) && s.len > 0 && Narrow(s) && h0 == HostBegin(SliceText(text, s))
    requires InText(text, StoredAll(Fields(UrlRanks(s0, text))))
    ensures SplitStored(text, isConnect) == FinishHost(text, isConnect, StoredAll(Fields(UrlRanks(s0, text))), h0, s)
  {
    var ranks := UrlRanks(s0, text);
    FieldsAt(ranks, Host);
    StoredAt(Fields(ranks), Host, s);
  }

  lemma StoredAt(fields: map<Field, Slice>, f: Field, s: Slice)
    requires f in fields && fields[f] == s && Narrow(s)
    ensures f in StoredAll(fields) && StoredAll(fields)[f] == s
  {
  }

  lemma FinishMerged(
    text: seq<Byte>, isConnect: bool, fields: map<Field, Slice>, fine: map<Field, Slice>, h0: HostState, at: Slice)
    requires at.off + at.len <= |text| && InText(text, fine) && InText(text, StoredAll(fine))
    requires InText(text, StoredAll(fields)) && HostEnd(HostWalk(h0, SliceText(text, at)))
    requires fields + HostFields(HostRanks(h0, SliceText(text, at)), at.off) == fine
    requires Port in fine ==> Narrow(fine[Port])
    ensures FinishHost(text, isConnect, StoredAll(fields), h0, at) == StoredResult(FinishFields(text, isConnect, fine))
  {
    HostInText(text, h0, at);
    StoredBoth(fields, HostFields(HostRanks(h0, SliceText(text, at)), at.off));
    FinishStored(text, isConnect, fine);
  }

  /** ... so that the two agree exactly if all slices fit. */
  lemma StoredAgrees(text: seq<Byte>, isConnect: bool)
    requires !ReadsElsewhere(text, isConnect)
    ensures var r := SplitUrl(text, isConnect);
            SplitStored(text, isConnect) == r <==> (r.Split? ==> AllNarrow(r.url.fields))
  {
    StoredIsSplit(text, isConnect);
    var r := SplitUrl(text, isConnect);
    if r.Split? {
      StoredExactly(r.url.fields);
    }
  }

  /** No text up to 65535 bytes has a slice that does not fit. */
  lemma ShortNeverWraps(text: seq<Byte>, isConnect: bool)
    requires |text| <= 0xFFFF
    ensures SplitStored(text, isConnect) == SplitUrl(text, isConnect)
  {
    ShortReads(text, isConnect);
    StoredAgrees(text, isConnect);
    ShortNarrow(text, isConnect);
  }

  lemma ShortNarrow(text: seq<Byte>, isConnect: bool)
    requires |text| <= 0xFFFF
    ensures var r := SplitUrl(text, isConnect); r.Split? ==> AllNarrow(r.url.fields)
  {
    var ranks := UrlRanks(UrlStart(isConnect), text);
    RanksInText(text, ranks);
    RanksInText(text, Refine(text, ranks));
  }

  lemma ShortReads(text: seq<Byte>, isConnect: bool)
    requires |text| <= 0xFFFF
    ensures !ReadsElsewhere(text, isConnect)
  {
    var ranks := UrlRanks(UrlStart(isConnect), text);
    CountGrows(ranks, 3, 4);
    CountGrows(Refine(text, ranks), 5, 6);
  }

  // ---- a path that does not fit ----

  lemma {:induction false} Stars(n: nat)
    ensures var t := seq(n, _ => STAR as Byte);
            && UrlWalk(BeforeUrl, t) == (if n == 0 then BeforeUrl else InPath)
            && forall i | 0 <= i < n :: UrlRanks(BeforeUrl, t)[i] == 8
  {
    if n > 0 {
      var t := seq(n, _ => STAR as Byte);
      assert t[..n - 1] == seq(n - 1, _ => STAR as Byte);
      Stars(n - 1);
    }
  }

  /** The path of 65537 stars is one field, whose length is stored as 1. */
  lemma LongPathWraps(text: seq<Byte>)
    requires text == seq(0x1_0001, _ => STAR as Byte)
    ensures SplitUrl(text, false) == Split(Url(map[Path := Slice(0, 0x1_0001)], 0))
    ensures SplitStored(text, false) == Split(Url(map[Path := Slice(0, 1)], 0))
  {
    Stars(0x1_0001);
    StarFields(UrlRanks(BeforeUrl, text));
    StoredIsSplit(text, false);
  }

  lemma CountStars(ranks: seq<int>, x: int)
    requires forall i | 0 <= i < |ranks| :: ranks[i] == 8
    ensures Count(ranks, x) == if x < 8 then 0 else |ranks|
  {
    if x < 8 {
      CountNone(ranks, x);
    } else {
      CountAll(ranks, x);
    }
  }

  lemma StarFields(ranks: seq<int>)
    requires ranks != [] && forall i | 0 <= i < |ranks| :: ranks[i] == 8
    ensures Fields(ranks) == map[Path := Slice(0, |ranks|)] && SliceOf(ranks, Host).len == 0
  {
    CountStars(ranks, 7);
    CountStars(ranks, 8);
    forall f: Field ensures SameAt(Fields(ranks), map[Path := Slice(0, |ranks|)], f) {
      CountStars(ranks, 2 * Place(f) - 1);
      CountStars(ranks, 2 * Place(f));
    }
    SameMaps(Fields(ranks), map[Path := Slice(0, |ranks|)]);
    CountStars(ranks, 3);
    CountStars(ranks, 4);
  }
}
