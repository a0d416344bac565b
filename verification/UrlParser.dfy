// The loops of http_parse_host and http_parser_parse_url in
// include/http/http_parser.hpp, on slices of 16-bit numbers. Beside each stored
// slice the proof keeps the slice in full.
module UrlParser {
  import opened Circular
  import opened Seqs
  import opened UrlSplit
  import opened UrlFields
  import opened UrlRefine
  import opened UrlStored
  import UrlGrammar

  // ---- one rank more ----

  /** A recorded slice is the field's. A field that has no character is not
      recorded, unless it is `held` with an empty slice. */
  ghost predicate Tracks(fields: map<Field, Slice>, base: nat, ranks: seq<int>, f: Field, held: bool) {
    var s := SliceOf(ranks, f);
    if s.len > 0 then f in fields && fields[f] == Shift(s, base)
    else f !in fields || (held && fields[f].len == 0)
  }

  /** A character of field `g` is recorded: its run grows, or starts here. */
  lemma TracksNext(fields: map<Field, Slice>, base: nat, ranks: seq<int>, g: Field, f: Field, held: bool, next: Slice)
    requires Tracks(fields, base, ranks, f, held) && AtMost(ranks, 2 * Place(g))
    requires SliceOf(ranks, g).len > 0 ==> g in fields && next == Slice(fields[g].off, fields[g].len + 1)
    requires SliceOf(ranks, g).len == 0 ==> next == Slice(base + |ranks|, 1)
    ensures Tracks(fields[g := next], base, ranks + [2 * Place(g)], f, held)
  {
    if f == g {
      TracksGrow(fields, base, ranks, g, held, next);
    } else {
      TracksStays(fields, base, ranks, g, f, held, next);
    }
  }

  lemma TracksGrow(fields: map<Field, Slice>, base: nat, ranks: seq<int>, g: Field, held: bool, next: Slice)
    requires Tracks(fields, base, ranks, g, held) && AtMost(ranks, 2 * Place(g))
    requires SliceOf(ranks, g).len > 0 ==> g in fields && next == Slice(fields[g].off, fields[g].len + 1)
    requires SliceOf(ranks, g).len == 0 ==> next == Slice(base + |ranks|, 1)
    ensures Tracks(fields[g := next], base, ranks + [2 * Place(g)], g, held)
  {
    SliceSnoc(ranks, 2 * Place(g), g);
  }

  lemma TracksStays(
    fields: map<Field, Slice>, base: nat, ranks: seq<int>, g: Field, f: Field, held: bool, next: Slice)
    requires Tracks(fields, base, ranks, f, held) && AtMost(ranks, 2 * Place(g)) && f != g
    ensures Tracks(fields[g := next], base, ranks + [2 * Place(g)], f, held)
  {
    OtherPlace(f, g);
    SliceSnoc(ranks, 2 * Place(g), f);
  }

  lemma OtherPlace(f: Field, g: Field)
    ensures Place(f) == Place(g) <==> f == g
  {
  }

  /** A delimiter changes no field. */
  lemma TracksSkip(fields: map<Field, Slice>, base: nat, ranks: seq<int>, r: int, f: Field, held: bool)
    requires Tracks(fields, base, ranks, f, held) && AtMost(ranks, r) && r != 2 * Place(f)
    ensures Tracks(fields, base, ranks + [r], f, held)
  {
    SliceSnoc(ranks, r, f);
  }

  // ---- http_parse_host ----

  /** The parts recorded after a prefix of a host's text. */
  ghost predicate HostTracked(parts: map<Field, Slice>, base: nat, h0: HostState, text: seq<Byte>) {
    && (forall f | HostPart(f) :: Tracks(parts, base, HostRanks(h0, text), f, f == Host))
    && Host in parts && (forall f | f in parts :: HostPart(f))
  }

  /** A field has characters as soon as the walk is in it, and not before. */
  lemma HostStarted(h0: HostState, text: seq<Byte>, f: Field)
    requires h0.UserinfoStart? || h0.HostStart?
    ensures AtMost(HostRanks(h0, text), HostRank(HostWalk(h0, text)))
    ensures var r := HostRank(HostWalk(h0, text));
            && (r == 2 * Place(f) ==> SliceOf(HostRanks(h0, text), f).len > 0)
            && (r < 2 * Place(f) ==> SliceOf(HostRanks(h0, text), f).len == 0)
  {
    var ranks := HostRanks(h0, text);
    var r := HostRank(HostWalk(h0, text));
    HostRanksSorted(h0, text);
    if text != [] {
      var front := HostRanks(h0, text[..|text| - 1]);
      assert ranks == front + [r];
      assert AtMost(front, r) by {
        assert forall i | 0 <= i < |front| :: front[i] == ranks[i];
      }
      SliceSnoc(front, r, f);
    }
  }

  /** What is recorded of a field when the walk is in state `s`. */
  lemma HostPresent(parts: map<Field, Slice>, base: nat, h0: HostState, text: seq<Byte>, s: HostState, g: Field)
    requires h0.UserinfoStart? || h0.HostStart?
    requires HostTracked(parts, base, h0, text) && HostPart(g) && s == HostWalk(h0, text)
    ensures HostRank(s) == 2 * Place(g) ==> g in parts
    ensures HostRank(s) < 2 * Place(g) && g in parts ==> parts[g].len == 0
  {
    HostStarted(h0, text, g);
    assert Tracks(parts, base, HostRanks(h0, text), g, g == Host);
  }

  lemma HostTrackedNext(
    parts: map<Field, Slice>, base: nat, h0: HostState, text: seq<Byte>, p: nat, s: HostState, g: Field, next: Slice)
    requires h0.UserinfoStart? || h0.HostStart?
    requires p < |text| && HostTracked(parts, base, h0, text[..p]) && HostPart(g)
    requires s == HostWalk(h0, text[..p]) && HostRank(HostWalk(h0, text[..p + 1])) == 2 * Place(g)
    requires if HostRank(s) == 2 * Place(g) then g in parts && next == Slice(parts[g].off, parts[g].len + 1)
             else next == Slice(base + p, 1)
    ensures HostTracked(parts[g := next], base, h0, text[..p + 1])
  {
    HostNext(h0, text, p);
    HostRankGrows(s, text[p]);
    HostStarted(h0, text[..p], g);
    PartsNext(parts, base, HostRanks(h0, text[..p]), g, next);
  }

  lemma PartsNext(parts: map<Field, Slice>, base: nat, ranks: seq<int>, g: Field, next: Slice)
    requires forall f | HostPart(f) :: Tracks(parts, base, ranks, f, f == Host)
    requires HostPart(g) && AtMost(ranks, 2 * Place(g))
    requires SliceOf(ranks, g).len > 0 ==> g in parts && next == Slice(parts[g].off, parts[g].len + 1)
    requires SliceOf(ranks, g).len == 0 ==> next == Slice(base + |ranks|, 1)
    ensures forall f | HostPart(f) :: Tracks(parts[g := next], base, ranks + [2 * Place(g)], f, f == Host)
  {
    forall f | HostPart(f) ensures Tracks(parts[g := next], base, ranks + [2 * Place(g)], f, f == Host) {
      TracksNext(parts, base, ranks, g, f, f == Host, next);
    }
  }

  lemma HostTrackedSkip(parts: map<Field, Slice>, base: nat, h0: HostState, text: seq<Byte>, p: nat)
    requires p < |text| && HostTracked(parts, base, h0, text[..p])
    requires HostRank(HostWalk(h0, text[..p + 1])) % 2 == 1
    ensures HostTracked(parts, base, h0, text[..p + 1])
  {
    HostNext(h0, text, p);
    forall f | HostPart(f) ensures Tracks(parts, base, HostRanks(h0, text[..p + 1]), f, f == Host) {
      TracksSkip(parts, base, HostRanks(h0, text[..p]), HostRank(HostWalk(h0, text[..p + 1])), f, f == Host);
    }
  }

  /** A walk that dies stays dead. */
  lemma {:induction false} HostDeadStays(h0: HostState, text: seq<Byte>, p: nat)
    requires p <= |text| && HostWalk(h0, text[..p]).HostDead?
    ensures HostWalk(h0, text).HostDead?
    decreases |text| - p
  {
    if p == |text| {
      assert text[..p] == text;
    } else {
      assert text[..p + 1][..p] == text[..p];
      HostDeadStays(h0, text, p + 1);
    }
  }

  lemma HostComplete(parts: map<Field, Slice>, base: nat, h0: HostState, text: seq<Byte>)
    requires h0.UserinfoStart? || h0.HostStart?
    requires HostTracked(parts, base, h0, text) && HostEnd(HostWalk(h0, text))
    ensures parts == HostFields(HostRanks(h0, text), base)
  {
    HostFound(h0, text);
    RecordedAll(parts, base, HostRanks(h0, text));
  }

  lemma RecordedAll(parts: map<Field, Slice>, base: nat, ranks: seq<int>)
    requires (forall f | HostPart(f) :: Tracks(parts, base, ranks, f, f == Host)) && SliceOf(ranks, Host).len > 0
    requires forall f | f in parts :: HostPart(f)
    ensures parts == HostFields(ranks, base)
  {
    forall f: Field ensures SameAt(parts, HostFields(ranks, base), f) {
      HostFieldsAt(ranks, base, f);
      assert HostPart(f) ==> Tracks(parts, base, ranks, f, f == Host);
    }
    SameMaps(parts, HostFields(ranks, base));
  }

  // ---- stored slices ----

  datatype Last = NoField | LastField(f: Field)

  lemma StoredPut(fields: map<Field, Slice>, g: Field, slice: Slice)
    ensures StoredAll(fields[g := slice]) == StoredAll(fields)[g := Stored(slice)]
  {
  }

  lemma StoredGrown(s: Slice)
    ensures Stored(Slice(s.off, s.len + 1)) == Slice(Stored(s).off, U16(Stored(s).len + 1))
  {
  }

  /** The parts after a character of field `g`, which the slice `next` ends with. */
  lemma HostNoted(
    parts: map<Field, Slice>, full: map<Field, Slice>, base: nat, h0: HostState, text: seq<Byte>, k: nat,
    s: HostState, g: Field, next: Slice)
    returns (full': map<Field, Slice>)
    requires (h0.UserinfoStart? || h0.HostStart?) && parts == StoredAll(full)
    requires k < |text| && HostTracked(full, base, h0, text[..k]) && HostPart(g)
    requires s == HostWalk(h0, text[..k]) && HostRank(HostWalk(h0, text[..k + 1])) == 2 * Place(g)
    requires if HostRank(s) == 2 * Place(g) then g in full && next == Slice(full[g].off, full[g].len + 1)
             else next == Slice(base + k, 1)
    ensures HostTracked(full', base, h0, text[..k + 1]) && StoredAll(full') == parts[g := Stored(next)]
  {
    full' := full[g := next];
    HostTrackedNext(full, base, h0, text, k, s, g, next);
    StoredPut(full, g, next);
  }

  /** What is stored when the walk is in state `s`. */
  ghost predicate PartsFit(parts: map<Field, Slice>, s: HostState) {
    && Host in parts && AllNarrow(parts)
    && forall g | HostPart(g) ::
      && (HostRank(s) == 2 * Place(g) ==> g in parts)
      && (HostRank(s) < 2 * Place(g) && g in parts ==> parts[g].len == 0)
  }

  lemma PartsFitFull(parts: map<Field, Slice>, full: map<Field, Slice>, base: nat, h0: HostState, text: seq<Byte>)
    requires (h0.UserinfoStart? || h0.HostStart?) && HostTracked(full, base, h0, text) && parts == StoredAll(full)
    ensures PartsFit(parts, HostWalk(h0, text))
  {
    forall g | HostPart(g)
      ensures HostRank(HostWalk(h0, text)) == 2 * Place(g) ==> g in parts
      ensures HostRank(HostWalk(h0, text)) < 2 * Place(g) && g in parts ==> parts[g].len == 0
    {
      HostPresent(full, base, h0, text, HostWalk(h0, text), g);
    }
  }

  /** The slice of `g` at position `p`: its run goes on or starts there. */
  function NextSlice(fields: map<Field, Slice>, g: Field, p: nat, goesOn: bool): Slice
    requires goesOn ==> g in fields
  {
    if goesOn then Slice(fields[g].off, fields[g].len + 1) else Slice(p, 1)
  }

  lemma NextStored(full: map<Field, Slice>, g: Field, p: nat, goesOn: bool)
    requires goesOn ==> g in full
    ensures Stored(NextSlice(full, g, p, goesOn)) == Stored(NextSlice(StoredAll(full), g, p, goesOn))
  {
    if goesOn {
      StoredGrown(full[g]);
    }
  }

  /** The switch of http_parse_host: which part a character goes to, and the
      part's new slice. */
  method NextPart(parts: map<Field, Slice>, s: HostState, t: HostState, p: nat) returns (last: Last, slice: Slice)
    requires PartsFit(parts, s) && exists c :: t == HostStep(s, c)
    requires !t.HostDead?
    ensures last.NoField? <==> HostRank(t) % 2 == 1
    ensures last.LastField? ==>
      && HostPart(last.f) && HostRank(t) == 2 * Place(last.f)
      && var goesOn := HostRank(s) == HostRank(t);
         slice == Stored(NextSlice(parts, last.f, p, goesOn))
  {
    ghost var c :| t == HostStep(s, c);
    HostRuns(s, c);
    if t.InHost? || t.V6? {
      last, slice := LastField(Host), Slice(if s != t then U16(p) else parts[Host].off, U16(parts[Host].len + 1));
    } else if t.V6ZoneStart? || t.V6Zone? {
      last, slice := LastField(Host), Slice(parts[Host].off, U16(parts[Host].len + 1));
    } else if t.InPort? {
      var port := if s != t then Slice(U16(p), 0) else parts[Port];
      last, slice := LastField(Port), Slice(port.off, U16(port.len + 1));
    } else if t.InUserinfo? {
      var info := if s != t then Slice(U16(p), 0) else parts[Userinfo];
      last, slice := LastField(Userinfo), Slice(info.off, U16(info.len + 1));
    } else {
      last, slice := NoField, Slice(0, 0);
    }
  }

  /** The parts after a character that takes the host's walk from `s` to `t`. */
  method NoteHost(
    parts: map<Field, Slice>, s: HostState, t: HostState, p: nat,
    ghost base: nat, ghost h0: HostState, ghost text: seq<Byte>, ghost k: nat, ghost full: map<Field, Slice>)
    returns (next: map<Field, Slice>, ghost full': map<Field, Slice>)
    requires (h0.UserinfoStart? || h0.HostStart?) && k < |text| && p == base + k
    requires s == HostWalk(h0, text[..k]) && t == HostWalk(h0, text[..k + 1])
    requires t == HostStep(s, text[k]) && !t.HostDead?
    requires HostTracked(full, base, h0, text[..k]) && parts == StoredAll(full)
    ensures HostTracked(full', base, h0, text[..k + 1]) && next == StoredAll(full')
  {
    PartsFitFull(parts, full, base, h0, text[..k]);
    var last, slice := NextPart(parts, s, t, p);
    if last.NoField? {
      HostTrackedSkip(full, base, h0, text, k);
      return parts, full;
    }
    ghost var goesOn := HostRank(s) == HostRank(t);
    NextStored(full, last.f, p, goesOn);
    full' := HostNoted(parts, full, base, h0, text, k, s, last.f, NextSlice(full, last.f, p, goesOn));
    next := parts[last.f := slice];
  }

  /** A character goes on with a field exactly when its state has the field's rank. */
  lemma HostRuns(s: HostState, c: Byte)
    ensures var t := HostStep(s, c);
            && HostRank(s) <= HostRank(t)
            && (t.InHost? || t.V6? || t.InPort? || t.InUserinfo? ==> (s == t <==> HostRank(s) == HostRank(t)))
            && (t.V6ZoneStart? || t.V6Zone? ==> HostRank(s) == HostRank(t))
  {
  }

  lemma HostTrackedStart(base: nat, h0: HostState, text: seq<Byte>)
    ensures HostTracked(map[Host := Slice(base, 0)], base, h0, text[..0]) && HostWalk(h0, text[..0]) == h0
  {
    assert text[..0] == [];
  }

  /** http_parse_host, on the part of `buf` that the first pass called the host. */
  method ParseHost(buf: seq<Byte>, at: Slice, foundAt: bool) returns (ok: bool, parts: map<Field, Slice>)
    requires at.off + at.len <= |buf| && Narrow(at)
    ensures var host, h0 := SliceText(buf, at), if foundAt then UserinfoStart else HostStart;
            && ok == HostEnd(HostWalk(h0, host))
            && (ok ==> parts == StoredAll(HostFields(HostRanks(h0, host), at.off)))
  {
    var s := if foundAt then UserinfoStart else HostStart;
    ghost var text, h0 := SliceText(buf, at), s;
    ghost var full := map[Host := at.(len := 0)];
    parts := map[Host := at.(len := 0)];
    HostTrackedStart(at.off, h0, text);
    for k := 0 to at.len
      invariant HostAt(parts, full, at.off, h0, text, k, s) && !s.HostDead?
    {
      SliceAt(buf, at, k);
      var t;
      t, parts, full := HostTurn(parts, s, buf[at.off + k], at.off + k, at.off, h0, text, k, full);
      if t.HostDead? {
        HostDeadStays(h0, text, k + 1);
        return false, parts;
      }
      s := t;
    }
    SliceAll(text);
    ok := HostEnd(s);
    if ok {
      HostComplete(full, at.off, h0, text);
    }
  }

  /** Where the loop over a host stands after `k` characters. */
  ghost predicate HostAt(
    parts: map<Field, Slice>, full: map<Field, Slice>, base: nat, h0: HostState, text: seq<Byte>, k: nat, s: HostState)
  {
    k <= |text| && s == HostWalk(h0, text[..k]) && HostTracked(full, base, h0, text[..k]) && parts == StoredAll(full)
  }

  /** One turn of that loop, with the character `c` at position `p`. */
  method HostTurn(
    parts: map<Field, Slice>, s: HostState, c: Byte, p: nat,
    ghost base: nat, ghost h0: HostState, ghost text: seq<Byte>, ghost k: nat, ghost full: map<Field, Slice>)
    returns (t: HostState, next: map<Field, Slice>, ghost full': map<Field, Slice>)
    requires (h0.UserinfoStart? || h0.HostStart?) && k < |text| && p == base + k && c == text[k]
    requires HostAt(parts, full, base, h0, text, k, s)
    ensures t == HostWalk(h0, text[..k + 1])
    ensures !t.HostDead? ==> HostAt(next, full', base, h0, text, k + 1, t)
  {
    t := HostStep(s, c);
    HostNext(h0, text, k);
    next, full' := parts, full;
    if !t.HostDead? {
      next, full' := NoteHost(parts, s, t, p, base, h0, text, k, full);
    }
  }

  lemma SliceAt(buf: seq<Byte>, at: Slice, k: nat)
    requires at.off + at.len <= |buf| && k < at.len
    ensures SliceText(buf, at)[k] == buf[at.off + k]
  {
  }

  // ---- the first pass ----

  function UrlField(s: UrlState): Last {
    match s
    case InSchema => LastField(Schema)
    case Server => LastField(Host)
    case ServerWithAt => LastField(Host)
    case InPath => LastField(Path)
    case InQuery => LastField(Query)
    case InFragment => LastField(Fragment)
    case _ => NoField
  }

  ghost predicate UrlTracked(fields: map<Field, Slice>, s0: UrlState, text: seq<Byte>) {
    forall f :: Tracks(fields, 0, UrlRanks(s0, text), f, false)
  }

  predicate IsStart(s0: UrlState) { s0.ServerStart? || s0.BeforeUrl? }

  lemma UrlStarted(s0: UrlState, text: seq<Byte>, f: Field)
    requires IsStart(s0)
    ensures AtMost(UrlRanks(s0, text), UrlRank(UrlWalk(s0, text)))
    ensures var r := UrlRank(UrlWalk(s0, text));
            && (r == 2 * Place(f) ==> SliceOf(UrlRanks(s0, text), f).len > 0)
            && (r < 2 * Place(f) ==> SliceOf(UrlRanks(s0, text), f).len == 0)
  {
    var ranks := UrlRanks(s0, text);
    var r := UrlRank(UrlWalk(s0, text));
    UrlRanksSorted(s0, text);
    if text != [] {
      var front := UrlRanks(s0, text[..|text| - 1]);
      assert ranks == front + [r];
      assert AtMost(front, r) by {
        assert forall i | 0 <= i < |front| :: front[i] == ranks[i];
      }
      SliceSnoc(front, r, f);
    }
  }

  lemma UrlNext(s0: UrlState, text: seq<Byte>, p: nat)
    requires p < |text|
    ensures UrlWalk(s0, text[..p + 1]) == UrlStep(UrlWalk(s0, text[..p]), text[p])
    ensures UrlRanks(s0, text[..p + 1]) == UrlRanks(s0, text[..p]) + [UrlRank(UrlWalk(s0, text[..p + 1]))]
    ensures AtMost(UrlRanks(s0, text[..p]), UrlRank(UrlWalk(s0, text[..p + 1])))
  {
    assert text[..p + 1][..p] == text[..p];
    UrlRanksSorted(s0, text[..p]);
    UrlRankGrows(UrlWalk(s0, text[..p]), text[p]);
  }

  lemma UrlTrackedNext(
    fields: map<Field, Slice>, s0: UrlState, text: seq<Byte>, p: nat, s: UrlState, g: Field, next: Slice)
    requires IsStart(s0) && p < |text| && UrlTracked(fields, s0, text[..p])
    requires s == UrlWalk(s0, text[..p]) && UrlRank(UrlWalk(s0, text[..p + 1])) == 2 * Place(g)
    requires if UrlRank(s) == 2 * Place(g) then g in fields && next == Slice(fields[g].off, fields[g].len + 1)
             else next == Slice(p, 1)
    ensures UrlTracked(fields[g := next], s0, text[..p + 1])
  {
    UrlNext(s0, text, p);
    UrlRankGrows(s, text[p]);
    UrlStarted(s0, text[..p], g);
    var ranks, fields' := UrlRanks(s0, text[..p + 1]), fields[g := next];
    forall f ensures Tracks(fields', 0, ranks, f, false) {
      TracksNext(fields, 0, UrlRanks(s0, text[..p]), g, f, false, next);
    }
  }

  lemma UrlTrackedSkip(fields: map<Field, Slice>, s0: UrlState, text: seq<Byte>, p: nat)
    requires p < |text| && UrlTracked(fields, s0, text[..p])
    requires UrlRank(UrlWalk(s0, text[..p + 1])) % 2 == 1
    ensures UrlTracked(fields, s0, text[..p + 1])
  {
    UrlNext(s0, text, p);
    AllSkip(fields, UrlRanks(s0, text[..p]), UrlRank(UrlWalk(s0, text[..p + 1])));
  }

  lemma AllSkip(fields: map<Field, Slice>, ranks: seq<int>, r: int)
    requires (forall f :: Tracks(fields, 0, ranks, f, false)) && AtMost(ranks, r) && r % 2 == 1
    ensures forall f :: Tracks(fields, 0, ranks + [r], f, false)
  {
    forall f ensures Tracks(fields, 0, ranks + [r], f, false) {
      assert Tracks(fields, 0, ranks, f, false);
      TracksSkip(fields, 0, ranks, r, f, false);
    }
  }

  lemma UrlPresent(fields: map<Field, Slice>, s0: UrlState, text: seq<Byte>, g: Field)
    requires IsStart(s0) && UrlTracked(fields, s0, text) && UrlRank(UrlWalk(s0, text)) == 2 * Place(g)
    ensures g in fields
  {
    UrlStarted(s0, text, g);
    assert Tracks(fields, 0, UrlRanks(s0, text), g, false);
  }

  lemma {:induction false} UrlDeadStays(s0: UrlState, text: seq<Byte>, p: nat)
    requires p <= |text| && UrlWalk(s0, text[..p]).UrlDead?
    ensures UrlWalk(s0, text).UrlDead?
    decreases |text| - p
  {
    if p == |text| {
      assert text[..p] == text;
    } else {
      assert text[..p + 1][..p] == text[..p];
      UrlDeadStays(s0, text, p + 1);
    }
  }

  /** An at sign was read in the server. */
  ghost predicate AtSeen(s0: UrlState, text: seq<Byte>, p: nat)
    requires p <= |text|
  {
    exists k | 0 <= k < p :: text[k] == AT && UrlRanks(s0, text)[k] == 4
  }

  lemma AtStep(s: UrlState, c: Byte)
    ensures UrlStep(s, c).ServerWithAt? <==> c == AT && UrlRank(UrlStep(s, c)) == 4
  {
  }

  lemma AtSeenNext(s0: UrlState, text: seq<Byte>, p: nat)
    requires p < |text|
    ensures AtSeen(s0, text, p + 1) <==> (AtSeen(s0, text, p) || UrlWalk(s0, text[..p + 1]).ServerWithAt?)
  {
    UrlRanksAt(s0, text, p);
    UrlNext(s0, text, p);
    AtStep(UrlWalk(s0, text[..p]), text[p]);
    SeenNext(text, UrlRanks(s0, text), p);
  }

  lemma SeenNext(text: seq<Byte>, ranks: seq<int>, p: nat)
    requires p < |text| == |ranks|
    ensures (exists k | 0 <= k < p + 1 :: text[k] == AT && ranks[k] == 4)
            <==> (exists k | 0 <= k < p :: text[k] == AT && ranks[k] == 4) || (text[p] == AT && ranks[p] == 4)
  {
  }

  lemma AtInSlice(text: seq<Byte>, ranks: seq<int>)
    requires |ranks| == |text| && Sorted(ranks)
    ensures (exists k | 0 <= k < |text| :: text[k] == AT && ranks[k] == 4)
            <==> AT in SliceText(text, SliceOf(ranks, Host))
  {
    var s := SliceOf(ranks, Host);
    var host := SliceText(text, s);
    if exists k | 0 <= k < |text| :: text[k] == AT && ranks[k] == 4 {
      var k :| 0 <= k < |text| && text[k] == AT && ranks[k] == 4;
      SliceExact(ranks, Host, k);
      var i := k - s.off;
      assert 0 <= i < |host| && host[i] == text[s.off + i];
    }
    if AT in host {
      var i :| 0 <= i < |host| && host[i] == AT;
      var k := s.off + i;
      assert host[i] == text[k];
      SliceExact(ranks, Host, k);
    }
  }

  lemma AtInHost(s0: UrlState, text: seq<Byte>)
    ensures AtSeen(s0, text, |text|) <==> AT in SliceText(text, SliceOf(UrlRanks(s0, text), Host))
  {
    UrlRanksSorted(s0, text);
    AtInSlice(text, UrlRanks(s0, text));
  }

  /** The fields after a character of field `g`. */
  lemma UrlNoted(
    full: map<Field, Slice>, s0: UrlState, text: seq<Byte>, p: nat, s: UrlState, g: Field, next: Slice)
    returns (full': map<Field, Slice>)
    requires IsStart(s0) && p < |text| && UrlTracked(full, s0, text[..p])
    requires s == UrlWalk(s0, text[..p]) && UrlRank(UrlWalk(s0, text[..p + 1])) == 2 * Place(g)
    requires if UrlRank(s) == 2 * Place(g) then g in full && next == Slice(full[g].off, full[g].len + 1)
             else next == Slice(p, 1)
    ensures UrlTracked(full', s0, text[..p + 1]) && StoredAll(full') == StoredAll(full)[g := Stored(next)]
  {
    full' := full[g := next];
    UrlTrackedNext(full, s0, text, p, s, g, next);
    StoredPut(full, g, next);
  }

  lemma FieldRank(s: UrlState)
    ensures UrlField(s).LastField? ==> UrlRank(s) == 2 * Place(UrlField(s).f)
  {
  }

  /** The fields after a character that takes the walk from `s` to `t`. */
  method NoteUrl(
    fields: map<Field, Slice>, last: Last, s: UrlState, t: UrlState, p: nat,
    ghost s0: UrlState, ghost text: seq<Byte>, ghost full: map<Field, Slice>)
    returns (next: map<Field, Slice>, last': Last, ghost full': map<Field, Slice>)
    requires IsStart(s0) && p < |text| && UrlTracked(full, s0, text[..p]) && fields == StoredAll(full)
    requires s == UrlWalk(s0, text[..p]) && t == UrlWalk(s0, text[..p + 1]) && t == UrlStep(s, text[p]) && !t.UrlDead?
    requires UrlField(s).LastField? ==> last == UrlField(s)
    requires last.LastField? ==> 2 * Place(last.f) <= UrlRank(s)
    ensures UrlTracked(full', s0, text[..p + 1]) && next == StoredAll(full')
    ensures UrlField(t).LastField? ==> last' == UrlField(t)
    ensures last'.LastField? ==> 2 * Place(last'.f) <= UrlRank(t)
  {
    UrlRankGrows(s, text[p]);
    FieldRank(s);
    FieldRank(t);
    next, last', full' := fields, last, full;
    var uf := UrlField(t);
    if uf.NoField? {
      UrlTrackedSkip(full, s0, text, p);
      return;
    }
    if uf == last {
      UrlPresent(full, s0, text[..p], uf.f);
      StoredGrown(full[uf.f]);
      full' := UrlNoted(full, s0, text, p, s, uf.f, Slice(full[uf.f].off, full[uf.f].len + 1));
      next := fields[uf.f := Slice(fields[uf.f].off, U16(fields[uf.f].len + 1))];
      return;
    }
    assert UrlRank(s) != 2 * Place(uf.f);
    full' := UrlNoted(full, s0, text, p, s, uf.f, Slice(p, 1));
    next := fields[uf.f := Slice(U16(p), 1)];
    last' := uf;
  }

  /** The loop of http_parser_parse_url. */
  method FirstPass(buf: seq<Byte>, s0: UrlState) returns (ok: bool, fields: map<Field, Slice>, foundAt: bool)
    requires IsStart(s0)
    ensures ok <==> !UrlWalk(s0, buf).UrlDead?
    ensures ok ==> fields == StoredAll(Fields(UrlRanks(s0, buf)))
    ensures ok ==> foundAt == (AT in SliceText(buf, SliceOf(UrlRanks(s0, buf), Host)))
  {
    var s, last := s0, NoField;
    fields, foundAt := map[], false;
    ghost var full: map<Field, Slice> := map[];
    var p := 0;
    assert buf[..0] == [];
    while p < |buf|
      invariant 0 <= p <= |buf|
      invariant s == UrlWalk(s0, buf[..p]) && !s.UrlDead?
      invariant UrlTracked(full, s0, buf[..p]) && fields == StoredAll(full)
      invariant UrlField(s).LastField? ==> last == UrlField(s)
      invariant last.LastField? ==> 2 * Place(last.f) <= UrlRank(s)
      invariant foundAt == AtSeen(s0, buf, p)
    {
      var t := UrlStep(s, buf[p]);
      UrlNext(s0, buf, p);
      if t.UrlDead? {
        UrlDeadStays(s0, buf, p + 1);
        return false, fields, foundAt;
      }
      AtSeenNext(s0, buf, p);
      if t.ServerWithAt? {
        foundAt := true;
      }
      fields, last, full := NoteUrl(fields, last, s, t, p, s0, buf, full);
      s := t;
      p := p + 1;
    }
    assert buf[..p] == buf;
    AtInHost(s0, buf);
    Unmerged(s0, buf, full);
    ok := true;
  }

  lemma Unmerged(s0: UrlState, text: seq<Byte>, fields: map<Field, Slice>)
    requires UrlTracked(fields, s0, text)
    ensures fields == Fields(UrlRanks(s0, text))
  {
    var ranks := UrlRanks(s0, text);
    forall f: Field ensures f in fields <==> f in Fields(ranks)
      ensures f in fields ==> fields[f] == Fields(ranks)[f]
    {
      assert Tracks(fields, 0, ranks, f, false);
    }
  }

  // ---- the port and the whole ----

  lemma {:induction false} PortGrows(text: seq<Byte>, n: nat)
    requires UrlFields.Digits(text) && n <= |text|
    ensures 0 <= PortValue(text[..n]) <= PortValue(text)
    decreases |text|
  {
    if n == |text| {
      assert text[..n] == text;
      PortIsValue(text);
    } else {
      assert text[..|text| - 1][..n] == text[..n];
      PortGrows(text[..|text| - 1], n);
    }
  }

  /** Of digits, the port is refused exactly when its number passes 65535. */
  lemma {:induction false} PortRefused(text: seq<Byte>)
    requires UrlFields.Digits(text)
    ensures PortOk(text) <==> PortValue(text) <= 0xFFFF
    decreases |text|
  {
    if text != [] {
      PortIsValue(text);
      PortGrows(text, |text| - 1);
      PortRefused(text[..|text| - 1]);
    }
  }

  lemma {:induction false} PortOkFront(text: seq<Byte>, n: nat)
    requires n <= |text| && PortOk(text)
    ensures PortOk(text[..n])
    decreases |text|
  {
    if n < |text| {
      PortOkFront(text[..|text| - 1], n);
      assert text[..|text| - 1][..n] == text[..n];
    } else {
      assert text[..n] == text;
    }
  }

  /** The port's number, refused as soon as it leaves its range. The text has no
      characters from 0x80, which the source would read as negative. */
  method ParsePort(text: seq<Byte>) returns (ok: bool, v: int)
    ensures ok <==> PortOk(text)
    ensures ok ==> v == PortValue(text)
    ensures UrlFields.Digits(text) ==> (ok <==> PortValue(text) <= 0xFFFF)
  {
    if UrlFields.Digits(text) {
      PortRefused(text);
    }
    v := 0;
    for i := 0 to |text|
      invariant v == PortValue(text[..i]) && PortOk(text[..i])
    {
      assert text[..i + 1][..i] == text[..i];
      v := v * 10 + (text[i] as int - 0x30);
      if v < 0 || v > 0xFFFF {
        if PortOk(text) {
          PortOkFront(text, i + 1);
        }
        return false, v;
      }
    }
    assert text[..|text|] == text;
    ok := true;
  }

  /** The result is that of the splitter, which decides by the grammar of URLs. */
  ghost predicate Parsed(buf: seq<Byte>, isConnect: bool, r: SplitResult) {
    && r == SplitUrl(buf, isConnect) && UrlGrammar.Decided(buf, isConnect, r)
    && (r.Split? ==> WellSplit(buf, r.url))
  }

  lemma StoredIsParsed(buf: seq<Byte>, isConnect: bool)
    ensures |buf| <= 0xFFFF ==> Parsed(buf, isConnect, SplitStored(buf, isConnect))
  {
    SplitIsWell(buf, isConnect);
    UrlGrammar.SplitDecides(buf, isConnect);
    if |buf| <= 0xFFFF {
      ShortNeverWraps(buf, isConnect);
    }
  }

  /** http_parser_parse_url. */
  method ParseUrl(buf: seq<Byte>, isConnect: bool) returns (r: SplitResult)
    ensures r == SplitStored(buf, isConnect)
    ensures |buf| <= 0xFFFF ==> Parsed(buf, isConnect, r)
  {
    StoredIsParsed(buf, isConnect);
    if buf == [] {
      return Malformed;
    }
    var s0 := if isConnect then ServerStart else BeforeUrl;
    var ok, fields, foundAt := FirstPass(buf, s0);
    if !ok {
      return Malformed;
    }
    RanksInText(buf, UrlRanks(s0, buf));
    if Schema in fields && Host !in fields {
      return Malformed;
    }
    if Host !in fields {
      r := Conclude(buf, isConnect, fields);
      return;
    }
    var good, parts := ParseHost(buf, fields[Host], foundAt);
    if !good {
      return Malformed;
    }
    HostInText(buf, if foundAt then UserinfoStart else HostStart, fields[Host]);
    r := Conclude(buf, isConnect, fields + parts);
  }

  /** The checks after both passes. */
  method Conclude(buf: seq<Byte>, isConnect: bool, fields: map<Field, Slice>) returns (r: SplitResult)
    requires InText(buf, fields)
    ensures r == FinishFields(buf, isConnect, fields)
  {
    if isConnect && fields.Keys != {Host, Port} {
      return Malformed;
    }
    var port := 0;
    if Port in fields {
      var ok, v := ParsePort(SliceText(buf, fields[Port]));
      if !ok {
        return Malformed;
      }
      port := v;
    }
    r := Split(Url(fields, port));
  }
}
