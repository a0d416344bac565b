// The URL splitter of include/http/http_parser.hpp: the two character machines
// and what a URL's fields are, said without the loops that find them.
//
// Every state has a rank, and no character lowers it. The states in which a
// character belongs to a field have an even rank, twice the field's place in
// the order of a URL; the states entered by a delimiter have an odd one. A field
// is then the run of characters whose rank is the field's.
module UrlSplit {
  import opened Circular
  import opened HttpDigits

  datatype Field = Schema | Userinfo | Host | Port | Path | Query | Fragment
  datatype Slice = Slice(off: nat, len: nat)
  datatype Url = Url(fields: map<Field, Slice>, port: nat)
  datatype SplitResult = Split(url: Url) | Malformed

  function Place(f: Field): nat {
    match f
    case Schema => 0
    case Userinfo => 1
    case Host => 2
    case Port => 3
    case Path => 4
    case Query => 5
    case Fragment => 6
  }

  // ---- characters ----

  const COLON: Byte := 0x3A
  const SLASH: Byte := 0x2F
  const STAR: Byte := 0x2A
  const QUESTION: Byte := 0x3F
  const HASH: Byte := 0x23
  const AT: Byte := 0x40
  const OPEN: Byte := 0x5B
  const CLOSE: Byte := 0x5D
  const PERCENT: Byte := 0x25
  const DOT: Byte := 0x2E
  const DASH: Byte := 0x2D
  const UNDERSCORE: Byte := 0x5F
  const TILDE: Byte := 0x7E

  predicate IsAlpha(c: Byte) { 0x41 <= c <= 0x5A || 0x61 <= c <= 0x7A }
  predicate IsAlphanum(c: Byte) { IsAlpha(c) || IsNumber(c) }
  predicate IsHexDigit(c: Byte) { IsNumber(c) || 0x41 <= c <= 0x46 || 0x61 <= c <= 0x66 }
  predicate IsMark(c: Byte) {
    || c == DASH || c == UNDERSCORE || c == DOT || c == TILDE || c == STAR
    || c == 0x21 || c == 0x27 || c == 0x28 || c == 0x29
  }
  predicate IsUserinfoChar(c: Byte) {
    || IsAlphanum(c) || IsMark(c) || c == PERCENT || c == 0x3B || c == COLON
    || c == 0x26 || c == 0x3D || c == 0x2B || c == 0x24 || c == 0x2C
  }
  /** The strict form of the table `normal_url_char`. */
  predicate IsUrlChar(c: Byte) { 0x21 <= c <= 0x7E && c != HASH && c != QUESTION }
  predicate IsHostChar(c: Byte) { IsAlphanum(c) || c == DOT || c == DASH }
  predicate IsZoneChar(c: Byte) {
    IsAlphanum(c) || c == PERCENT || c == DOT || c == DASH || c == UNDERSCORE || c == TILDE
  }
  predicate IsBlank(c: Byte) { c == SP || c == 0x0D || c == 0x0A || c == 0x09 || c == 0x0C }

  // ---- parse_url_char ----

  datatype UrlState =
    | UrlDead | BeforeUrl | InSchema | SchemaSlash | SchemaSlashSlash | ServerStart
    | Server | ServerWithAt | InPath | QueryStart | InQuery | FragmentStart | InFragment

  function UrlStep(s: UrlState, c: Byte): UrlState {
    if IsBlank(c) then UrlDead else
    match s
    case UrlDead => UrlDead
    case BeforeUrl =>
      if c == SLASH || c == STAR then InPath else if IsAlpha(c) then InSchema else UrlDead
    case InSchema =>
      if IsAlpha(c) then InSchema else if c == COLON then SchemaSlash else UrlDead
    case SchemaSlash => if c == SLASH then SchemaSlashSlash else UrlDead
    case SchemaSlashSlash => if c == SLASH then ServerStart else UrlDead
    case ServerWithAt => if c == AT then UrlDead else ServerStep(c)
    case ServerStart => ServerStep(c)
    case Server => ServerStep(c)
    case InPath =>
      if IsUrlChar(c) then InPath
      else if c == QUESTION then QueryStart
      else if c == HASH then FragmentStart else UrlDead
    case QueryStart => QueryStep(c)
    case InQuery => QueryStep(c)
    case FragmentStart =>
      if IsUrlChar(c) || c == QUESTION then InFragment
      else if c == HASH then FragmentStart else UrlDead
    case InFragment => if IsUrlChar(c) || c == QUESTION || c == HASH then InFragment else UrlDead
  }

  function ServerStep(c: Byte): UrlState {
    if c == SLASH then InPath
    else if c == QUESTION then QueryStart
    else if c == AT then ServerWithAt
    else if IsUserinfoChar(c) || c == OPEN || c == CLOSE then Server
    else UrlDead
  }

  function QueryStep(c: Byte): UrlState {
    if IsUrlChar(c) || c == QUESTION then InQuery
    else if c == HASH then FragmentStart else UrlDead
  }

  function UrlRank(s: UrlState): int {
    match s
    case UrlDead => 14
    case BeforeUrl => -1
    case InSchema => 0
    case SchemaSlash => 1
    case SchemaSlashSlash => 1
    case ServerStart => 1
    case Server => 4
    case ServerWithAt => 4
    case InPath => 8
    case QueryStart => 9
    case InQuery => 10
    case FragmentStart => 11
    case InFragment => 12
  }

  lemma UrlRankGrows(s: UrlState, c: Byte)
    ensures UrlRank(s) <= UrlRank(UrlStep(s, c))
  {
  }

  // ---- http_parse_host_char ----

  datatype HostState =
    | HostDead | UserinfoStart | InUserinfo | HostStart | V6Start | InHost | V6 | V6End
    | V6ZoneStart | V6Zone | PortStart | InPort

  function HostStep(s: HostState, c: Byte): HostState {
    match s
    case HostDead => HostDead
    case InUserinfo => UserinfoStep(c)
    case UserinfoStart => UserinfoStep(c)
    case HostStart => if c == OPEN then V6Start else if IsHostChar(c) then InHost else HostDead
    case InHost => if IsHostChar(c) then InHost else if c == COLON then PortStart else HostDead
    case V6End => if c == COLON then PortStart else HostDead
    case V6 =>
      if c == CLOSE then V6End
      else if IsHexDigit(c) || c == COLON || c == DOT then V6
      else if c == PERCENT then V6ZoneStart else HostDead
    case V6Start => if IsHexDigit(c) || c == COLON || c == DOT then V6 else HostDead
    case V6Zone => if c == CLOSE then V6End else if IsZoneChar(c) then V6Zone else HostDead
    case V6ZoneStart => if IsZoneChar(c) then V6Zone else HostDead
    case InPort => if IsNumber(c) then InPort else HostDead
    case PortStart => if IsNumber(c) then InPort else HostDead
  }

  function UserinfoStep(c: Byte): HostState {
    if c == AT then HostStart else if IsUserinfoChar(c) then InUserinfo else HostDead
  }

  function HostRank(s: HostState): int {
    match s
    case HostDead => 7
    case UserinfoStart => 1
    case InUserinfo => 2
    case HostStart => 3
    case V6Start => 3
    case InHost => 4
    case V6 => 4
    case V6ZoneStart => 4
    case V6Zone => 4
    case V6End => 5
    case PortStart => 5
    case InPort => 6
  }

  lemma HostRankGrows(s: HostState, c: Byte)
    ensures HostRank(s) <= HostRank(HostStep(s, c))
  {
  }

  /** The states in which a host may end. */
  predicate HostEnd(s: HostState) { s.InHost? || s.V6End? || s.InPort? }

  // ---- walks over a text ----

  function UrlWalk(s: UrlState, text: seq<Byte>): UrlState {
    if text == [] then s else UrlStep(UrlWalk(s, text[..|text| - 1]), text[|text| - 1])
  }

  /** The rank of each character: that of the state it leads to. */
  function UrlRanks(s: UrlState, text: seq<Byte>): (r: seq<int>)
    ensures |r| == |text|
  {
    if text == [] then [] else UrlRanks(s, text[..|text| - 1]) + [UrlRank(UrlWalk(s, text))]
  }

  function HostWalk(s: HostState, text: seq<Byte>): HostState {
    if text == [] then s else HostStep(HostWalk(s, text[..|text| - 1]), text[|text| - 1])
  }

  function HostRanks(s: HostState, text: seq<Byte>): (r: seq<int>)
    ensures |r| == |text|
  {
    if text == [] then [] else HostRanks(s, text[..|text| - 1]) + [HostRank(HostWalk(s, text))]
  }

  // ---- fields of ranked texts ----

  /** How many ranks are at most `x`. */
  function Count(ranks: seq<int>, x: int): (n: nat)
    ensures n <= |ranks|
  {
    if ranks == [] then 0
    else Count(ranks[..|ranks| - 1], x) + if ranks[|ranks| - 1] <= x then 1 else 0
  }

  function SliceOf(ranks: seq<int>, f: Field): Slice {
    CountGrows(ranks, 2 * Place(f) - 1, 2 * Place(f));
    var lo := Count(ranks, 2 * Place(f) - 1);
    Slice(lo, Count(ranks, 2 * Place(f)) - lo)
  }

  lemma {:induction false} CountGrows(ranks: seq<int>, x: int, y: int)
    requires x <= y
    ensures Count(ranks, x) <= Count(ranks, y)
    decreases |ranks|
  {
    if ranks != [] {
      CountGrows(ranks[..|ranks| - 1], x, y);
    }
  }

  const FIELDS: set<Field> := {Schema, Userinfo, Host, Port, Path, Query, Fragment}

  function Fields(ranks: seq<int>): map<Field, Slice> {
    map f | f in FIELDS && SliceOf(ranks, f).len > 0 :: SliceOf(ranks, f)
  }

  // ---- the result ----

  function UrlStart(isConnect: bool): UrlState { if isConnect then ServerStart else BeforeUrl }
  function HostBegin(host: seq<Byte>): HostState { if AT in host then UserinfoStart else HostStart }

  /** The number that a port's characters spell. */
  function PortValue(text: seq<Byte>): int {
    if text == [] then 0 else PortValue(text[..|text| - 1]) * 10 + (text[|text| - 1] as int - 0x30)
  }

  function SliceText(text: seq<Byte>, s: Slice): seq<Byte>
    requires s.off + s.len <= |text|
  {
    text[s.off..s.off + s.len]
  }

  /** No prefix of a port's characters spells a number out of range. */
  predicate PortOk(text: seq<Byte>)
    ensures PortOk(text) ==> 0 <= PortValue(text) <= 0xFFFF
  {
    text == [] || (PortOk(text[..|text| - 1]) && 0 <= PortValue(text) <= 0xFFFF)
  }

  /** The checks behind both passes. */
  function FinishFields(text: seq<Byte>, isConnect: bool, fields: map<Field, Slice>): SplitResult
    requires Port in fields ==> fields[Port].off + fields[Port].len <= |text|
  {
    if isConnect && fields.Keys != {Host, Port} then Malformed
    else if Port !in fields then Split(Url(fields, 0))
    else
      var port := SliceText(text, fields[Port]);
      if PortOk(port) then Split(Url(fields, PortValue(port))) else Malformed
  }

  function Finish(text: seq<Byte>, isConnect: bool, ranks: seq<int>): SplitResult
    requires |ranks| == |text|
  {
    FinishFields(text, isConnect, Fields(ranks))
  }

  /** The ranks of a URL, with the host's own ranks in place of the server's. */
  function Refine(text: seq<Byte>, ranks: seq<int>): (r: seq<int>)
    requires |ranks| == |text|
    ensures |r| == |text|
  {
    var s := SliceOf(ranks, Host);
    var host := SliceText(text, s);
    ranks[..s.off] + HostRanks(HostBegin(host), host) + ranks[s.off + s.len..]
  }

  /** What http_parser_parse_url makes of a text. */
  function SplitUrl(text: seq<Byte>, isConnect: bool): SplitResult {
    if text == [] || UrlWalk(UrlStart(isConnect), text).UrlDead? then Malformed
    else
      var ranks := UrlRanks(UrlStart(isConnect), text);
      var s := SliceOf(ranks, Host);
      if s.len == 0 then
        if SliceOf(ranks, Schema).len > 0 then Malformed else Finish(text, isConnect, ranks)
      else
        var host := SliceText(text, s);
        if !HostEnd(HostWalk(HostBegin(host), host)) then Malformed
        else Finish(text, isConnect, Refine(text, ranks))
  }
}
