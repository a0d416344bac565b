// Which texts the URL splitter accepts, and with which fields: exactly those that
// are put together from parts by this grammar.
module UrlGrammar {
  import opened Circular
  import opened Seqs
  import opened HttpDigits
  import opened UrlSplit
  import opened UrlFields
  import opened UrlRefine
  import opened UrlPieces
  import O = UrlOuter
  import H = UrlHost

  /** The parts of a URL: the fields, and which of the delimiters are there that
      may stand without a field. Any number of hash signs may come before a fragment. */
  datatype Parts = Parts(
    schema: Text, withUser: bool, user: Text, bracketed: bool, host: Text, port: Text,
    path: Text, asked: bool, query: Text, hashes: nat, fragment: Text)

  function Given(given: bool, t: Text): Text { if given then t else [] }

  function AfterSchema(p: Parts): Text { Given(p.schema != [], [COLON, SLASH, SLASH]) }
  function BeforeHost(p: Parts): Text { Given(p.withUser, [AT]) + Given(p.bracketed, [OPEN]) }
  function AfterHost(p: Parts): Text { Given(p.bracketed, [CLOSE]) + Given(p.port != [], [COLON]) }
  function Hashes(n: nat): Text { seq(n, _ => HASH) }

  /** Fields at even places, delimiters at odd ones; a path needs none before it. */
  function Pieces(p: Parts): (ps: seq<Text>)
    ensures |ps| == 13
  {
    [p.schema, AfterSchema(p), p.user, BeforeHost(p), p.host, AfterHost(p), p.port, [], p.path,
     Given(p.asked, [QUESTION]), p.query, Hashes(p.hashes), p.fragment]
  }

  function Joined(p: Parts): Text { Flatten(Pieces(p)) }

  /** The fields that are not empty, each where it stands in the joined text. */
  function UrlOf(p: Parts): Url
    requires Digits(p.port)
  {
    Url(PieceFields(Pieces(p)), Value(10, Decimals(p.port)))
  }

  // ---- the grammar ----

  /** A name, or in brackets an address with perhaps a zone. */
  ghost predicate ValidHost(bracketed: bool, host: Text) {
    if bracketed then exists n: nat :: 0 < n <= |host| && H.AddressChars(host[..n]) && ValidZone(host[n..])
    else host != [] && H.HostChars(host)
  }

  predicate ValidZone(t: Text) { t == [] || (|t| > 1 && t[0] == PERCENT && H.ZoneChars(t[1..])) }

  ghost predicate ValidServer(p: Parts) {
    && H.UserinfoChars(p.user) && (p.user != [] ==> p.withUser) && ValidHost(p.bracketed, p.host)
    && Digits(p.port) && Value(10, Decimals(p.port)) <= 0xFFFF
  }

  predicate NoServer(p: Parts) {
    p.schema == [] && !p.withUser && p.user == [] && !p.bracketed && p.host == [] && p.port == []
  }

  predicate ValidTail(p: Parts) {
    && O.UrlChars(p.path) && O.QueryChars(p.query) && (p.query != [] ==> p.asked)
    && O.FragmentChars(p.fragment) && (p.fragment != [] ==> p.hashes > 0 && p.fragment[0] != HASH)
    && (p.hashes > 0 ==> p.path != [] || p.asked)
  }

  /** Behind a host a path starts with a slash and may be missing, also before a
      question mark but not before a hash sign; without one it is there and may
      start with a star. A CONNECT request names a host and a port and nothing else. */
  ghost predicate Valid(p: Parts, isConnect: bool) {
    && ValidTail(p)
    && if isConnect then
         && p.schema == [] && ValidServer(p) && p.port != []
         && p.user == [] && p.path == [] && p.query == [] && p.fragment == []
       else if NoServer(p) then p.path != [] && (p.path[0] == SLASH || p.path[0] == STAR)
       else
         && p.schema != [] && O.Alphas(p.schema) && ValidServer(p)
         && (p.path != [] ==> p.path[0] == SLASH)
  }

  ghost predicate IsUrl(p: Parts, isConnect: bool, text: Text, url: Url) {
    Valid(p, isConnect) && text == Joined(p) && url == UrlOf(p)
  }

  // ---- the checks at the end ----

  lemma {:induction false} PortInRange(text: Text)
    requires Digits(text)
    ensures PortOk(text) <==> Value(10, Decimals(text)) <= 0xFFFF
    decreases |text|
  {
    if text != [] {
      var n := |text| - 1;
      PortInRange(text[..n]);
      PortIsValue(text);
      PortIsValue(text[..n]);
    }
  }

  /** The keys of a CONNECT request. */
  predicate HostAndPort(ps: seq<Text>)
    requires |ps| == 13
  {
    ps[0] == [] && ps[2] == [] && ps[4] != [] && ps[6] != [] && ps[8] == [] && ps[10] == [] && ps[12] == []
  }

  lemma ConnectKeys(ps: seq<Text>)
    requires |ps| == 13
    ensures PieceFields(ps).Keys == {Host, Port} <==> HostAndPort(ps)
  {
    var ks := PieceFields(ps).Keys;
    assert Schema in ks <==> ps[0] != [];
    assert Userinfo in ks <==> ps[2] != [];
    assert Host in ks <==> ps[4] != [];
    assert Port in ks <==> ps[6] != [];
    assert Path in ks <==> ps[8] != [];
    assert Query in ks <==> ps[10] != [];
    assert Fragment in ks <==> ps[12] != [];
  }

  /** The result, from the pieces. */
  function Result(isConnect: bool, ps: seq<Text>, port: Text): SplitResult
    requires |ps| == 13 && Digits(port)
  {
    var v := Value(10, Decimals(port));
    if (isConnect ==> HostAndPort(ps)) && v <= 0xFFFF then Split(Url(PieceFields(ps), v)) else Malformed
  }

  lemma FinishPieces(text: Text, isConnect: bool, ps: seq<Text>)
    requires |ps| == 13 && text == Flatten(ps) && |PieceRanks(ps, 0)| == |text| && Digits(ps[6])
    ensures Finish(text, isConnect, PieceRanks(ps, 0)) == Result(isConnect, ps, ps[6])
  {
    FieldsArePieces(ps);
    ConnectKeys(ps);
    PieceText(ps, 6);
    PortInRange(ps[6]);
    PortIsValue(ps[6]);
  }

  // ---- both passes together ----

  /** The pieces of the first pass, with those of the second in place of the server. */
  predicate Match(p: Parts, o: O.Outer, i: H.Inner) {
    && o.schema == p.schema && o.marks == AfterSchema(p) && o.path == p.path && o.ask == Given(p.asked, [QUESTION])
    && o.query == p.query && o.hashes == Hashes(p.hashes) && o.fragment == p.fragment
    && i.user == p.user && i.front == BeforeHost(p) && i.addr + i.zone == p.host && i.back == AfterHost(p)
    && i.port == p.port
  }

  lemma ThreeParts(a: seq<Text>, b: seq<Text>, c: seq<Text>)
    ensures Flatten(a + b + c) == Flatten(a) + Flatten(b) + Flatten(c)
    ensures PieceRanks(a + b + c, 0) == PieceRanks(a, 0) + PieceRanks(b, |a|) + PieceRanks(c, |a| + |b|)
  {
    FlattenAppend(a + b, c);
    FlattenAppend(a, b);
    RanksAppend(a + b, c, 0);
    RanksAppend(a, b, 0);
  }

  const NONE: seq<Text> := [[], []]

  function Alone(t: Text): seq<Text> { NONE + [t] + NONE }

  lemma NoneJoins(base: int)
    ensures Flatten(NONE) == [] && PieceRanks(NONE, base) == []
  {
    AllEmpty(NONE, base);
  }

  lemma OneJoins(t: Text, base: int)
    ensures Flatten([t]) == t && PieceRanks([t], base) == Times(|t|, base)
  {
    assert [t][..0] == [];
  }

  lemma AloneJoins(t: Text)
    ensures Flatten(Alone(t)) == t && PieceRanks(Alone(t), 2) == Times(|t|, 4)
  {
    FlattenAppend(NONE + [t], NONE);
    FlattenAppend(NONE, [t]);
    RanksAppend(NONE + [t], NONE, 2);
    RanksAppend(NONE, [t], 2);
    NoneJoins(2);
    NoneJoins(5);
    OneJoins(t, 4);
  }

  lemma SkipNone(mid: seq<Text>)
    ensures Flatten(NONE + mid) == Flatten(mid) && PieceRanks(NONE + mid, 0) == PieceRanks(mid, 2)
  {
    FlattenAppend(NONE, mid);
    RanksAppend(NONE, mid, 0);
    NoneJoins(0);
  }

  /** Taking the server apart leaves the text as it is. */
  lemma Spliced(a: seq<Text>, server: Text, mid: seq<Text>, c: seq<Text>)
    requires |a| == 2 && |mid| == 5 && Flatten(NONE + mid) == server
    ensures Flatten(a + Alone(server) + c) == Flatten(a + mid + c)
    ensures PieceRanks(a + mid + c, 0) == PieceRanks(a, 0) + PieceRanks(NONE + mid, 0) + PieceRanks(c, 7)
    ensures PieceRanks(a + Alone(server) + c, 0) == PieceRanks(a, 0) + Times(|server|, 4) + PieceRanks(c, 7)
  {
    ThreeParts(a, Alone(server), c);
    ThreeParts(a, mid, c);
    AloneJoins(server);
    SkipNone(mid);
  }

  lemma ServerSlice(a: seq<Text>, server: Text, c: seq<Text>)
    requires |a| == 2 && |c| == 6
    ensures var ps := a + Alone(server) + c;
            && PieceSlice(ps, 4) == Slice(|Flatten(a)|, |server|)
            && SliceOf(PieceRanks(ps, 0), Host) == PieceSlice(ps, 4)
            && |Flatten(a)| + |server| <= |Flatten(ps)| && SliceText(Flatten(ps), PieceSlice(ps, 4)) == server
            && |PieceRanks(ps, 0)| == |Flatten(ps)|
  {
    var ps := a + Alone(server) + c;
    SliceIsPiece(ps, Host);
    PieceText(ps, 4);
    RanksLength(ps, 0);
    assert ps[..4] == a + NONE && ps[4] == server;
    FlattenAppend(a, NONE);
    NoneJoins(0);
  }

  lemma Middle(a: seq<int>, b: seq<int>, inner: seq<int>, c: seq<int>)
    requires |b| == |inner|
    ensures (a + b + c)[..|a|] + inner + (a + b + c)[|a| + |b|..] == a + inner + c
  {
    assert (a + b + c)[..|a|] == a && (a + b + c)[|a| + |b|..] == c;
  }

  /** The second pass puts the ranks of the host's pieces in place of the server's. */
  lemma RefinedPieces(a: seq<Text>, server: Text, mid: seq<Text>, c: seq<Text>)
    requires |a| == 2 && |mid| == 5 && |c| == 6 && Flatten(NONE + mid) == server
    requires HostRanks(HostBegin(server), server) == PieceRanks(NONE + mid, 0)
    ensures var ps := a + Alone(server) + c;
            && |PieceRanks(ps, 0)| == |Flatten(ps)|
            && Refine(Flatten(ps), PieceRanks(ps, 0)) == PieceRanks(a + mid + c, 0)
  {
    Spliced(a, server, mid, c);
    ServerSlice(a, server, c);
    RanksLength(a, 0);
    Middle(PieceRanks(a, 0), Times(|server|, 4), HostRanks(HostBegin(server), server), PieceRanks(c, 7));
  }

  // ---- parts and pieces ----

  function Ahead(o: O.Outer): seq<Text> { [o.schema, o.marks] }
  function Behind(o: O.Outer): seq<Text> { [[], o.path, o.ask, o.query, o.hashes, o.fragment] }
  function Within(i: H.Inner): seq<Text> { [i.user, i.front, i.addr + i.zone, i.back, i.port] }

  lemma DissectOuter(o: O.Outer)
    ensures O.Pieces(o) == Ahead(o) + Alone(o.server) + Behind(o)
  {
  }

  lemma DissectHost(i: H.Inner)
    ensures H.Pieces(i) == NONE + Within(i)
  {
  }

  lemma DissectParts(p: Parts, o: O.Outer, i: H.Inner)
    requires Match(p, o, i)
    ensures Pieces(p) == Ahead(o) + Within(i) + Behind(o)
  {
  }

  /** The states in which a host may end, by its pieces. */
  predicate Ended(i: H.Inner) {
    && i.addr != [] && (H.Bracketed(i) ==> i.back != [])
    && (i.back != [] && Last(i.back) == COLON ==> i.port != [])
  }

  lemma EndedIs(i: H.Inner, withUser: bool)
    requires H.Well(i, withUser)
    ensures HostEnd(H.StateOf(i, withUser)) <==> Ended(i)
  {
  }

  /** A text without a server. */
  lemma SplitBare(text: Text, isConnect: bool, o: O.Outer)
    requires O.Reads(o, isConnect, text) && o.server == [] && text != []
    ensures SplitUrl(text, isConnect) == if o.schema != [] then Malformed else Result(isConnect, O.Pieces(o), [])
  {
    var ps := O.Pieces(o);
    SliceIsPiece(ps, Host);
    SliceIsPiece(ps, Schema);
    FinishPieces(text, isConnect, ps);
  }

  /** The second pass decides about a text with a server. */
  lemma SecondPass(text: Text, isConnect: bool, server: Text, at: Slice)
    requires text != [] && !UrlWalk(UrlStart(isConnect), text).UrlDead? && server != []
    requires at == SliceOf(UrlRanks(UrlStart(isConnect), text), Host) && at.len == |server|
    requires at.off + at.len <= |text| && SliceText(text, at) == server
    ensures SplitUrl(text, isConnect) ==
              if HostEnd(HostWalk(HostBegin(server), server))
              then Finish(text, isConnect, Refine(text, UrlRanks(UrlStart(isConnect), text))) else Malformed
  {
  }

  lemma FinishServer(
    text: Text, isConnect: bool, ranks: seq<int>, a: seq<Text>, server: Text, mid: seq<Text>, c: seq<Text>,
    ps: seq<Text>, port: Text)
    requires |a| == 2 && |mid| == 5 && |c| == 6 && ps == a + mid + c && port == ps[6] && Digits(port)
    requires Flatten(NONE + mid) == server && HostRanks(HostBegin(server), server) == PieceRanks(NONE + mid, 0)
    requires text == Flatten(a + Alone(server) + c) && ranks == PieceRanks(a + Alone(server) + c, 0)
    ensures |ranks| == |text| && text == Flatten(ps)
    ensures Finish(text, isConnect, Refine(text, ranks)) == Result(isConnect, ps, port)
  {
    Spliced(a, server, mid, c);
    RefinedPieces(a, server, mid, c);
    FinishPieces(text, isConnect, ps);
  }

  /** What the first pass makes of a text with pieces before, at and behind the server. */
  predicate OuterListed(text: Text, isConnect: bool, a: seq<Text>, server: Text, c: seq<Text>) {
    var all := a + Alone(server) + c;
    && |a| == 2 && |c| == 6 && server != [] && !UrlWalk(UrlStart(isConnect), text).UrlDead?
    && text == Flatten(all) && UrlRanks(UrlStart(isConnect), text) == PieceRanks(all, 0)
  }

  /** What the second pass makes of the server. */
  predicate InnerListed(server: Text, mid: seq<Text>, ended: bool) {
    && |mid| == 5 && Flatten(NONE + mid) == server
    && HostRanks(HostBegin(server), server) == PieceRanks(NONE + mid, 0)
    && (ended <==> HostEnd(HostWalk(HostBegin(server), server)))
  }

  lemma SplitLists(
    text: Text, isConnect: bool, a: seq<Text>, server: Text, mid: seq<Text>, c: seq<Text>, ps: seq<Text>, port: Text,
    ended: bool)
    requires OuterListed(text, isConnect, a, server, c) && InnerListed(server, mid, ended)
    requires ps == a + mid + c && port == ps[6] && Digits(port)
    ensures text == Flatten(ps) && SplitUrl(text, isConnect) == if ended then Result(isConnect, ps, port) else Malformed
  {
    var ranks := UrlRanks(UrlStart(isConnect), text);
    ServerSlice(a, server, c);
    SecondPass(text, isConnect, server, PieceSlice(a + Alone(server) + c, 4));
    FinishServer(text, isConnect, ranks, a, server, mid, c, ps, port);
  }

  lemma OuterLists(text: Text, isConnect: bool, o: O.Outer)
    requires O.Reads(o, isConnect, text) && o.server != []
    ensures OuterListed(text, isConnect, Ahead(o), o.server, Behind(o))
  {
    DissectOuter(o);
  }

  lemma InnerLists(server: Text, i: H.Inner)
    requires H.Reads(i, AT in server, server)
    ensures InnerListed(server, Within(i), Ended(i))
  {
    DissectHost(i);
    EndedIs(i, AT in server);
  }

  /** A text with a server. */
  lemma SplitServer(text: Text, isConnect: bool, o: O.Outer, i: H.Inner, p: Parts)
    requires O.Reads(o, isConnect, text) && o.server != [] && H.Reads(i, AT in o.server, o.server) && Match(p, o, i)
    requires Digits(p.port)
    ensures text == Joined(p)
    ensures SplitUrl(text, isConnect) == if Ended(i) then Result(isConnect, Pieces(p), p.port) else Malformed
  {
    OuterLists(text, isConnect, o);
    InnerLists(o.server, i);
    DissectParts(p, o, i);
    SplitLists(text, isConnect, Ahead(o), o.server, Within(i), Behind(o), Pieces(p), p.port, Ended(i));
  }

  lemma NumbersDigits(t: Text)
    ensures H.Numbers(t) <==> Digits(t)
  {
  }

  // ---- an accepted text has parts ----

  lemma SameHashes(t: Text)
    requires O.HashSigns(t)
    ensures t == Hashes(|t|)
  {
    assert forall k | 0 <= k < |t| :: t[k] in t;
  }

  /** The parts that two passes have found. */
  function PartsOf(o: O.Outer, i: H.Inner): Parts {
    Parts(o.schema, AT in i.front, i.user, H.Bracketed(i), i.addr + i.zone, i.port,
          o.path, o.ask != [], o.query, |o.hashes|, o.fragment)
  }

  lemma TailParts(o: O.Outer, i: H.Inner, ready: bool, bare: bool)
    requires O.WellBack(o, ready, bare)
    ensures ValidTail(PartsOf(o, i)) && o.hashes == Hashes(|o.hashes|) && o.ask == Given(o.ask != [], [QUESTION])
  {
    SameHashes(o.hashes);
  }

  lemma FrontParts(i: H.Inner, withUser: bool)
    requires H.Well(i, withUser) && Ended(i)
    ensures AT in i.front <==> withUser
    ensures i.front == Given(withUser, [AT]) + Given(H.Bracketed(i), [OPEN])
  {
  }

  lemma BackParts(i: H.Inner, withUser: bool)
    requires H.Well(i, withUser) && Ended(i)
    ensures i.back == Given(H.Bracketed(i), [CLOSE]) + Given(i.port != [], [COLON])
  {
  }

  lemma HostParts(o: O.Outer, i: H.Inner, withUser: bool)
    requires H.Well(i, withUser) && Ended(i)
    ensures var p := PartsOf(o, i);
            && p.withUser == withUser && i.front == BeforeHost(p) && i.back == AfterHost(p)
            && H.UserinfoChars(p.user) && (p.user != [] ==> p.withUser) && Digits(p.port)
            && ValidHost(p.bracketed, p.host)
  {
    FrontParts(i, withUser);
    BackParts(i, withUser);
    EndedHost(i, withUser);
    NumbersDigits(i.port);
  }

  lemma EndedHost(i: H.Inner, withUser: bool)
    requires H.Well(i, withUser) && Ended(i)
    ensures ValidHost(H.Bracketed(i), i.addr + i.zone)
  {
    if H.Bracketed(i) {
      var n := |i.addr|;
      assert (i.addr + i.zone)[..n] == i.addr && (i.addr + i.zone)[n..] == i.zone;
      if i.zone != [] {
        assert forall c | c in i.zone[1..] :: c in i.zone;
      }
    } else {
      assert i.addr + i.zone == i.addr;
    }
  }

  lemma BareParts(text: Text, isConnect: bool, o: O.Outer) returns (p: Parts)
    requires O.Reads(o, isConnect, text) && o.server == [] && o.schema == [] && text != [] && !isConnect
    ensures IsUrl(p, isConnect, text, Url(PieceFields(O.Pieces(o)), 0))
  {
    p := PartsOf(o, H.EMPTY);
    TailParts(o, H.EMPTY, O.Ready(o, isConnect), true);
    assert Pieces(p) == O.Pieces(o);
    if o.path == [] {
      assert o == O.EMPTY;
      O.EmptyReads(isConnect);
    }
  }

  lemma PartsMatch(text: Text, isConnect: bool, o: O.Outer, i: H.Inner)
    requires O.Reads(o, isConnect, text) && o.server != [] && H.Reads(i, AT in o.server, o.server) && Ended(i)
    ensures Match(PartsOf(o, i), o, i) && Digits(i.port)
  {
    TailParts(o, i, O.Ready(o, isConnect), !isConnect && o.schema == []);
    HostParts(o, i, AT in o.server);
  }

  /** A CONNECT request has no other fields. */
  predicate OnlyHostAndPort(p: Parts) {
    p.schema == [] && p.user == [] && p.host != [] && p.port != [] && p.path == [] && p.query == [] && p.fragment == []
  }

  lemma ConnectParts(p: Parts)
    ensures HostAndPort(Pieces(p)) <==> OnlyHostAndPort(p)
  {
  }

  lemma ReadyParts(o: O.Outer, i: H.Inner, isConnect: bool)
    requires O.Well(o, isConnect) && o.server != [] && ValidServer(PartsOf(o, i)) && ValidTail(PartsOf(o, i))
    requires isConnect ==> OnlyHostAndPort(PartsOf(o, i))
    ensures Valid(PartsOf(o, i), isConnect)
  {
  }

  lemma PartsValid(text: Text, isConnect: bool, o: O.Outer, i: H.Inner)
    requires O.Reads(o, isConnect, text) && o.server != [] && H.Reads(i, AT in o.server, o.server) && Ended(i)
    requires Digits(i.port) && Value(10, Decimals(i.port)) <= 0xFFFF
    requires isConnect ==> OnlyHostAndPort(PartsOf(o, i))
    ensures Valid(PartsOf(o, i), isConnect)
  {
    TailParts(o, i, O.Ready(o, isConnect), !isConnect && o.schema == []);
    HostParts(o, i, AT in o.server);
    ReadyParts(o, i, isConnect);
  }

  lemma BareHasParts(text: Text, isConnect: bool, o: O.Outer) returns (p: Parts)
    requires O.Reads(o, isConnect, text) && o.server == [] && SplitUrl(text, isConnect).Split?
    ensures IsUrl(p, isConnect, text, SplitUrl(text, isConnect).url)
  {
    SplitBare(text, isConnect, o);
    p := BareParts(text, isConnect, o);
  }

  lemma ServerHasParts(text: Text, isConnect: bool, o: O.Outer, i: H.Inner)
    requires O.Reads(o, isConnect, text) && o.server != [] && SplitUrl(text, isConnect).Split?
    requires H.Reads(i, AT in o.server, o.server) && Ended(i)
    ensures IsUrl(PartsOf(o, i), isConnect, text, SplitUrl(text, isConnect).url)
  {
    var p := PartsOf(o, i);
    PartsMatch(text, isConnect, o, i);
    SplitServer(text, isConnect, o, i, p);
    ConnectParts(p);
    PartsValid(text, isConnect, o, i);
  }

  /** What is accepted is put together from parts. */
  lemma AcceptedHasParts(text: Text, isConnect: bool) returns (p: Parts)
    requires SplitUrl(text, isConnect).Split?
    ensures IsUrl(p, isConnect, text, SplitUrl(text, isConnect).url)
  {
    var o := O.WalkIsWell(isConnect, text);
    if o.server == [] {
      p := BareHasParts(text, isConnect, o);
    } else {
      var i := AcceptedHost(text, isConnect, o);
      p := PartsOf(o, i);
      ServerHasParts(text, isConnect, o, i);
    }
  }

  lemma AcceptedHost(text: Text, isConnect: bool, o: O.Outer) returns (i: H.Inner)
    requires O.Reads(o, isConnect, text) && o.server != [] && SplitUrl(text, isConnect).Split?
    ensures H.Reads(i, AT in o.server, o.server) && Ended(i)
  {
    OuterLists(text, isConnect, o);
    ServerSlice(Ahead(o), o.server, Behind(o));
    SecondPass(text, isConnect, o.server, SliceOf(UrlRanks(UrlStart(isConnect), text), Host));
    i := H.WalkIsWell(AT in o.server, o.server);
    EndedIs(i, AT in o.server);
  }

  // ---- what has parts is accepted ----

  lemma FlattenHost(i: H.Inner)
    ensures Flatten(H.Pieces(i)) == i.user + i.front + (i.addr + i.zone) + i.back + i.port
  {
    DissectHost(i);
    SkipNone(Within(i));
    FlattenFive(i.user, i.front, i.addr + i.zone, i.back, i.port);
  }

  lemma FlattenFive(a: Text, b: Text, c: Text, d: Text, e: Text)
    ensures Flatten([a, b, c, d, e]) == a + b + c + d + e
  {
    var two := [a, b];
    FlattenTwo(a, b);
    FlattenSnoc(two, c);
    FlattenSnoc(two + [c], d);
    FlattenSnoc(two + [c] + [d], e);
    assert two + [c] + [d] + [e] == [a, b, c, d, e];
  }

  lemma FlattenTwo(a: Text, b: Text)
    ensures Flatten([a, b]) == a + b
  {
    OneJoins(a, 0);
    FlattenSnoc([a], b);
    assert [a] + [b] == [a, b];
  }

  predicate NoAt(t: Text) { forall c | c in t :: c != AT && O.IsServerChar(c) }

  lemma ServerTextOf(user: Text, front: Text, rest: Text)
    requires NoAt(user) && NoAt(rest) && (front == [] || front == [AT] || front == [AT, OPEN] || front == [OPEN])
    ensures O.ServerText(user + front + rest) && (AT in user + front + rest <==> AT in front)
  {
  }

  lemma HostText(i: H.Inner, withUser: bool)
    requires H.Well(i, withUser)
    ensures NoAt(i.user) && NoAt((i.addr + i.zone) + (i.back + i.port))
  {
  }

  lemma HostIsServer(i: H.Inner, withUser: bool)
    requires H.Well(i, withUser) && Ended(i)
    ensures var t := Flatten(H.Pieces(i)); O.ServerText(t) && t != [] && (AT in t <==> withUser)
  {
    FlattenHost(i);
    FrontParts(i, withUser);
    HostText(i, withUser);
    Assoc(i.user + i.front, i.addr + i.zone, i.back + i.port);
    Assoc(i.user + i.front + (i.addr + i.zone), i.back, i.port);
    ServerTextOf(i.user, i.front, (i.addr + i.zone) + (i.back + i.port));
  }

  /** The pieces of both passes for a URL whose host is cut before its zone. */
  function InnerOf(p: Parts, n: nat): H.Inner
    requires n <= |p.host|
  {
    H.Inner(p.user, BeforeHost(p), p.host[..n], p.host[n..], AfterHost(p), p.port)
  }

  function OuterOf(p: Parts, server: Text): O.Outer {
    O.Outer(p.schema, AfterSchema(p), server, p.path, Given(p.asked, [QUESTION]), p.query, Hashes(p.hashes), p.fragment)
  }

  lemma OuterWell(p: Parts, isConnect: bool, server: Text)
    requires Valid(p, isConnect) && O.ServerText(server) && (server == [] <==> NoServer(p))
    ensures O.Well(OuterOf(p, server), isConnect)
  {
  }

  lemma ZoneIs(t: Text)
    requires ValidZone(t)
    ensures H.ZoneChars(t) && |t| != 1 && (t != [] ==> t[0] == PERCENT)
  {
    if t != [] {
      assert forall c | c in t :: c == t[0] || c in t[1..];
    }
  }

  lemma InnerWell(p: Parts, n: nat)
    requires ValidServer(p) && 0 < n <= |p.host|
    requires if p.bracketed then H.AddressChars(p.host[..n]) && ValidZone(p.host[n..])
             else n == |p.host| && H.HostChars(p.host)
    ensures H.Well(InnerOf(p, n), p.withUser) && Ended(InnerOf(p, n))
  {
    NumbersDigits(p.port);
    if p.bracketed {
      ZoneIs(p.host[n..]);
    } else {
      SliceAll(p.host);
      NamedWell(p);
    }
  }

  lemma NamedWell(p: Parts)
    requires ValidServer(p) && !p.bracketed && H.Numbers(p.port) && p.host[..|p.host|] == p.host
    ensures H.Well(InnerOf(p, |p.host|), p.withUser) && Ended(InnerOf(p, |p.host|))
  {
  }

  lemma InnerFound(p: Parts) returns (i: H.Inner)
    requires ValidServer(p)
    ensures H.Well(i, p.withUser) && Ended(i)
    ensures i.user == p.user && i.front == BeforeHost(p) && i.addr + i.zone == p.host && i.back == AfterHost(p)
         && i.port == p.port
  {
    var n: nat := |p.host|;
    if p.bracketed {
      n :| 0 < n <= |p.host| && H.AddressChars(p.host[..n]) && ValidZone(p.host[n..]);
    }
    InnerWell(p, n);
    SliceBoth(p.host, n);
    i := InnerOf(p, n);
  }

  lemma ServerAccepted(p: Parts, isConnect: bool)
    requires Valid(p, isConnect) && ValidServer(p)
    ensures SplitUrl(Joined(p), isConnect) == Result(isConnect, Pieces(p), p.port)
  {
    var i := InnerFound(p);
    var server := Flatten(H.Pieces(i));
    HostIsServer(i, p.withUser);
    H.WellWalks(i, p.withUser);
    OuterWell(p, isConnect, server);
    O.WellWalks(OuterOf(p, server), isConnect);
    SplitServer(Flatten(O.Pieces(OuterOf(p, server))), isConnect, OuterOf(p, server), i, p);
  }

  lemma BareAccepted(p: Parts)
    requires Valid(p, false) && NoServer(p)
    ensures SplitUrl(Joined(p), false) == Result(false, Pieces(p), p.port)
  {
    var o := OuterOf(p, []);
    OuterWell(p, false, []);
    O.WellWalks(o, false);
    assert O.Pieces(o) == Pieces(p);
    PieceText(Pieces(p), 8);
    SplitBare(Joined(p), false, o);
  }

  /** What is put together from parts is accepted. */
  lemma PartsAccepted(p: Parts, isConnect: bool)
    requires Valid(p, isConnect)
    ensures SplitUrl(Joined(p), isConnect) == Split(UrlOf(p))
  {
    ConnectParts(p);
    if !isConnect && NoServer(p) {
      BareAccepted(p);
    } else {
      ServerAccepted(p, isConnect);
    }
  }

  /** A text is accepted, with these fields, if and only if it is put together from
      parts that have these fields. */
  lemma AcceptsExactly(text: Text, isConnect: bool, url: Url)
    ensures SplitUrl(text, isConnect) == Split(url) <==> exists p :: IsUrl(p, isConnect, text, url)
  {
    if SplitUrl(text, isConnect) == Split(url) {
      var p := AcceptedHasParts(text, isConnect);
    }
    if p :| IsUrl(p, isConnect, text, url) {
      PartsAccepted(p, isConnect);
    }
  }

  /** `r` gives the fields of a text that has parts, and refuses one that has none. */
  ghost predicate Decided(text: Text, isConnect: bool, r: SplitResult) {
    if r.Split? then exists p :: IsUrl(p, isConnect, text, r.url)
    else forall p | Valid(p, isConnect) :: Joined(p) != text
  }

  lemma SplitDecides(text: Text, isConnect: bool)
    ensures Decided(text, isConnect, SplitUrl(text, isConnect))
  {
    var r := SplitUrl(text, isConnect);
    if r.Split? {
      var p := AcceptedHasParts(text, isConnect);
    } else {
      forall p | Valid(p, isConnect) ensures Joined(p) != text {
        PartsAccepted(p, isConnect);
      }
    }
  }
}
