// The first pass over a URL read as a grammar: the pieces that it tells apart,
// and which of them may follow which. Walks of the machine of parse_url_char and
// well-formed pieces are the same thing.
module UrlOuter {
  import opened Circular
  import opened Seqs
  import opened UrlSplit
  import opened UrlPieces

  /** A URL whose server is not yet taken apart. `marks` is what stands between
      schema and server, `ask` the question mark, `hashes` the hash signs. */
  datatype Outer = Outer(
    schema: Text, marks: Text, server: Text, path: Text, ask: Text, query: Text, hashes: Text, fragment: Text)

  const MARKS: Text := [COLON, SLASH, SLASH]

  predicate Alphas(t: Text) { forall c | c in t :: IsAlpha(c) }
  predicate UrlChars(t: Text) { forall c | c in t :: IsUrlChar(c) }
  predicate QueryChars(t: Text) { forall c | c in t :: IsUrlChar(c) || c == QUESTION }
  predicate FragmentChars(t: Text) { forall c | c in t :: IsUrlChar(c) || c == QUESTION || c == HASH }
  predicate HashSigns(t: Text) { forall c | c in t :: c == HASH }
  predicate IsServerChar(c: Byte) { IsUserinfoChar(c) || c == OPEN || c == CLOSE || c == AT }

  /** No at sign directly behind another. */
  predicate ServerText(t: Text) {
    && (forall c | c in t :: IsServerChar(c))
    && forall i | 0 < i < |t| :: t[i] == AT ==> t[i - 1] != AT
  }

  /** A server may come next. */
  predicate Ready(o: Outer, isConnect: bool) {
    if isConnect then o.schema == [] && o.marks == [] else o.schema != [] && o.marks == MARKS
  }

  predicate PathText(t: Text, ready: bool, bare: bool) {
    UrlChars(t) && (t != [] ==> (t[0] == SLASH && (ready || bare)) || (t[0] == STAR && bare))
  }

  predicate WellFront(o: Outer, isConnect: bool) {
    && Alphas(o.schema) && o.marks <= MARKS && (o.marks != [] ==> o.schema != []) && (isConnect ==> o.schema == [])
    && ServerText(o.server) && (o.server != [] ==> Ready(o, isConnect))
  }

  predicate WellBack(o: Outer, ready: bool, bare: bool) {
    && PathText(o.path, ready, bare)
    && (o.ask == [] || (o.ask == [QUESTION] && (o.path != [] || ready)))
    && QueryChars(o.query) && (o.query != [] ==> o.ask != [])
    && HashSigns(o.hashes) && (o.hashes != [] ==> o.path != [] || o.ask != [])
    && FragmentChars(o.fragment) && (o.fragment != [] ==> o.hashes != [] && o.fragment[0] != HASH)
  }

  predicate Well(o: Outer, isConnect: bool) {
    WellFront(o, isConnect) && WellBack(o, Ready(o, isConnect), !isConnect && o.schema == [])
  }

  function StateOf(o: Outer, isConnect: bool): UrlState {
    if o.fragment != [] then InFragment
    else if o.hashes != [] then FragmentStart
    else if o.query != [] then InQuery
    else if o.ask != [] then QueryStart
    else if o.path != [] then InPath
    else if o.server != [] then (if Last(o.server) == AT then ServerWithAt else Server)
    else if Ready(o, isConnect) then ServerStart
    else if |o.marks| == 2 then SchemaSlashSlash
    else if |o.marks| == 1 then SchemaSlash
    else if o.schema != [] then InSchema
    else BeforeUrl
  }

  /** The pieces by rank. */
  function Pieces(o: Outer): (ps: seq<Text>)
    ensures |ps| == 13
  {
    [o.schema, o.marks, [], [], o.server, [], [], [], o.path, o.ask, o.query, o.hashes, o.fragment]
  }

  /** One character more in the piece with rank `r`. */
  function Put(o: Outer, r: int, c: Byte): Outer {
    match r
    case 0 => o.(schema := o.schema + [c])
    case 1 => o.(marks := o.marks + [c])
    case 4 => o.(server := o.server + [c])
    case 8 => o.(path := o.path + [c])
    case 9 => o.(ask := o.ask + [c])
    case 10 => o.(query := o.query + [c])
    case 11 => o.(hashes := o.hashes + [c])
    case _ => o.(fragment := o.fragment + [c])
  }

  predicate OuterRank(r: int) { r == 0 || r == 1 || r == 4 || (8 <= r <= 12) }

  /** Nothing stands behind the piece with rank `r`. */
  predicate Behind(o: Outer, r: int) {
    && (r < 12 ==> o.fragment == []) && (r < 11 ==> o.hashes == []) && (r < 10 ==> o.query == [])
    && (r < 9 ==> o.ask == []) && (r < 8 ==> o.path == []) && (r < 4 ==> o.server == []) && (r < 1 ==> o.marks == [])
  }

  lemma BehindLast(o: Outer, r: int)
    requires OuterRank(r) && Behind(o, r)
    ensures LastIs(Pieces(o), r)
  {
  }

  lemma PutPieces(o: Outer, r: int, c: Byte)
    requires OuterRank(r) && Behind(o, r)
    ensures Flatten(Pieces(Put(o, r, c))) == Flatten(Pieces(o)) + [c]
    ensures PieceRanks(Pieces(Put(o, r, c)), 0) == PieceRanks(Pieces(o), 0) + [r]
  {
    BehindLast(o, r);
    PutJoins(Pieces(o), 0, r, c);
    assert Pieces(Put(o, r, c)) == Pieces(o)[r := Pieces(o)[r] + [c]];
  }

  // ---- forwards ----

  /** A character that does not stop the machine goes to the piece with the rank of
      the state it leads to. */
  predicate Goes(o: Outer, isConnect: bool, c: Byte, t: UrlState) {
    && OuterRank(UrlRank(t)) && Behind(o, UrlRank(t))
    && Well(Put(o, UrlRank(t), c), isConnect) && StateOf(Put(o, UrlRank(t), c), isConnect) == t
  }

  lemma ToSchema(o: Outer, isConnect: bool, c: Byte, t: UrlState)
    requires Well(o, isConnect) && t == UrlStep(StateOf(o, isConnect), c) && UrlRank(t) == 0
    ensures Goes(o, isConnect, c, t)
  {
    SnocChars(o.schema, c);
  }

  lemma ToMarks(o: Outer, isConnect: bool, c: Byte, t: UrlState)
    requires Well(o, isConnect) && t == UrlStep(StateOf(o, isConnect), c) && UrlRank(t) == 1
    ensures Goes(o, isConnect, c, t)
  {
    SnocChars(o.marks, c);
  }

  lemma ToServer(o: Outer, isConnect: bool, c: Byte, t: UrlState)
    requires Well(o, isConnect) && t == UrlStep(StateOf(o, isConnect), c) && UrlRank(t) == 4
    ensures Goes(o, isConnect, c, t)
  {
    SnocChars(o.server, c);
  }

  lemma ToPath(o: Outer, isConnect: bool, c: Byte, t: UrlState)
    requires Well(o, isConnect) && t == UrlStep(StateOf(o, isConnect), c) && UrlRank(t) == 8
    ensures Goes(o, isConnect, c, t)
  {
    SnocChars(o.path, c);
  }

  lemma ToAsk(o: Outer, isConnect: bool, c: Byte, t: UrlState)
    requires Well(o, isConnect) && t == UrlStep(StateOf(o, isConnect), c) && UrlRank(t) == 9
    ensures Goes(o, isConnect, c, t)
  {
    SnocChars(o.ask, c);
  }

  lemma ToQuery(o: Outer, isConnect: bool, c: Byte, t: UrlState)
    requires Well(o, isConnect) && t == UrlStep(StateOf(o, isConnect), c) && UrlRank(t) == 10
    ensures Goes(o, isConnect, c, t)
  {
    SnocChars(o.query, c);
  }

  lemma ToHashes(o: Outer, isConnect: bool, c: Byte, t: UrlState)
    requires Well(o, isConnect) && t == UrlStep(StateOf(o, isConnect), c) && UrlRank(t) == 11
    ensures Goes(o, isConnect, c, t)
  {
    SnocChars(o.hashes, c);
  }

  lemma ToFragment(o: Outer, isConnect: bool, c: Byte, t: UrlState)
    requires Well(o, isConnect) && t == UrlStep(StateOf(o, isConnect), c) && UrlRank(t) == 12
    ensures Goes(o, isConnect, c, t)
  {
    SnocChars(o.fragment, c);
  }

  lemma Forward(o: Outer, isConnect: bool, c: Byte, t: UrlState)
    requires Well(o, isConnect) && t == UrlStep(StateOf(o, isConnect), c) && !t.UrlDead?
    ensures Goes(o, isConnect, c, t)
  {
    match UrlRank(t)
    case 0 => ToSchema(o, isConnect, c, t);
    case 1 => ToMarks(o, isConnect, c, t);
    case 4 => ToServer(o, isConnect, c, t);
    case 8 => ToPath(o, isConnect, c, t);
    case 9 => ToAsk(o, isConnect, c, t);
    case 10 => ToQuery(o, isConnect, c, t);
    case 11 => ToHashes(o, isConnect, c, t);
    case 12 => ToFragment(o, isConnect, c, t);
    case -1 => assert false;
    case _ =>
  }

  // ---- backwards ----

  const EMPTY: Outer := Outer([], [], [], [], [], [], [], [])

  /** The piece with rank `r`, but for its last character `c`. */
  predicate Comes(o: Outer, o': Outer, isConnect: bool, r: int, c: Byte) {
    && r == UrlRank(StateOf(o, isConnect)) && OuterRank(r) && Behind(o', r) && o == Put(o', r, c)
    && Well(o', isConnect) && UrlStep(StateOf(o', isConnect), c) == StateOf(o, isConnect)
  }

  /** `o` is `o'` with one character more in its last piece. */
  predicate Puts(o: Outer, o': Outer, isConnect: bool, r: int, c: Byte) {
    Well(o, isConnect) && OuterRank(r) && o == Put(o', r, c) && Behind(o', r)
  }

  lemma FromFragment(o: Outer, o': Outer, isConnect: bool, r: int, c: Byte)
    requires Puts(o, o', isConnect, r, c) && r == 12
    ensures Comes(o, o', isConnect, r, c)
  {
    SnocChars(o'.fragment, c);
  }

  lemma FromHashes(o: Outer, o': Outer, isConnect: bool, r: int, c: Byte)
    requires Puts(o, o', isConnect, r, c) && r == 11
    ensures Comes(o, o', isConnect, r, c)
  {
    SnocChars(o'.hashes, c);
  }

  lemma FromQuery(o: Outer, o': Outer, isConnect: bool, r: int, c: Byte)
    requires Puts(o, o', isConnect, r, c) && r == 10
    ensures Comes(o, o', isConnect, r, c)
  {
    SnocChars(o'.query, c);
  }

  lemma FromAsk(o: Outer, o': Outer, isConnect: bool, r: int, c: Byte)
    requires Puts(o, o', isConnect, r, c) && r == 9
    ensures Comes(o, o', isConnect, r, c)
  {
    OneChar(o'.ask, c);
  }

  lemma FromPath(o: Outer, o': Outer, isConnect: bool, r: int, c: Byte)
    requires Puts(o, o', isConnect, r, c) && r == 8
    ensures Comes(o, o', isConnect, r, c)
  {
    SnocChars(o'.path, c);
  }

  lemma FromServer(o: Outer, o': Outer, isConnect: bool, r: int, c: Byte)
    requires Puts(o, o', isConnect, r, c) && r == 4
    ensures Comes(o, o', isConnect, r, c)
  {
    SnocChars(o'.server, c);
  }

  lemma FromMarks(o: Outer, o': Outer, isConnect: bool, r: int, c: Byte)
    requires Puts(o, o', isConnect, r, c) && r == 1
    ensures Comes(o, o', isConnect, r, c)
  {
    SnocChars(o'.marks, c);
  }

  lemma FromSchema(o: Outer, o': Outer, isConnect: bool, r: int, c: Byte)
    requires Puts(o, o', isConnect, r, c) && r == 0
    ensures Comes(o, o', isConnect, r, c)
  {
    SnocChars(o'.schema, c);
  }

  lemma AnyPut(o: Outer, o': Outer, isConnect: bool, r: int, c: Byte)
    requires Puts(o, o', isConnect, r, c)
    ensures Comes(o, o', isConnect, r, c)
  {
    match r
    case 0 => FromSchema(o, o', isConnect, r, c);
    case 1 => FromMarks(o, o', isConnect, r, c);
    case 4 => FromServer(o, o', isConnect, r, c);
    case 8 => FromPath(o, o', isConnect, r, c);
    case 9 => FromAsk(o, o', isConnect, r, c);
    case 10 => FromQuery(o, o', isConnect, r, c);
    case 11 => FromHashes(o, o', isConnect, r, c);
    case _ => FromFragment(o, o', isConnect, r, c);
  }

  /** The last character of all, and what is left without it. */
  lemma Uncons(o: Outer, isConnect: bool) returns (o': Outer, r: int, c: Byte)
    requires Well(o, isConnect) && o != EMPTY
    ensures Puts(o, o', isConnect, r, c)
  {
    r := LastRank(o);
    var t := Pieces(o)[r];
    c := Last(t);
    o' := Replace(o, r, Front(t));
    FrontLast(t);
    PutBack(o, r, t, Front(t), c);
  }

  function LastRank(o: Outer): (r: int)
    requires o != EMPTY
    ensures OuterRank(r) && Behind(o, r) && Pieces(o)[r] != []
  {
    if o.fragment != [] then 12
    else if o.hashes != [] then 11
    else if o.query != [] then 10
    else if o.ask != [] then 9
    else if o.path != [] then 8
    else if o.server != [] then 4
    else if o.marks != [] then 1
    else 0
  }

  function Replace(o: Outer, r: int, t: Text): Outer {
    match r
    case 0 => o.(schema := t)
    case 1 => o.(marks := t)
    case 4 => o.(server := t)
    case 8 => o.(path := t)
    case 9 => o.(ask := t)
    case 10 => o.(query := t)
    case 11 => o.(hashes := t)
    case _ => o.(fragment := t)
  }

  lemma PutBack(o: Outer, r: int, t: Text, front: Text, c: Byte)
    requires OuterRank(r) && t == Pieces(o)[r] == front + [c] && Behind(o, r)
    ensures Put(Replace(o, r, front), r, c) == o && Behind(Replace(o, r, front), r)
  {
  }

  // ---- both ----

  /** The pieces `o` are what the machine makes of the text. */
  predicate Reads(o: Outer, isConnect: bool, text: Text) {
    var s0 := UrlStart(isConnect);
    && Well(o, isConnect) && Flatten(Pieces(o)) == text
    && UrlWalk(s0, text) == StateOf(o, isConnect) && UrlRanks(s0, text) == PieceRanks(Pieces(o), 0)
  }

  lemma EmptyReads(isConnect: bool)
    ensures Reads(EMPTY, isConnect, []) && Well(EMPTY, isConnect)
  {
    AllEmpty(Pieces(EMPTY), 0);
  }

  lemma ReadsMore(o: Outer, o': Outer, isConnect: bool, text: Text, r: int, c: Byte)
    requires Reads(o, isConnect, text) && o' == Put(o, r, c) && Well(o', isConnect) && OuterRank(r) && Behind(o, r)
    requires UrlStep(StateOf(o, isConnect), c) == StateOf(o', isConnect) && r == UrlRank(StateOf(o', isConnect))
    ensures Reads(o', isConnect, text + [c])
  {
    assert (text + [c])[..|text|] == text;
    PutPieces(o, r, c);
  }

  /** A text that does not stop the machine is made of well-formed pieces, */
  lemma {:induction false} WalkIsWell(isConnect: bool, text: Text) returns (o: Outer)
    requires !UrlWalk(UrlStart(isConnect), text).UrlDead?
    ensures Reads(o, isConnect, text)
    decreases |text|
  {
    if text == [] {
      EmptyReads(isConnect);
      return EMPTY;
    }
    var front := WalkIsWell(isConnect, Front(text));
    var t := UrlWalk(UrlStart(isConnect), text);
    Forward(front, isConnect, Last(text), t);
    ReadsMore(front, Put(front, UrlRank(t), Last(text)), isConnect, Front(text), UrlRank(t), Last(text));
    FrontLast(text);
    return Put(front, UrlRank(t), Last(text));
  }

  /** and well-formed pieces do not stop the machine. */
  lemma {:induction false} WellWalks(o: Outer, isConnect: bool)
    requires Well(o, isConnect)
    ensures Reads(o, isConnect, Flatten(Pieces(o)))
    decreases |Flatten(Pieces(o))|
  {
    if o == EMPTY {
      EmptyReads(isConnect);
    } else {
      var o', r, c := Uncons(o, isConnect);
      AnyPut(o, o', isConnect, r, c);
      PutPieces(o', r, c);
      WellWalks(o', isConnect);
      ReadsMore(o', o, isConnect, Flatten(Pieces(o')), r, c);
    }
  }
}
