// The second pass, over the host of a URL, read as a grammar in the same way.
module UrlHost {
  import opened Circular
  import opened Seqs
  import opened HttpDigits
  import opened UrlSplit
  import opened UrlPieces

  /** A host with its user info and port. `front` is what stands before the host
      itself, at sign and bracket; `back` what stands behind it, bracket and colon.
      An address in brackets may have a zone, with its percent sign. */
  datatype Inner = Inner(user: Text, front: Text, addr: Text, zone: Text, back: Text, port: Text)

  predicate UserinfoChars(t: Text) { forall c | c in t :: IsUserinfoChar(c) }
  predicate HostChars(t: Text) { forall c | c in t :: IsHostChar(c) }
  predicate AddressChars(t: Text) { forall c | c in t :: IsHexDigit(c) || c == COLON || c == DOT }
  predicate ZoneChars(t: Text) { forall c | c in t :: IsZoneChar(c) }
  predicate Numbers(t: Text) { forall c | c in t :: IsNumber(c) }

  predicate Bracketed(i: Inner) { i.front != [] && Last(i.front) == OPEN }

  /** A host may come next; with user info, it has ended. */
  predicate HostReady(i: Inner, withUser: bool) { !withUser || i.front != [] }

  predicate FrontOk(t: Text, withUser: bool) {
    if withUser then t == [] || t == [AT] || t == [AT, OPEN] else t == [] || t == [OPEN]
  }

  predicate HostOk(i: Inner, ready: bool) {
    && (if Bracketed(i) then AddressChars(i.addr) else HostChars(i.addr)) && (i.addr != [] ==> ready)
    && ZoneChars(i.zone) && (i.zone != [] ==> Bracketed(i) && i.zone[0] == PERCENT && i.addr != [])
  }

  predicate BackOk(t: Text, bracketed: bool, ended: bool) {
    t == [] || (ended && (if bracketed then t == [CLOSE] || t == [CLOSE, COLON] else t == [COLON]))
  }

  predicate Well(i: Inner, withUser: bool) {
    && UserinfoChars(i.user) && (i.user != [] ==> withUser) && FrontOk(i.front, withUser)
    && HostOk(i, HostReady(i, withUser))
    && BackOk(i.back, Bracketed(i), i.addr != [] && |i.zone| != 1)
    && Numbers(i.port) && (i.port != [] ==> i.back != [] && Last(i.back) == COLON)
  }

  function StateOf(i: Inner, withUser: bool): HostState {
    if i.port != [] then InPort
    else if i.back != [] then (if Last(i.back) == COLON then PortStart else V6End)
    else if i.zone != [] then (if |i.zone| == 1 then V6ZoneStart else V6Zone)
    else if i.addr != [] then (if Bracketed(i) then V6 else InHost)
    else if Bracketed(i) then V6Start
    else if HostReady(i, withUser) then HostStart
    else if i.user != [] then InUserinfo
    else UserinfoStart
  }

  /** The pieces by rank. */
  function Pieces(i: Inner): (ps: seq<Text>)
    ensures |ps| == 7
  {
    [[], [], i.user, i.front, i.addr + i.zone, i.back, i.port]
  }

  /** One character more in the piece with rank `r`. */
  function Put(i: Inner, r: int, c: Byte): Inner {
    match r
    case 2 => i.(user := i.user + [c])
    case 3 => i.(front := i.front + [c])
    case 4 =>
      if Bracketed(i) && (i.zone != [] || c == PERCENT) then i.(zone := i.zone + [c])
      else i.(addr := i.addr + [c])
    case 5 => i.(back := i.back + [c])
    case _ => i.(port := i.port + [c])
  }

  /** Nothing stands behind the piece with rank `r`. */
  predicate Behind(i: Inner, r: int) {
    && (r < 6 ==> i.port == []) && (r < 5 ==> i.back == []) && (r < 4 ==> i.zone == [] && i.addr == [])
    && (r < 3 ==> i.front == [])
  }

  lemma BehindLast(i: Inner, r: int)
    requires 2 <= r <= 6 && Behind(i, r)
    ensures LastIs(Pieces(i), r)
  {
  }

  lemma PutIs(i: Inner, r: int, c: Byte)
    requires 2 <= r <= 6 && (Bracketed(i) || i.zone == [])
    ensures Pieces(Put(i, r, c)) == Pieces(i)[r := Pieces(i)[r] + [c]]
  {
    Assoc(i.addr, i.zone, [c]);
    if i.zone == [] {
      assert i.addr + i.zone == i.addr && (i.addr + [c]) + i.zone == i.addr + [c];
    }
  }

  lemma PutPieces(i: Inner, r: int, c: Byte)
    requires 2 <= r <= 6 && Behind(i, r) && (Bracketed(i) || i.zone == [])
    ensures Flatten(Pieces(Put(i, r, c))) == Flatten(Pieces(i)) + [c]
    ensures PieceRanks(Pieces(Put(i, r, c)), 0) == PieceRanks(Pieces(i), 0) + [r]
  {
    BehindLast(i, r);
    PutJoins(Pieces(i), 0, r, c);
    PutIs(i, r, c);
  }

  // ---- forwards ----

  /** A character that does not stop the machine goes to the piece with the rank of
      the state it leads to. */
  predicate Goes(i: Inner, withUser: bool, c: Byte, t: HostState) {
    && 2 <= HostRank(t) <= 6 && Behind(i, HostRank(t))
    && Well(Put(i, HostRank(t), c), withUser) && StateOf(Put(i, HostRank(t), c), withUser) == t
  }

  lemma ToUser(i: Inner, withUser: bool, c: Byte, t: HostState)
    requires Well(i, withUser) && t == HostStep(StateOf(i, withUser), c) && HostRank(t) <= 2
    ensures Goes(i, withUser, c, t)
  {
    SnocChars(i.user, c);
  }

  lemma ToFront(i: Inner, withUser: bool, c: Byte, t: HostState)
    requires Well(i, withUser) && t == HostStep(StateOf(i, withUser), c) && HostRank(t) == 3
    ensures Goes(i, withUser, c, t)
  {
    SnocChars(i.front, c);
  }

  lemma ToHost(i: Inner, withUser: bool, c: Byte, t: HostState)
    requires Well(i, withUser) && t == HostStep(StateOf(i, withUser), c) && HostRank(t) == 4
    ensures Goes(i, withUser, c, t)
  {
    if i.zone == [] && c != PERCENT {
      ToAddress(i, withUser, c, t);
    } else {
      ToZone(i, withUser, c, t);
    }
  }

  lemma ToAddress(i: Inner, withUser: bool, c: Byte, t: HostState)
    requires Well(i, withUser) && t == HostStep(StateOf(i, withUser), c) && HostRank(t) == 4
    requires i.zone == [] && c != PERCENT
    ensures Goes(i, withUser, c, t)
  {
    SnocChars(i.addr, c);
  }

  lemma ToZone(i: Inner, withUser: bool, c: Byte, t: HostState)
    requires Well(i, withUser) && t == HostStep(StateOf(i, withUser), c) && HostRank(t) == 4
    requires i.zone != [] || c == PERCENT
    ensures Goes(i, withUser, c, t)
  {
    if i.zone == [] {
      ToPercent(i, withUser, c, t);
    } else {
      SnocChars(i.zone, c);
    }
  }

  lemma ToPercent(i: Inner, withUser: bool, c: Byte, t: HostState)
    requires Well(i, withUser) && t == HostStep(StateOf(i, withUser), c) && HostRank(t) == 4
    requires i.zone == [] && c == PERCENT
    ensures Goes(i, withUser, c, t)
  {
    SnocChars(i.zone, c);
  }

  lemma ToBack(i: Inner, withUser: bool, c: Byte, t: HostState)
    requires Well(i, withUser) && t == HostStep(StateOf(i, withUser), c) && HostRank(t) == 5
    ensures Goes(i, withUser, c, t)
  {
    if c == CLOSE {
      ToClose(i, withUser, c, t);
    } else {
      ToColon(i, withUser, c, t);
    }
  }

  lemma ToClose(i: Inner, withUser: bool, c: Byte, t: HostState)
    requires Well(i, withUser) && t == HostStep(StateOf(i, withUser), c) && HostRank(t) == 5 && c == CLOSE
    ensures Goes(i, withUser, c, t)
  {
    assert i.back == [];
    assert [] + [c] == [c];
  }

  lemma ToColon(i: Inner, withUser: bool, c: Byte, t: HostState)
    requires Well(i, withUser) && t == HostStep(StateOf(i, withUser), c) && HostRank(t) == 5 && c != CLOSE
    ensures Goes(i, withUser, c, t)
  {
    assert i.back == [] || i.back == [CLOSE];
    assert [] + [c] == [c] && [CLOSE] + [c] == [CLOSE, c];
  }

  lemma ToPort(i: Inner, withUser: bool, c: Byte, t: HostState)
    requires Well(i, withUser) && t == HostStep(StateOf(i, withUser), c) && HostRank(t) == 6
    ensures Goes(i, withUser, c, t)
  {
    SnocChars(i.port, c);
  }

  lemma Forward(i: Inner, withUser: bool, c: Byte, t: HostState)
    requires Well(i, withUser) && t == HostStep(StateOf(i, withUser), c) && !t.HostDead?
    ensures Goes(i, withUser, c, t)
  {
    match HostRank(t)
    case 3 => ToFront(i, withUser, c, t);
    case 4 => ToHost(i, withUser, c, t);
    case 5 => ToBack(i, withUser, c, t);
    case 6 => ToPort(i, withUser, c, t);
    case _ => ToUser(i, withUser, c, t);
  }

  // ---- backwards ----

  const EMPTY: Inner := Inner([], [], [], [], [], [])

  /** `i` is `i'` with one character more in its last piece. */
  predicate Puts(i: Inner, i': Inner, withUser: bool, r: int, c: Byte) {
    Well(i, withUser) && 2 <= r <= 6 && i == Put(i', r, c) && Behind(i', r)
  }

  /** ... and the machine takes the same step. */
  predicate Comes(i: Inner, i': Inner, withUser: bool, r: int, c: Byte) {
    && r == HostRank(StateOf(i, withUser)) && 2 <= r <= 6 && Behind(i', r) && i == Put(i', r, c)
    && Well(i', withUser) && HostStep(StateOf(i', withUser), c) == StateOf(i, withUser)
  }

  lemma FromUser(i: Inner, i': Inner, withUser: bool, c: Byte)
    requires Puts(i, i', withUser, 2, c)
    ensures Comes(i, i', withUser, 2, c)
  {
    SnocChars(i'.user, c);
  }

  lemma FromFront(i: Inner, i': Inner, withUser: bool, c: Byte)
    requires Puts(i, i', withUser, 3, c)
    ensures Comes(i, i', withUser, 3, c)
  {
    OneChar(i'.front, c);
    TwoChars(i'.front, c);
  }

  lemma FromHost(i: Inner, i': Inner, withUser: bool, c: Byte)
    requires Puts(i, i', withUser, 4, c)
    ensures Comes(i, i', withUser, 4, c)
  {
    SnocChars(i'.addr, c);
    SnocChars(i'.zone, c);
  }

  lemma FromBack(i: Inner, i': Inner, withUser: bool, c: Byte)
    requires Puts(i, i', withUser, 5, c)
    ensures Comes(i, i', withUser, 5, c)
  {
    if |i.back| == 1 {
      FromBackFirst(i, i', withUser, c);
    } else {
      FromBackSecond(i, i', withUser, c);
    }
  }

  lemma FromBackFirst(i: Inner, i': Inner, withUser: bool, c: Byte)
    requires Puts(i, i', withUser, 5, c) && |i.back| == 1
    ensures Comes(i, i', withUser, 5, c)
  {
    OneChar(i'.back, c);
  }

  lemma FromBackSecond(i: Inner, i': Inner, withUser: bool, c: Byte)
    requires Puts(i, i', withUser, 5, c) && |i.back| != 1
    ensures Comes(i, i', withUser, 5, c)
  {
    TwoChars(i'.back, c);
  }

  lemma FromPort(i: Inner, i': Inner, withUser: bool, c: Byte)
    requires Puts(i, i', withUser, 6, c)
    ensures Comes(i, i', withUser, 6, c)
  {
    SnocChars(i'.port, c);
  }

  lemma AnyPut(i: Inner, i': Inner, withUser: bool, r: int, c: Byte)
    requires Puts(i, i', withUser, r, c)
    ensures Comes(i, i', withUser, r, c)
  {
    match r
    case 2 => FromUser(i, i', withUser, c);
    case 3 => FromFront(i, i', withUser, c);
    case 4 => FromHost(i, i', withUser, c);
    case 5 => FromBack(i, i', withUser, c);
    case _ => FromPort(i, i', withUser, c);
  }

  function LastRank(i: Inner): (r: int)
    requires i != EMPTY
    ensures 2 <= r <= 6 && Behind(i, r) && (r != 4 ==> Pieces(i)[r] != []) && (r == 4 ==> i.zone != [] || i.addr != [])
  {
    if i.port != [] then 6
    else if i.back != [] then 5
    else if i.zone != [] || i.addr != [] then 4
    else if i.front != [] then 3
    else 2
  }

  lemma UnconsEnd(i: Inner, withUser: bool, r: int) returns (i': Inner, c: Byte)
    requires Well(i, withUser) && r != 4 && 2 <= r <= 6 && Behind(i, r) && Pieces(i)[r] != []
    ensures Puts(i, i', withUser, r, c)
  {
    var t := Pieces(i)[r];
    FrontLast(t);
    c := Last(t);
    i' := match r
      case 2 => i.(user := Front(t))
      case 3 => i.(front := Front(t))
      case 5 => i.(back := Front(t))
      case _ => i.(port := Front(t));
  }

  lemma UnconsZone(i: Inner, withUser: bool) returns (i': Inner, c: Byte)
    requires Well(i, withUser) && Behind(i, 4) && i.zone != []
    ensures Puts(i, i', withUser, 4, c)
  {
    FrontLast(i.zone);
    c := Last(i.zone);
    i' := i.(zone := Front(i.zone));
  }

  lemma UnconsAddress(i: Inner, withUser: bool) returns (i': Inner, c: Byte)
    requires Well(i, withUser) && Behind(i, 4) && i.zone == [] && i.addr != []
    ensures Puts(i, i', withUser, 4, c)
  {
    assert Last(i.addr) in i.addr;
    FrontLast(i.addr);
    c := Last(i.addr);
    i' := i.(addr := Front(i.addr));
  }

  /** The last character of all, and what is left without it. */
  lemma Uncons(i: Inner, withUser: bool) returns (i': Inner, r: int, c: Byte)
    requires Well(i, withUser) && i != EMPTY
    ensures Puts(i, i', withUser, r, c)
  {
    r := LastRank(i);
    if r != 4 {
      i', c := UnconsEnd(i, withUser, r);
    } else if i.zone != [] {
      i', c := UnconsZone(i, withUser);
    } else {
      i', c := UnconsAddress(i, withUser);
    }
  }

  // ---- both ----

  function Begin(withUser: bool): HostState { if withUser then UserinfoStart else HostStart }

  /** The pieces `i` are what the machine makes of the text. */
  predicate Reads(i: Inner, withUser: bool, text: Text) {
    && Well(i, withUser) && Flatten(Pieces(i)) == text
    && HostWalk(Begin(withUser), text) == StateOf(i, withUser)
    && HostRanks(Begin(withUser), text) == PieceRanks(Pieces(i), 0)
  }

  lemma EmptyReads(withUser: bool)
    ensures Reads(EMPTY, withUser, []) && Well(EMPTY, withUser)
  {
    AllEmpty(Pieces(EMPTY), 0);
  }

  lemma ReadsMore(i: Inner, i': Inner, withUser: bool, text: Text, r: int, c: Byte)
    requires Reads(i, withUser, text) && i' == Put(i, r, c) && Well(i', withUser) && 2 <= r <= 6 && Behind(i, r)
    requires HostStep(StateOf(i, withUser), c) == StateOf(i', withUser) && r == HostRank(StateOf(i', withUser))
    ensures Reads(i', withUser, text + [c])
  {
    assert (text + [c])[..|text|] == text;
    PutPieces(i, r, c);
  }

  /** A host that does not stop the machine is made of well-formed pieces, */
  lemma {:induction false} WalkIsWell(withUser: bool, text: Text) returns (i: Inner)
    requires !HostWalk(Begin(withUser), text).HostDead?
    ensures Reads(i, withUser, text)
    decreases |text|
  {
    if text == [] {
      EmptyReads(withUser);
      return EMPTY;
    }
    var front := WalkIsWell(withUser, Front(text));
    var t := HostWalk(Begin(withUser), text);
    Forward(front, withUser, Last(text), t);
    ReadsMore(front, Put(front, HostRank(t), Last(text)), withUser, Front(text), HostRank(t), Last(text));
    FrontLast(text);
    return Put(front, HostRank(t), Last(text));
  }

  /** and well-formed pieces do not stop the machine. */
  lemma {:induction false} WellWalks(i: Inner, withUser: bool)
    requires Well(i, withUser)
    ensures Reads(i, withUser, Flatten(Pieces(i)))
    decreases |Flatten(Pieces(i))|
  {
    if i == EMPTY {
      EmptyReads(withUser);
    } else {
      var i', r, c := Uncons(i, withUser);
      AnyPut(i, i', withUser, r, c);
      PutPieces(i', r, c);
      WellWalks(i', withUser);
      ReadsMore(i', i, withUser, Flatten(Pieces(i')), r, c);
    }
  }
}
