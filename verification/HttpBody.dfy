// The body states of http_parser_execute in include/http/http_parser.hpp:
// chunked bodies, bodies of a known length, and bodies that end with the
// connection. The states of trailers and of the next message are not part of
// the model: the machine rests when it reaches them.
module HttpBody {
  import opened Circular
  import opened HttpDigits
  import opened Seqs

  const CR: Byte := 0x0D
  const LF: Byte := 0x0A
  const SEMICOLON: Byte := 0x3B
  const CRLF: seq<Byte> := [CR, LF]

  datatype State =
    | SizeStart | Size | Parameters | SizeAlmostDone
    | Data | DataAlmostDone | DataDone
    | Trailers
    | Identity | IdentityEof
    | Done

  datatype Errno = Ok | HeaderOverflow | InvalidChunkSize | InvalidContentLength | Strict | InvalidEofState

  /** What the callbacks are told, byte by byte. */
  datatype Event = BodyByte(b: Byte) | ChunkHeader(length: nat) | ChunkComplete | MessageComplete

  datatype Machine = Machine(st: State, length: nat, nread: nat, err: Errno, log: seq<Event>)

  /** The parser has left the body for the trailers or for the next message. */
  predicate Left(st: State) { st.Trailers? || st.Done? }

  /** PARSING_HEADER: the states whose bytes count against the header limit. */
  predicate Counted(st: State) { st.SizeStart? || st.Size? || st.Parameters? || st.SizeAlmostDone? }

  // ---- the machine, one byte at a time ----

  function Take(m: Machine, c: Byte): Machine {
    match m.st
    case SizeStart =>
      if Unhex(c) == -1 then m.(err := InvalidChunkSize)
      else m.(length := Unhex(c), st := Size)
    case Size =>
      if c == CR then m.(st := SizeAlmostDone)
      else if Unhex(c) == -1 then
        if c == SEMICOLON || c == SP then m.(st := Parameters) else m.(err := InvalidChunkSize)
      else if m.length * 16 + Unhex(c) > ABSENT - 16 then m.(err := InvalidContentLength)
      else m.(length := m.length * 16 + Unhex(c))
    case Parameters =>
      if c == CR then m.(st := SizeAlmostDone) else m
    case SizeAlmostDone =>
      if c != LF then m.(err := Strict)
      else m.(nread := 0, st := if m.length == 0 then Trailers else Data, log := m.log + [ChunkHeader(m.length)])
    case Data =>
      if m.length <= 1 then m.(length := 0, st := DataAlmostDone, log := m.log + [BodyByte(c)])
      else m.(length := m.length - 1, log := m.log + [BodyByte(c)])
    case DataAlmostDone =>
      if c != CR then m.(err := Strict) else m.(st := DataDone)
    case DataDone =>
      if c != LF then m.(err := Strict)
      else m.(nread := 0, st := SizeStart, log := m.log + [ChunkComplete])
    case Identity =>
      if m.length <= 1 then m.(length := 0, st := Done, log := m.log + [BodyByte(c), MessageComplete])
      else m.(length := m.length - 1, log := m.log + [BodyByte(c)])
    case IdentityEof => m.(log := m.log + [BodyByte(c)])
    case Trailers => m
    case Done => m
  }

  function Step(limit: nat, m: Machine, c: Byte): Machine {
    if m.err != Ok || Left(m.st) then m
    else if !Counted(m.st) then Take(m, c)
    else
      var n := U32(m.nread + 1);
      if n > limit then m.(nread := n, err := HeaderOverflow) else Take(m.(nread := n), c)
  }

  function Feed(limit: nat, m: Machine, text: seq<Byte>): Machine {
    if text == [] then m else Step(limit, Feed(limit, m, text[..|text| - 1]), text[|text| - 1])
  }

  /** The state after the headers (2456-2512), for a message whose body is not
      skipped and whose connection is not upgraded. */
  function AfterHeaders(chunked: bool, length: nat, needsEof: bool): Machine {
    if chunked then Machine(SizeStart, length, 0, Ok, [])
    else if length == 0 then Machine(Done, length, 0, Ok, [MessageComplete])
    else if length != ABSENT then Machine(Identity, length, 0, Ok, [])
    else if needsEof then Machine(IdentityEof, length, 0, Ok, [])
    else Machine(Done, length, 0, Ok, [MessageComplete])
  }

  lemma FeedOne(limit: nat, m: Machine, c: Byte)
    ensures Feed(limit, m, [c]) == Step(limit, m, c)
  {
    assert Feed(limit, m, [c][..0]) == m;
  }

  lemma FeedSnoc(limit: nat, m: Machine, text: seq<Byte>, c: Byte)
    ensures Feed(limit, m, text + [c]) == Step(limit, Feed(limit, m, text), c)
  {
    assert (text + [c])[..|text|] == text;
  }

  /** Stopping between two texts and going on changes nothing. */
  lemma {:induction false} FeedAppend(limit: nat, m: Machine, a: seq<Byte>, b: seq<Byte>)
    ensures Feed(limit, m, a + b) == Feed(limit, Feed(limit, m, a), b)
    decreases |b|
  {
    if b == [] {
      assert a + b == a;
    } else {
      var n := |b| - 1;
      assert a + b == (a + b[..n]) + [b[n]];
      FeedSnoc(limit, m, a + b[..n], b[n]);
      FeedAppend(limit, m, a, b[..n]);
    }
  }

  /** Nothing moves a machine that failed or left the body. */
  lemma {:induction false} FeedStuck(limit: nat, m: Machine, text: seq<Byte>)
    requires m.err != Ok || Left(m.st)
    ensures Feed(limit, m, text) == m
    decreases |text|
  {
    if text != [] {
      FeedStuck(limit, m, text[..|text| - 1]);
    }
  }

  // ---- what every run keeps ----

  /** The assertions in the body states hold here. */
  predicate Sound(m: Machine) {
    && m.length <= ABSENT
    && (m.st.SizeStart? && m.err == Ok ==> m.nread == 0)
    && (m.st.Data? || m.st.Identity? ==> m.length != 0 && m.length != ABSENT)
    && (m.st.Size? || m.st.Parameters? || m.st.SizeAlmostDone? ==> m.length != ABSENT)
    && (m.st.DataAlmostDone? ==> m.length == 0)
  }

  lemma StepSound(limit: nat, m: Machine, c: Byte)
    requires Sound(m)
    ensures Sound(Step(limit, m, c))
  {
  }

  /** On any bytes at all, in any order. */
  lemma {:induction false} AlwaysSound(limit: nat, m: Machine, text: seq<Byte>)
    requires Sound(m)
    ensures Sound(Feed(limit, m, text))
    decreases |text|
  {
    if text != [] {
      AlwaysSound(limit, m, text[..|text| - 1]);
      StepSound(limit, Feed(limit, m, text[..|text| - 1]), text[|text| - 1]);
    }
  }

  /** The five outcomes of the headers: a chunked body, whatever length was given;
      none, because the length is zero; one of the given length; and without a
      length, one up to the end of the connection, or none. */
  lemma HeadersSound(chunked: bool, length: nat, needsEof: bool)
    requires length <= ABSENT
    ensures var m := AfterHeaders(chunked, length, needsEof);
            && Sound(m) && m.err == Ok && m.nread == 0
            && (chunked ==> m.st.SizeStart? && m.log == [])
            && (!chunked && length == 0 ==> m.st.Done? && m.log == [MessageComplete])
            && (!chunked && 0 < length < ABSENT ==> m.st.Identity? && m.length == length && m.log == [])
            && (!chunked && length == ABSENT && needsEof ==> m.st.IdentityEof? && m.log == [])
            && (!chunked && length == ABSENT && !needsEof ==> m.st.Done? && m.log == [MessageComplete])
  {
  }

  // ---- runs of body bytes ----

  function BodyBytes(d: seq<Byte>): (r: seq<Event>)
    ensures |r| == |d|
  {
    seq(|d|, i requires 0 <= i < |d| => BodyByte(d[i]))
  }

  lemma BodySnoc(d: seq<Byte>, log: seq<Event>, c: Byte)
    ensures log + BodyBytes(d + [c]) == log + BodyBytes(d) + [BodyByte(c)]
  {
    assert BodyBytes(d + [c]) == BodyBytes(d) + [BodyByte(c)];
  }

  /** What body bytes within the announced length do to the machine. */
  function AfterBody(m: Machine, d: seq<Byte>): Machine
    requires |d| <= m.length
  {
    if m.length > |d| then m.(length := m.length - |d|, log := m.log + BodyBytes(d))
    else if m.st.Data? then m.(length := 0, st := DataAlmostDone, log := m.log + BodyBytes(d))
    else m.(length := 0, st := Done, log := m.log + BodyBytes(d) + [MessageComplete])
  }

  lemma {:induction false} FeedBody(limit: nat, m: Machine, d: seq<Byte>)
    requires (m.st.Data? || m.st.Identity?) && m.err == Ok && 0 < |d| <= m.length
    ensures Feed(limit, m, d) == AfterBody(m, d)
    decreases |d|
  {
    var n := |d| - 1;
    var front, c := d[..n], d[n];
    assert d == front + [c];
    FeedSnoc(limit, m, front, c);
    BodySnoc(front, m.log, c);
    if n > 0 {
      FeedBody(limit, m, front);
    }
    assert m.log + BodyBytes([]) == m.log;
    assert m.log + BodyBytes(front) + [BodyByte(c), MessageComplete] == m.log + BodyBytes(d) + [MessageComplete];
  }

  lemma {:induction false} FeedEof(limit: nat, m: Machine, d: seq<Byte>)
    requires m.st.IdentityEof? && m.err == Ok
    ensures Feed(limit, m, d) == m.(log := m.log + BodyBytes(d))
    decreases |d|
  {
    if d == [] {
      assert m.log + BodyBytes([]) == m.log;
    } else {
      var n := |d| - 1;
      assert d == d[..n] + [d[n]];
      FeedEof(limit, m, d[..n]);
      BodySnoc(d[..n], m.log, d[n]);
    }
  }

  /** A body of a known length is that many bytes, and the message is then complete. */
  lemma IdentityBody(limit: nat, d: seq<Byte>, rest: seq<Byte>)
    requires 0 < |d| < ABSENT
    ensures Feed(limit, AfterHeaders(false, |d|, false), d + rest)
            == Machine(Done, 0, 0, Ok, BodyBytes(d) + [MessageComplete])
  {
    var m := AfterHeaders(false, |d|, false);
    FeedAppend(limit, m, d, rest);
    FeedBody(limit, m, d);
    FeedStuck(limit, AfterBody(m, d), rest);
    assert [] + BodyBytes(d) == BodyBytes(d);
  }

  /** A body without a length or chunks is all that comes. */
  lemma EofBody(limit: nat, d: seq<Byte>)
    ensures var m := Feed(limit, AfterHeaders(false, ABSENT, true), d);
            m.st.IdentityEof? && m.err == Ok && m.log == BodyBytes(d)
  {
    FeedEof(limit, AfterHeaders(false, ABSENT, true), d);
    assert [] + BodyBytes(d) == BodyBytes(d);
  }

  /** A message without a body is complete at once. */
  lemma NoBody(limit: nat, d: seq<Byte>)
    ensures Feed(limit, AfterHeaders(false, 0, false), d) == AfterHeaders(false, 0, false)
    ensures Feed(limit, AfterHeaders(false, 0, true), d) == AfterHeaders(false, 0, true)
    ensures Feed(limit, AfterHeaders(false, ABSENT, false), d) == AfterHeaders(false, ABSENT, false)
  {
    FeedStuck(limit, AfterHeaders(false, 0, false), d);
    FeedStuck(limit, AfterHeaders(false, 0, true), d);
    FeedStuck(limit, AfterHeaders(false, ABSENT, false), d);
  }

  // ---- resuming ----

  function Calls(limit: nat, m: Machine, pieces: seq<seq<Byte>>): Machine {
    if pieces == [] then m else Feed(limit, Calls(limit, m, pieces[..|pieces| - 1]), pieces[|pieces| - 1])
  }

  /** However a text is cut up, feeding the pieces is feeding the text. */
  lemma {:induction false} Resumable(limit: nat, m: Machine, pieces: seq<seq<Byte>>)
    ensures Calls(limit, m, pieces) == Feed(limit, m, Flatten(pieces))
    decreases |pieces|
  {
    if pieces != [] {
      var n := |pieces| - 1;
      Resumable(limit, m, pieces[..n]);
      FeedAppend(limit, m, Flatten(pieces[..n]), pieces[n]);
    }
  }

  // ---- the parser object ----

  /** A callback as the source makes it: body bytes come in slices. */
  datatype Callback = OnBody(slice: seq<Byte>) | OnChunkHeader(length: nat) | OnChunkComplete | OnMessageComplete

  function Told(c: Callback): seq<Event> {
    match c
    case OnBody(slice) => BodyBytes(slice)
    case OnChunkHeader(n) => [ChunkHeader(n)]
    case OnChunkComplete => [ChunkComplete]
    case OnMessageComplete => [MessageComplete]
  }

  function Expand(log: seq<Callback>): seq<Event> {
    if log == [] then [] else Expand(log[..|log| - 1]) + Told(log[|log| - 1])
  }

  lemma ExpandSnoc(log: seq<Callback>, c: Callback)
    ensures Expand(log + [c]) == Expand(log) + Told(c)
  {
    assert (log + [c])[..|log|] == log;
  }

  /** The bytes that are marked and not yet handed to a callback. */
  function Pending(data: seq<Byte>, mark: int, p: nat): seq<Event>
    requires p <= |data| && mark <= p
  {
    if mark < 0 then [] else BodyBytes(data[mark..p])
  }

  lemma PendingGrows(log: seq<Event>, data: seq<Byte>, mark: int, p: nat, q: nat)
    requires p <= q <= |data| && mark <= p
    ensures log + Pending(data, mark, p) + BodyBytes(data[p..q])
            == log + Pending(data, if mark < 0 then p else mark, q)
  {
    assert Pending(data, mark, p) + BodyBytes(data[p..q]) == Pending(data, if mark < 0 then p else mark, q);
  }
}
