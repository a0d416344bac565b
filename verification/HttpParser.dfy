// The parser object of include/http/http_parser.hpp in its body states. It
// jumps over whole runs of body bytes and hands them out in slices; the
// contracts tie it to the machine that reads one byte at a time.
module HttpParser {
  import opened Circular
  import opened HttpDigits
  import opened HttpBody
  import opened Seqs

  /** Whether a mark may be set in a state. */
  predicate Marked(st: State) { st.Data? || st.DataAlmostDone? || st.Identity? || st.IdentityEof? }

  /** How a call ends. It reports what the byte-by-byte machine reports, except
      that body bytes still marked when the input is refused are not reported. */
  ghost predicate Outcome(limit: nat, before: Machine, data: seq<Byte>, after: Machine, consumed: nat) {
    var f := Feed(limit, before, data);
    && consumed <= |data|
    && Feed(limit, before, data[..consumed]).err == Ok
    && (f.err == Ok ==>
          && after == f == Feed(limit, before, data[..consumed])
          && (consumed < |data| ==> Left(f.st)))
    && (f.err != Ok ==>
          && consumed < |data| && f == Feed(limit, before, data[..consumed + 1])
          && after == f.(log := after.log)
          && exists held: seq<Byte> :: f.log == after.log + BodyBytes(held))
  }

  lemma FeedNext(limit: nat, m: Machine, data: seq<Byte>, p: nat)
    requires p < |data|
    ensures Feed(limit, m, data[..p + 1]) == Step(limit, Feed(limit, m, data[..p]), data[p])
  {
    assert data[..p + 1] == data[..p] + [data[p]];
    FeedSnoc(limit, m, data[..p], data[p]);
  }

  lemma FeedPiece(limit: nat, m: Machine, data: seq<Byte>, p: nat, q: nat)
    requires p <= q <= |data|
    ensures Feed(limit, m, data[..q]) == Feed(limit, Feed(limit, m, data[..p]), data[p..q])
  {
    assert data[..q] == data[..p] + data[p..q];
    FeedAppend(limit, m, data[..p], data[p..q]);
  }

  lemma FeedRest(limit: nat, m: Machine, data: seq<Byte>, p: nat)
    requires p <= |data|
    requires var now := Feed(limit, m, data[..p]); now.err != Ok || Left(now.st)
    ensures Feed(limit, m, data) == Feed(limit, m, data[..p])
  {
    assert data == data[..p] + data[p..];
    FeedAppend(limit, m, data[..p], data[p..]);
    FeedStuck(limit, Feed(limit, m, data[..p]), data[p..]);
  }

  lemma Finished(limit: nat, before: Machine, data: seq<Byte>, after: Machine, p: nat)
    requires p <= |data| && Feed(limit, before, data[..p]) == after && after.err == Ok
    requires p == |data| || Left(after.st)
    ensures Outcome(limit, before, data, after, p)
  {
    if p == |data| {
      assert data[..p] == data;
    } else {
      FeedRest(limit, before, data, p);
    }
  }

  lemma Refused(limit: nat, before: Machine, data: seq<Byte>, now: Machine, after: Machine, p: nat, mark: int)
    requires p < |data| && mark <= p && Feed(limit, before, data[..p]) == now && now.err == Ok
    requires var f := Step(limit, now, data[p]);
             f.err != Ok && after == f.(log := after.log) && f.log == after.log + Pending(data, mark, p)
    ensures Outcome(limit, before, data, after, p)
  {
    var f := Step(limit, now, data[p]);
    FeedNext(limit, before, data, p);
    FeedRest(limit, before, data, p + 1);
    var held := if mark < 0 then [] else data[mark..p];
    assert BodyBytes(held) == Pending(data, mark, p);
  }

  /** What a series of calls can do, each with a nonempty piece of a text. */
  ghost predicate Ran(limit: nat, before: Machine, pieces: seq<seq<Byte>>, after: Machine)
    decreases |pieces|
  {
    if pieces == [] then after == before
    else
      var n := |pieces| - 1;
      exists mid, consumed: nat ::
        Ran(limit, before, pieces[..n], mid) && pieces[n] != [] && Called(limit, mid, pieces[n], after, consumed)
  }

  /** One call: a parser that has failed does nothing. */
  ghost predicate Called(limit: nat, before: Machine, data: seq<Byte>, after: Machine, consumed: nat) {
    if before.err == Ok then Outcome(limit, before, data, after, consumed) else after == before && consumed == 0
  }

  /** The calls end where the byte-by-byte machine ends, if that accepts the text. */
  lemma {:induction false} RanIsFeed(limit: nat, before: Machine, pieces: seq<seq<Byte>>, after: Machine)
    requires Ran(limit, before, pieces, after) && Feed(limit, before, Flatten(pieces)).err == Ok
    ensures after == Feed(limit, before, Flatten(pieces))
    decreases |pieces|
  {
    if pieces != [] {
      var n := |pieces| - 1;
      var mid, consumed: nat :|
        Ran(limit, before, pieces[..n], mid) && pieces[n] != [] && Called(limit, mid, pieces[n], after, consumed);
      var front := Feed(limit, before, Flatten(pieces[..n]));
      FeedAppend(limit, before, Flatten(pieces[..n]), pieces[n]);
      if front.err != Ok {
        FeedStuck(limit, front, pieces[n]);
      }
      RanIsFeed(limit, before, pieces[..n], mid);
    }
  }

  /** Input that one call accepts leads to the same state, and the callbacks
      report the same bytes, however it is cut up over several calls. */
  lemma CutAnywhere(
    limit: nat, before: Machine, pieces: seq<seq<Byte>>, whole: Machine, consumed: nat, after: Machine)
    requires Called(limit, before, Flatten(pieces), whole, consumed) && whole.err == Ok
    requires Ran(limit, before, pieces, after)
    ensures after == whole
  {
    RanIsFeed(limit, before, pieces, after);
  }

  class BodyParser {
    /** max_header_size */
    const limit: nat
    var state: State
    var contentLength: nat
    var nread: nat
    var errno: Errno
    /** The callbacks made so far. */
    var log: seq<Callback>

    ghost function Model(): Machine
      reads this
    {
      Machine(state, contentLength, nread, errno, Expand(log))
    }

    ghost predicate Valid()
      reads this
    {
      Sound(Model())
    }

    /** The machine in the middle of a call: the marked bytes count as read. */
    ghost function Now(st: State, nr: nat, data: seq<Byte>, mark: int, p: nat): Machine
      requires p <= |data| && mark <= p
      reads this
    {
      Machine(st, contentLength, nr, errno, Expand(log) + Pending(data, mark, p))
    }

    constructor (maxHeaderSize: nat, chunked: bool, length: nat, needsEof: bool)
      requires length <= ABSENT
      ensures Valid() && limit == maxHeaderSize && Model() == AfterHeaders(chunked, length, needsEof)
    {
      limit := maxHeaderSize;
      contentLength, nread, errno, log := length, 0, Ok, [];
      if chunked {
        state := SizeStart;
      } else if length == 0 {
        state := Done;
        log := [OnMessageComplete];
      } else if length != ABSENT {
        state := Identity;
      } else if needsEof {
        state := IdentityEof;
      } else {
        state := Done;
        log := [OnMessageComplete];
      }
      new;
      ExpandSnoc([], OnMessageComplete);
      assert [] + [OnMessageComplete] == [OnMessageComplete];
      HeadersSound(chunked, length, needsEof);
    }

    method Notify(c: Callback)
      modifies this`log
      ensures Expand(log) == old(Expand(log)) + Told(c)
    {
      ExpandSnoc(log, c);
      log := log + [c];
    }

    /** CALLBACK_DATA on the body mark. */
    method Deliver(data: seq<Byte>, mark: int, p: nat)
      requires p <= |data| && mark <= p
      modifies this`log
      ensures Expand(log) == old(Expand(log)) + Pending(data, mark, p)
    {
      if mark >= 0 {
        Notify(OnBody(data[mark..p]));
      }
    }

    /** A byte of the line that gives a chunk's size. */
    method TakeSize(st: State, ghost nr: nat, ghost seen: seq<Event>, c: Byte) returns (next: State)
      requires st.SizeStart? || st.Size? || st.Parameters?
      requires errno == Ok
      modifies this`contentLength, this`errno
      ensures Machine(next, contentLength, nr, errno, seen)
              == Take(Machine(st, old(contentLength), nr, Ok, seen), c)
    {
      next := st;
      var digit := Unhex(c);
      match st {
        case SizeStart =>
          if digit == -1 {
            errno := InvalidChunkSize;
          } else {
            contentLength := digit;
            next := Size;
          }
        case Size =>
          if c == CR {
            next := SizeAlmostDone;
          } else if digit == -1 {
            if c == SEMICOLON || c == SP {
              next := Parameters;
            } else {
              errno := InvalidChunkSize;
            }
          } else {
            var ok, t := Accumulate(16, contentLength, digit);
            if ok {
              contentLength := t;
            } else {
              errno := InvalidContentLength;
            }
          }
        case Parameters =>
          if c == CR {
            next := SizeAlmostDone;
          }
      }
    }

    /** The LF after the size line (s_chunk_size_almost_done). */
    method EndSize(nr: nat, ghost m: Machine, c: Byte) returns (next: State, nr': nat)
      requires errno == Ok && m == Machine(SizeAlmostDone, contentLength, nr, Ok, Expand(log))
      modifies this`errno, this`log
      ensures Machine(next, contentLength, nr', errno, Expand(log)) == Take(m, c)
    {
      next, nr' := SizeAlmostDone, nr;
      if c != LF {
        errno := Strict;
      } else {
        nr' := 0;
        next := if contentLength == 0 then Trailers else Data;
        Notify(OnChunkHeader(contentLength));
      }
    }

    /** The CR after a chunk's data (s_chunk_data_almost_done), where the marked
        bytes are handed out. */
    method EndData(nr: nat, ghost m: Machine, data: seq<Byte>, mark: int, p: nat) returns (next: State, mark': int)
      requires p < |data| && mark <= p
      requires errno == Ok && m == Now(DataAlmostDone, nr, data, mark, p)
      modifies this`errno, this`log
      ensures mark' == if errno == Ok then -1 else mark
      ensures Machine(next, contentLength, nr, errno, Expand(log) + Pending(data, mark', p)) == Take(m, data[p])
    {
      next, mark' := DataAlmostDone, mark;
      if data[p] != CR {
        errno := Strict;
      } else {
        next := DataDone;
        Deliver(data, mark, p);
        mark' := -1;
        assert Expand(log) + Pending(data, -1, p) == m.log;
      }
    }

    /** The LF that ends a chunk (s_chunk_data_done). */
    method EndChunk(nr: nat, ghost m: Machine, c: Byte) returns (next: State, nr': nat)
      requires errno == Ok && m == Machine(DataDone, contentLength, nr, Ok, Expand(log))
      modifies this`errno, this`log
      ensures Machine(next, contentLength, nr', errno, Expand(log)) == Take(m, c)
    {
      next, nr' := DataDone, nr;
      if c != LF {
        errno := Strict;
      } else {
        nr' := 0;
        next := SizeStart;
        Notify(OnChunkComplete);
      }
    }

    /** As many body bytes as the piece and the announced length allow. */
    method TakeBody(st: State, ghost m: Machine, data: seq<Byte>, mark: int, p: nat)
      returns (next: State, mark': int, q: nat)
      requires (st.Data? || st.Identity?) && contentLength != 0 && errno == Ok
      requires p < |data| && mark <= p && m == Now(st, m.nread, data, mark, p)
      modifies this`contentLength, this`log
      ensures p < q <= |data| && mark' <= q && (mark' >= 0 ==> Marked(next))
      ensures Now(next, m.nread, data, mark', q) == Feed(limit, m, data[p..q])
    {
      var toRead := Min(contentLength, |data| - p);
      mark' := if mark < 0 then p else mark;
      q := p + toRead;
      FeedBody(limit, m, data[p..q]);
      PendingGrows(Expand(log), data, mark, p, q);
      contentLength := contentLength - toRead;
      next := st;
      if contentLength == 0 {
        if st.Data? {
          next := DataAlmostDone;
        } else {
          next := Done;
          Deliver(data, mark', q);
          Notify(OnMessageComplete);
          mark' := -1;
          assert Expand(log) + [] == Expand(log);
        }
      }
    }

    /** Bytes up to the end of the piece, for a body that the connection's end closes. */
    method TakeRest(ghost m: Machine, data: seq<Byte>, mark: int, p: nat) returns (mark': int, q: nat)
      requires p < |data| && mark <= p && errno == Ok && m == Now(IdentityEof, m.nread, data, mark, p)
      ensures p < q <= |data| && mark' <= q
      ensures Now(IdentityEof, m.nread, data, mark', q) == Feed(limit, m, data[p..q])
    {
      mark' := if mark < 0 then p else mark;
      q := |data|;
      FeedEof(limit, m, data[p..q]);
      PendingGrows(Expand(log), data, mark, p, q);
    }

    /** One turn of the loop over the input. */
    method Turn(data: seq<Byte>, p: nat, st: State, nr: nat, mark: int)
      returns (q: nat, next: State, nr': nat, mark': int)
      requires p < |data| && mark <= p && (mark >= 0 ==> Marked(st)) && errno == Ok && !Left(st)
      requires Sound(Now(st, nr, data, mark, p))
      modifies this`contentLength, this`errno, this`log
      ensures mark' <= q <= |data|
      ensures errno == Ok ==>
                && p < q && (mark' >= 0 ==> Marked(next))
                && Now(next, nr', data, mark', q) == Feed(limit, old(Now(st, nr, data, mark, p)), data[p..q])
      ensures errno != Ok ==>
                && q == p && Now(next, nr', data, mark', p) == Step(limit, old(Now(st, nr, data, mark, p)), data[p])
    {
      ghost var m := Now(st, nr, data, mark, p);
      assert data[p..p + 1] == [data[p]];
      FeedOne(limit, m, data[p]);
      q, next, nr', mark' := p, st, nr, mark;
      if Counted(st) {
        nr' := U32(nr + 1);
        if nr' > limit {
          errno := HeaderOverflow;
          return;
        }
      }
      assert mark < 0 ==> Expand(log) + Pending(data, mark, p) == Expand(log);
      match st {
        case SizeStart =>
          assert nr' == 1;
          next := TakeSize(st, nr', m.log, data[p]);
        case Size => next := TakeSize(st, nr', m.log, data[p]);
        case Parameters => next := TakeSize(st, nr', m.log, data[p]);
        case SizeAlmostDone => next, nr' := EndSize(nr', m.(nread := nr'), data[p]);
        case DataAlmostDone =>
          assert contentLength == 0;
          next, mark' := EndData(nr', m, data, mark, p);
        case DataDone => next, nr' := EndChunk(nr', m, data[p]);
        case Data =>
          assert contentLength != 0 && contentLength != ABSENT;
          next, mark', q := TakeBody(st, m, data, mark, p);
          return;
        case Identity =>
          assert contentLength != 0 && contentLength != ABSENT;
          next, mark', q := TakeBody(st, m, data, mark, p);
          return;
        case IdentityEof =>
          mark', q := TakeRest(m, data, mark, p);
          return;
      }
      assert mark' < 0 ==> Expand(log) + [] == Expand(log);
      if errno == Ok {
        q := p + 1;
      }
    }

    /** The loop over a piece of input, and the callback for what is left of it. */
    method Run(data: seq<Byte>) returns (consumed: nat)
      requires Valid() && errno == Ok
      modifies this
      ensures Valid() && Outcome(limit, old(Model()), data, Model(), consumed)
    {
      ghost var m := Model();
      var p, st, nr, mark := 0, state, nread, -1;
      while p < |data| && !Left(st)
        invariant 0 <= p <= |data| && mark <= p && (mark >= 0 ==> Marked(st)) && errno == Ok
        invariant Now(st, nr, data, mark, p) == Feed(limit, m, data[..p])
        decreases |data| - p
      {
        ghost var now := Now(st, nr, data, mark, p);
        AlwaysSound(limit, m, data[..p]);
        var q;
        q, st, nr, mark := Turn(data, p, st, nr, mark);
        if errno != Ok {
          nread, state := nr, st;
          StepSound(limit, now, data[p]);
          Refused(limit, m, data, now, Model(), p, mark);
          return p;
        }
        FeedPiece(limit, m, data, p, q);
        p := q;
      }
      AlwaysSound(limit, m, data[..p]);
      Deliver(data, mark, p);
      nread, state := nr, st;
      Finished(limit, m, data, Model(), p);
      return p;
    }

    /** http_parser_execute: reads a piece of input, or its end when empty. */
    method Execute(data: seq<Byte>) returns (consumed: nat)
      requires Valid()
      modifies this
      ensures Valid()
      ensures old(errno) != Ok ==> consumed == 0 && Model() == old(Model())
      ensures old(errno) == Ok && data != [] ==> Outcome(limit, old(Model()), data, Model(), consumed)
      ensures old(errno) == Ok && data == [] ==>
                Model() == match old(state)
                  case IdentityEof => old(Model()).(log := old(Model()).log + [MessageComplete])
                  case Done => old(Model())
                  case _ => old(Model()).(err := InvalidEofState)
      ensures old(errno) == Ok && data == [] ==> consumed == if errno == Ok then 0 else 1
    {
      if errno != Ok {
        return 0;
      }
      if data == [] {
        match state {
          case IdentityEof =>
            Notify(OnMessageComplete);
            return 0;
          case Done => return 0;
          case _ =>
            errno := InvalidEofState;
            return 1;
        }
      }
      consumed := Run(data);
    }
  }
}
