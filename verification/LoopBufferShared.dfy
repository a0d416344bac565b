// The byte ring shared by one producer and one consumer. A push reads the
// counters, copies byte by byte and then publishes `tail`; a pop reads the
// counters, copies and then publishes `head`. The steps of the two interleave
// in any order (sequential consistency).
module LoopBufferShared {
  import opened Circular
  import opened LoopBuffer

  datatype Producer = Idle | Writing(data: seq<Byte>, done: nat)
  datatype Consumer = Waiting | Reading(len: nat, got: seq<Byte>)

  /** `pushed` are all bytes of finished pushes, `popped` of finished pops. */
  datatype State = State(head: nat, tail: nat, buf: seq<Byte>, prod: Producer, cons: Consumer,
                         pushed: seq<Byte>, popped: seq<Byte>)

  datatype Step = StartPush(data: seq<Byte>) | WriteByte | EndPush | StartPop | ReadByte | EndPop

  function Init(bits: nat): State {
    State(0, 0, seq(Pow2(bits), i => 0), Idle, Waiting, [], [])
  }

  /** A step that its thread is not ready for changes nothing. */
  function Next(s: State, a: Step): State
    requires |s.buf| > 0
  {
    var b := |s.buf|;
    match a
    case StartPush(data) =>
      if s.prod.Idle? && b - U32(s.tail - s.head) >= |data| then s.(prod := Writing(data, 0)) else s
    case WriteByte =>
      if s.prod.Writing? && s.prod.done < |s.prod.data| && s.prod.done < b then
        s.(buf := s.buf[After(s.tail % b, s.prod.done, b) := s.prod.data[s.prod.done]],
           prod := s.prod.(done := s.prod.done + 1))
      else s
    case EndPush =>
      if s.prod.Writing? && s.prod.done == |s.prod.data| then
        s.(tail := U32(s.tail + |s.prod.data|), prod := Idle, pushed := s.pushed + s.prod.data)
      else s
    case StartPop =>
      var n := U32(s.tail - s.head);
      if s.cons.Waiting? && n > 0 && s.head % b < b
      then s.(cons := Reading(Min(n, b - s.head % b), [])) else s
    case ReadByte =>
      if s.cons.Reading? && |s.cons.got| < s.cons.len && s.head % b + |s.cons.got| < b then
        s.(cons := s.cons.(got := s.cons.got + [s.buf[s.head % b + |s.cons.got|]]))
      else s
    case EndPop =>
      if s.cons.Reading? && |s.cons.got| == s.cons.len then
        s.(head := U32(s.head + s.cons.len), cons := Waiting, popped := s.popped + s.cons.got)
      else s
  }

  function Play(bits: nat, steps: seq<Step>): (s: State)
    ensures |s.buf| == Pow2(bits)
  {
    if steps == [] then Init(bits) else Next(Play(bits, steps[..|steps| - 1]), steps[|steps| - 1])
  }

  // ---- the invariant ----

  function Used(s: State): int {
    |s.pushed| - |s.popped|
  }

  /** The counters are the true counts reduced modulo 2^32. */
  ghost predicate Counted(s: State) {
    && s.popped <= s.pushed && Used(s) <= |s.buf|
    && s.head == U32(|s.popped|) && s.tail == U32(|s.pushed|)
  }

  /** `p` is the slot of the first unread byte. Unread bytes, and behind them
      the bytes written so far by an unfinished push, are in their slots. */
  ghost predicate Stored(s: State, p: nat) {
    && p < |s.buf| && 0 <= Used(s) <= |s.buf|
    && (forall i :: 0 <= i < Used(s) ==> s.buf[After(p, i, |s.buf|)] == s.pushed[|s.popped| + i])
    && (s.prod.Writing? ==>
          && s.prod.done <= |s.prod.data| && Used(s) + |s.prod.data| <= |s.buf|
          && forall i :: 0 <= i < s.prod.done ==> s.buf[After(p, Used(s) + i, |s.buf|)] == s.prod.data[i])
    && (s.cons.Reading? ==>
          && |s.cons.got| <= s.cons.len <= Used(s) && p + s.cons.len <= |s.buf|
          && s.cons.got == s.pushed[|s.popped|..|s.popped| + |s.cons.got|])
  }

  ghost predicate Inv(s: State, bits: nat) {
    && bits <= 31 && |s.buf| == Pow2(bits) <= HALF
    && Counted(s) && Stored(s, |s.popped| % Pow2(bits))
  }

  /** What the threads compute from the counters they read. */
  lemma Views(s: State, bits: nat)
    requires bits <= 31 && |s.buf| == Pow2(bits) <= HALF && Counted(s)
    ensures U32(s.tail - s.head) == Used(s)
    ensures s.head % Pow2(bits) == |s.popped| % Pow2(bits)
    ensures s.tail % Pow2(bits) == After(|s.popped| % Pow2(bits), Used(s), Pow2(bits))
  {
    var h, t: int := |s.popped|, |s.pushed|;
    assert U32(U32(t) - U32(h)) == t - h by {
      var m: int := U32(h);
      U32Add(t, -m);
      U32Add(t, h);
    }
    SlotOfCounter(h, bits);
    SlotAfter(h, Used(s), bits);
  }

  lemma WriteInv(s: State, p: nat)
    requires Stored(s, p) && s.prod.Writing? && s.prod.done < |s.prod.data|
    ensures var b, i := |s.buf|, s.prod.done;
            Stored(s.(buf := s.buf[After(p, Used(s) + i, b) := s.prod.data[i]], prod := s.prod.(done := i + 1)), p)
  {
  }

  lemma EndPushInv(s: State, p: nat)
    requires Stored(s, p) && s.prod.Writing? && s.prod.done == |s.prod.data| && |s.popped| <= |s.pushed|
    ensures Stored(s.(tail := U32(s.tail + |s.prod.data|), prod := Idle, pushed := s.pushed + s.prod.data), p)
  {
    var s' := s.(tail := U32(s.tail + |s.prod.data|), prod := Idle, pushed := s.pushed + s.prod.data);
    forall i | 0 <= i < Used(s')
      ensures s'.buf[After(p, i, |s.buf|)] == s'.pushed[|s.popped| + i]
    {
      if i >= Used(s) {
        assert s.buf[After(p, Used(s) + (i - Used(s)), |s.buf|)] == s.prod.data[i - Used(s)];
      }
    }
  }

  lemma AfterAfter(p: nat, n: nat, i: nat, b: nat)
    requires p < b && n + i <= b
    ensures After(After(p, n, b), i, b) == After(p, n + i, b)
  {
  }

  lemma EndPopInv(s: State, p: nat)
    requires Stored(s, p) && s.cons.Reading? && |s.cons.got| == s.cons.len && s.popped <= s.pushed
    ensures var s' := s.(head := U32(s.head + s.cons.len), cons := Waiting, popped := s.popped + s.cons.got);
            Stored(s', After(p, s.cons.len, |s.buf|)) && s'.popped <= s'.pushed
  {
    var n, b := s.cons.len, |s.buf|;
    var s' := s.(head := U32(s.head + n), cons := Waiting, popped := s.popped + s.cons.got);
    forall i | 0 <= i < Used(s')
      ensures s'.buf[After(After(p, n, b), i, b)] == s'.pushed[|s'.popped| + i]
    {
      AfterAfter(p, n, i, b);
    }
    if s.prod.Writing? {
      forall i | 0 <= i < s.prod.done
        ensures s'.buf[After(After(p, n, b), Used(s') + i, b)] == s.prod.data[i]
      {
        AfterAfter(p, n, Used(s') + i, b);
      }
    }
  }

  lemma WriteStep(s: State, bits: nat)
    requires Inv(s, bits)
    ensures Inv(Next(s, WriteByte), bits)
  {
    var b, p := Pow2(bits), |s.popped| % Pow2(bits);
    Views(s, bits);
    if s.prod.Writing? && s.prod.done < |s.prod.data| {
      WriteInv(s, p);
      assert After(After(p, Used(s), b), s.prod.done, b) == After(p, Used(s) + s.prod.done, b);
    }
  }

  lemma EndPushStep(s: State, bits: nat)
    requires Inv(s, bits)
    ensures Inv(Next(s, EndPush), bits)
  {
    if s.prod.Writing? && s.prod.done == |s.prod.data| {
      EndPushInv(s, |s.popped| % Pow2(bits));
      U32Add(|s.pushed|, |s.prod.data|);
    }
  }

  lemma ReadStep(s: State, bits: nat)
    requires Inv(s, bits)
    ensures Inv(Next(s, ReadByte), bits)
  {
    Views(s, bits);
    if s.cons.Reading? && |s.cons.got| < s.cons.len {
      ReadInv(s, |s.popped| % Pow2(bits));
    }
  }

  lemma ReadInv(s: State, p: nat)
    requires Stored(s, p) && s.cons.Reading? && |s.cons.got| < s.cons.len && s.popped <= s.pushed
    ensures Stored(s.(cons := Reading(s.cons.len, s.cons.got + [s.buf[After(p, |s.cons.got|, |s.buf|)]])), p)
  {
    var n := |s.cons.got|;
    assert s.buf[After(p, n, |s.buf|)] == s.pushed[|s.popped| + n];
    assert s.pushed[|s.popped|..|s.popped| + n + 1] ==
           s.pushed[|s.popped|..|s.popped| + n] + [s.pushed[|s.popped| + n]];
  }

  lemma EndPopCount(x: nat, n: nat, bits: nat)
    requires bits <= 31 && n <= Pow2(bits)
    ensures U32(U32(x) + n) == U32(x + n)
    ensures (x + n) % Pow2(bits) == After(x % Pow2(bits), n, Pow2(bits))
  {
    U32Add(x, n);
    SlotAfter(x, n, bits);
    SlotOfCounter(x + n, bits);
  }

  lemma EndPopStep(s: State, bits: nat)
    requires Inv(s, bits)
    ensures Inv(Next(s, EndPop), bits)
  {
    if s.cons.Reading? && |s.cons.got| == s.cons.len {
      EndPopInv(s, |s.popped| % Pow2(bits));
      EndPopCount(|s.popped|, s.cons.len, bits);
    }
  }

  lemma StartPushStep(s: State, data: seq<Byte>, bits: nat)
    requires Inv(s, bits)
    ensures Inv(Next(s, StartPush(data)), bits)
  {
    Views(s, bits);
  }

  lemma StartPopStep(s: State, bits: nat)
    requires Inv(s, bits)
    ensures Inv(Next(s, StartPop), bits)
  {
    Views(s, bits);
  }

  lemma NextInv(s: State, a: Step, bits: nat)
    requires Inv(s, bits)
    ensures Inv(Next(s, a), bits)
  {
    match a
    case StartPush(data) => StartPushStep(s, data, bits);
    case WriteByte => WriteStep(s, bits);
    case EndPush => EndPushStep(s, bits);
    case StartPop => StartPopStep(s, bits);
    case ReadByte => ReadStep(s, bits);
    case EndPop => EndPopStep(s, bits);
  }

  lemma {:induction false} AlwaysInv(bits: nat, steps: seq<Step>)
    requires bits <= 31
    ensures Inv(Play(bits, steps), bits)
  {
    if steps == [] {
      PowBound(bits);
    } else {
      AlwaysInv(bits, steps[..|steps| - 1]);
      NextInv(Play(bits, steps[..|steps| - 1]), steps[|steps| - 1], bits);
    }
  }

  /** In every interleaving the ring is a bounded queue of bytes: the counters
      differ by the number of unread bytes, never more than the size; what is
      handed out, also by an unfinished pop, is what was pushed, in order. */
  lemma IsQueue(bits: nat, steps: seq<Step>)
    requires bits <= 31
    ensures var s := Play(bits, steps);
            && s.popped <= s.pushed
            && U32(s.tail - s.head) == |s.pushed| - |s.popped| <= Pow2(bits)
            && (s.cons.Reading? ==> s.popped + s.cons.got <= s.pushed)
  {
    AlwaysInv(bits, steps);
    InvIsQueue(Play(bits, steps), bits);
  }

  lemma InvIsQueue(s: State, bits: nat)
    requires Inv(s, bits)
    ensures s.popped <= s.pushed && U32(s.tail - s.head) == |s.pushed| - |s.popped| <= Pow2(bits)
    ensures s.cons.Reading? ==> s.popped + s.cons.got <= s.pushed
  {
    Views(s, bits);
    if s.cons.Reading? {
      Extends(s.popped, s.cons.got, s.pushed);
    }
  }

  lemma Extends(a: seq<Byte>, b: seq<Byte>, all: seq<Byte>)
    requires a <= all && |a| + |b| <= |all| && b == all[|a|..|a| + |b|]
    ensures a + b <= all
  {
    assert a + b == all[..|a| + |b|];
  }

  /** The producer never writes to the slot of an unread byte. */
  lemma NoOverwrite(bits: nat, steps: seq<Step>, i: nat)
    requires bits <= 31 && i < Used(Play(bits, steps))
    ensures var s, b := Play(bits, steps), Pow2(bits);
            && |Play(bits, steps + [WriteByte]).buf| == b && i <= b
            && Play(bits, steps + [WriteByte]).buf[After(s.head % b, i, b)] == s.pushed[|s.popped| + i]
  {
    AlwaysInv(bits, steps);
    AlwaysInv(bits, steps + [WriteByte]);
    Views(Play(bits, steps), bits);
    assert (steps + [WriteByte])[..|steps|] == steps;
    var s, s' := Play(bits, steps), Play(bits, steps + [WriteByte]);
    assert s' == Next(s, WriteByte);
    assert s'.pushed == s.pushed && s'.popped == s.popped;
  }
}
