// Cutting messages into fragments and putting them together again.
module KcpMessages {
  import opened Circular
  import opened Seqs
  import opened Division
  import opened KcpModel

  type Msg = seq<Byte>

  function Cuts(mss: nat, msgs: seq<Msg>): seq<seq<Frag>>
    requires 0 < mss
  {
    seq(|msgs|, i requires 0 <= i < |msgs| => Cut(mss, msgs[i]))
  }

  /** All fragments of a list of messages, in order. */
  function Frags(mss: nat, msgs: seq<Msg>): seq<Frag>
    requires 0 < mss
  {
    Flatten(Cuts(mss, msgs))
  }

  lemma FragsSnoc(mss: nat, msgs: seq<Msg>, msg: Msg)
    requires 0 < mss
    ensures Frags(mss, msgs + [msg]) == Frags(mss, msgs) + Cut(mss, msg)
  {
    assert Cuts(mss, msgs + [msg]) == Cuts(mss, msgs) + [Cut(mss, msg)];
    FlattenSnoc(Cuts(mss, msgs), Cut(mss, msg));
  }

  lemma FragsSplit(mss: nat, a: seq<Msg>, b: seq<Msg>)
    requires 0 < mss
    ensures Frags(mss, a + b) == Frags(mss, a) + Frags(mss, b)
  {
    assert Cuts(mss, a + b) == Cuts(mss, a) + Cuts(mss, b);
    FlattenAppend(Cuts(mss, a), Cuts(mss, b));
  }

  lemma {:induction false} CountStep(mss: nat, len: nat)
    requires 0 < mss < len
    ensures FragmentCount(mss, len) == 1 + FragmentCount(mss, len - mss)
  {
    var a, q := len - mss + mss - 1, (len - mss + mss - 1) / mss;
    assert a == q * mss + a % mss && 0 <= a % mss < mss;
    assert len + mss - 1 == (q + 1) * mss + a % mss;
    DivUnique(len + mss - 1, mss, q + 1, a % mss);
    if len - mss <= mss {
      DivUnique(a, mss, 1, len - mss - 1);
    }
  }

  /** A message is cut into as many fragments as ikcp_send counts, numbered
      down to zero, none longer than the MSS. */
  lemma {:induction false} CutShape(mss: nat, msg: Msg)
    requires 0 < mss
    ensures var fs := Cut(mss, msg);
            && |fs| == FragmentCount(mss, |msg|) > 0
            && forall i :: 0 <= i < |fs| ==> fs[i].frg == |fs| - 1 - i && |fs[i].data| <= mss
    decreases |msg|
  {
    if |msg| > mss {
      CountStep(mss, |msg|);
      CutShape(mss, msg[mss..]);
    }
  }

  /** The data of fragments, joined. */
  function Joined(fs: seq<Frag>): Msg {
    if fs == [] then [] else fs[0].data + Joined(fs[1..])
  }

  /** The fragments of a message join to the message. */
  lemma {:induction false} CutJoins(mss: nat, msg: Msg)
    requires 0 < mss
    ensures Joined(Cut(mss, msg)) == msg
    decreases |msg|
  {
    var fs := Cut(mss, msg);
    if |msg| <= mss {
      assert fs[1..] == [];
    } else {
      CutJoins(mss, msg[mss..]);
      assert fs[1..] == Cut(mss, msg[mss..]);
      assert msg == msg[..mss] + msg[mss..];
    }
  }

  ghost predicate Starts(q: seq<Wire>, fs: seq<Frag>) {
    |fs| <= |q| && forall i :: 0 <= i < |fs| ==> Payload(q[i]) == fs[i]
  }

  /** Reading up to the first zero fragment number gives the message back. */
  lemma {:induction false} FirstMessageIsCut(mss: nat, msg: Msg, q: seq<Wire>)
    requires 0 < mss && Starts(q, Cut(mss, msg))
    ensures FirstMessage(q) == (msg, |Cut(mss, msg)|)
    decreases |msg|
  {
    var fs := Cut(mss, msg);
    assert Payload(q[0]) == fs[0];
    if |msg| > mss {
      CutShape(mss, msg[mss..]);
      assert forall i :: 0 <= i < |fs| - 1 ==> q[1..][i] == q[i + 1] && fs[i + 1] == fs[1..][i];
      FirstMessageIsCut(mss, msg[mss..], q[1..]);
      assert msg == msg[..mss] + msg[mss..];
    }
  }

  /** When the queue starts with (part of) a cut message, ikcp_peeksize is
      non-negative exactly when the whole message is there, and is its length. */
  lemma PeekWhole(mss: nat, msg: Msg, r: Receiver)
    requires 0 < mss
    requires forall i :: 0 <= i < |r.queue| && i < |Cut(mss, msg)| ==> Payload(r.queue[i]) == Cut(mss, msg)[i]
    ensures PeekSize(r) >= 0 <==> |r.queue| >= |Cut(mss, msg)|
    ensures PeekSize(r) >= 0 ==> PeekSize(r) == |msg|
  {
    CutShape(mss, msg);
    if r.queue != [] {
      assert Payload(r.queue[0]) == Cut(mss, msg)[0];
      if |r.queue| >= |Cut(mss, msg)| {
        FirstMessageIsCut(mss, msg, r.queue);
      }
    }
  }
}
