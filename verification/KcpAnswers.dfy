// What is answered: every data segment that fits the window with an
// acknowledgement, a question for the window with its size; and what every
// segment says about its writer.
module KcpAnswers {
  import opened Circular
  import opened Seqs
  import opened KcpModel
  import opened KcpPacking
  import opened KcpWire
  import opened KcpSystem
  import opened KcpRuns
  import opened KcpEndpoint
  import R = KcpResend

  // ---- what a segment says about its writer ----

  /** Written by a connection with `room` free places that waits for number `nxt`. */
  predicate From(w: Wire, conv: nat, room: nat, nxt: int) {
    w.conv == conv && w.una == nxt && w.wnd == room % 0x1_0000
  }

  /** ... and a data segment by its time. */
  ghost predicate AllFrom(ws: seq<Wire>, conv: nat, room: nat, nxt: int, now: nat) {
    forall w | w in ws :: From(w, conv, room, nxt) && (w.cmd == CMD_PUSH ==> w.ts == now)
  }

  lemma AllFromMore(a: seq<Wire>, b: seq<Wire>, conv: nat, room: nat, nxt: int, now: nat)
    requires AllFrom(a, conv, room, nxt, now) && AllFrom(b, conv, room, nxt, now)
    ensures AllFrom(a + b, conv, room, nxt, now)
  {
  }

  /** The free places of the receive queue. */
  function Room(k: Kcb): nat { if |k.rcv.queue| >= k.cf.rcvWnd then 0 else k.cf.rcvWnd - |k.rcv.queue| }

  lemma FillKeeps(k: Kcb)
    ensures var k1 := FlushFill(WRAP, k);
            && k1.cf == k.cf && k1.rcv == k.rcv.(acks := []) && k1.clk.current == k.clk.current
            && !k1.askSend && !k1.askTell
  {
    var (clk, _) := ProbeTimer(k.clk, k.cong.rmtWnd);
    R.FillAdds(k.(clk := clk, rcv := k.rcv.(acks := []), askSend := false, askTell := false), SendWindow(k.cf, k.cong));
  }

  lemma {:induction false} DueFrom(k: Kcb, buf: seq<SndSeg>)
    requires forall i :: 0 <= i < |buf| ==> buf[i].wire.cmd == CMD_PUSH && buf[i].wire.conv == k.cf.conv
    ensures AllFrom(DueWires(k, buf), k.cf.conv, Room(k), k.rcv.nxt, k.clk.current)
    ensures forall w | w in DueWires(k, buf) :: w.cmd == CMD_PUSH
    decreases |buf|
  {
    if buf != [] {
      DueFrom(k, buf[..|buf| - 1]);
    }
  }

  /** Every segment that a flush writes says how much room is left and which number
      is waited for at that time; and the data segments say when they were sent. */
  lemma FlushFrom(k: Kcb)
    requires Sound(k)
    ensures AllFrom(FlushWires(WRAP, k), k.cf.conv, Room(k), k.rcv.nxt, k.clk.current)
  {
    if k.clk.updated {
      var data := FlushData(k);
      ControlFrom(k);
      AllFromMore(ControlWires(k), data, k.cf.conv, Room(k), k.rcv.nxt, k.clk.current);
    }
  }

  /** The data that a flush writes behind its answers. */
  lemma FlushData(k: Kcb) returns (data: seq<Wire>)
    requires Sound(k) && k.clk.updated
    ensures FlushWires(WRAP, k) == ControlWires(k) + data
    ensures AllFrom(data, k.cf.conv, Room(k), k.rcv.nxt, k.clk.current) && forall w | w in data :: w.cmd == CMD_PUSH
  {
    var k1 := FlushFill(WRAP, k);
    FillKeeps(k);
    FilledData(k);
    DueFrom(k1, k1.snd.buf);
    assert Room(k1) == Room(k);
    data := DueWires(k1, k1.snd.buf);
  }

  lemma FilledData(k: Kcb)
    requires Sound(k)
    ensures var buf := FlushFill(WRAP, k).snd.buf;
            forall i :: 0 <= i < |buf| ==> buf[i].wire.cmd == CMD_PUSH && buf[i].wire.conv == k.cf.conv
  {
    FillKeeps(k);
    FlushFillEncodable(k);
  }

  lemma ControlFrom(k: Kcb)
    ensures AllFrom(ControlWires(k), k.cf.conv, Room(k), k.rcv.nxt, k.clk.current)
  {
  }

  // ---- what a flush answers ----

  /** The acknowledgements among some segments, in order. */
  function AckedBy(ws: seq<Wire>): seq<Ack> {
    if ws == [] then []
    else
      var w := ws[|ws| - 1];
      AckedBy(ws[..|ws| - 1]) + if w.cmd == CMD_ACK then [Ack(w.sn, w.ts)] else []
  }

  lemma {:induction false} AckedAppend(a: seq<Wire>, b: seq<Wire>)
    ensures AckedBy(a + b) == AckedBy(a) + AckedBy(b)
    decreases |b|
  {
    if b == [] {
      assert a + b == a;
    } else {
      var n := |b| - 1;
      AppendLast(a, b);
      AckedAppend(a, b[..n]);
      Assoc(AckedBy(a), AckedBy(b[..n]), if b[n].cmd == CMD_ACK then [Ack(b[n].sn, b[n].ts)] else []);
    }
  }

  lemma {:induction false} NoneAcked(ws: seq<Wire>)
    requires forall w | w in ws :: w.cmd != CMD_ACK
    ensures AckedBy(ws) == []
    decreases |ws|
  {
    if ws != [] {
      NoneAcked(ws[..|ws| - 1]);
    }
  }

  lemma {:induction false} AllAcked(ws: seq<Wire>, acks: seq<Ack>)
    requires |ws| == |acks| && forall i | 0 <= i < |ws| :: ws[i].cmd == CMD_ACK && Ack(ws[i].sn, ws[i].ts) == acks[i]
    ensures AckedBy(ws) == acks
    decreases |ws|
  {
    if ws != [] {
      var n := |ws| - 1;
      AllAcked(ws[..n], acks[..n]);
      FrontLast(acks);
    }
  }

  ghost predicate Has(ws: seq<Wire>, cmd: nat) { exists w :: w in ws && w.cmd == cmd }

  lemma HasMore(a: seq<Wire>, b: seq<Wire>, cmd: nat)
    ensures Has(a + b, cmd) <==> Has(a, cmd) || Has(b, cmd)
  {
    if w :| w in a && w.cmd == cmd {
      assert w in a + b;
    }
    if w :| w in b && w.cmd == cmd {
      assert w in a + b;
    }
  }

  /** The flush will ask the peer for its window. */
  predicate Asks(k: Kcb) { k.askSend || ProbeTimer(k.clk, k.cong.rmtWnd).1 }

  /** A flush acknowledges what it owes, and asks or tells when it has been asked to. */
  lemma FlushAnswers(k: Kcb)
    requires Sound(k) && k.clk.updated
    ensures var ws := FlushWires(WRAP, k);
            AckedBy(ws) == k.rcv.acks && (Has(ws, CMD_WINS) <==> k.askTell) && (Has(ws, CMD_WASK) <==> Asks(k))
  {
    var data := FlushData(k);
    AckedParts(k, data);
    ProbedParts(k, data);
  }

  /** Afterwards nothing is owed. */
  lemma FlushClears(k: Kcb)
    requires k.clk.updated
    ensures var k' := FlushState(WRAP, k); k'.rcv == k.rcv.(acks := []) && !k'.askTell && !k'.askSend
  {
    FillKeeps(k);
  }

  lemma ControlAcked(k: Kcb)
    ensures AckedBy(ControlWires(k)) == k.rcv.acks
  {
    var probes := ProbeWires(k, Asks(k), k.askTell);
    AllAcked(AckWires(k), k.rcv.acks);
    NoneAcked(probes);
    AckedAppend(AckWires(k), probes);
    assert k.rcv.acks + [] == k.rcv.acks;
  }

  lemma AckedParts(k: Kcb, data: seq<Wire>)
    requires forall w | w in data :: w.cmd == CMD_PUSH
    ensures AckedBy(ControlWires(k) + data) == k.rcv.acks
  {
    ControlAcked(k);
    NoneAcked(data);
    AckedAppend(ControlWires(k), data);
    assert k.rcv.acks + [] == k.rcv.acks;
  }

  lemma ProbedParts(k: Kcb, data: seq<Wire>)
    requires forall w | w in data :: w.cmd == CMD_PUSH
    ensures Has(ControlWires(k) + data, CMD_WINS) <==> k.askTell
    ensures Has(ControlWires(k) + data, CMD_WASK) <==> Asks(k)
  {
    var acks, probes := AckWires(k), ProbeWires(k, Asks(k), k.askTell);
    ProbesAre(k, Asks(k), k.askTell);
    HasMore(acks, probes, CMD_WINS);
    HasMore(acks, probes, CMD_WASK);
    HasMore(acks + probes, data, CMD_WINS);
    HasMore(acks + probes, data, CMD_WASK);
  }

  lemma ProbesAre(k: Kcb, ask: bool, tell: bool)
    ensures Has(ProbeWires(k, ask, tell), CMD_WINS) <==> tell
    ensures Has(ProbeWires(k, ask, tell), CMD_WASK) <==> ask
  {
  }

  // ---- what is owed ----

  /** The number is before the end of the receive window. */
  predicate Fits(k: Kcb, sn: int) { TimeDiff(sn, k.rcv.nxt + k.cf.rcvWnd) < 0 }

  /** What a datagram asks to be acknowledged: the number and the time of each data
      segment that fits the window when it is read. */
  function AsksFor(k: Kcb, d: seq<Byte>): seq<Ack>
    decreases |d|
  {
    match ParseOne(k.cf.conv, d)
    case Got(w, rest) =>
      (if w.cmd == CMD_PUSH && Fits(k, w.sn) then [Ack(w.sn, w.ts)] else []) + AsksFor(InputSeg(WRAP, k, w), rest)
    case _ => []
  }

  /** A datagram asks for the window. */
  predicate AsksWindow(conv: nat, d: seq<Byte>)
    decreases |d|
  {
    match ParseOne(conv, d)
    case Got(w, rest) => w.cmd == CMD_WASK || AsksWindow(conv, rest)
    case _ => false
  }

  lemma {:induction false} AdvanceKeeps(r: Receiver, wnd: nat)
    ensures Advance(WRAP, r, wnd).acks == r.acks
    decreases |r.buf|
  {
    if r.buf != [] && r.buf[0].sn == r.nxt && |r.queue| < wnd {
      AdvanceKeeps(r.(buf := r.buf[1..], queue := r.queue + [r.buf[0]], nxt := WRAP.norm(r.nxt + 1)), wnd);
    }
  }

  lemma PushOwes(r: Receiver, wnd: nat, w: Wire)
    ensures Push(WRAP, r, wnd, w).acks ==
              r.acks + if TimeDiff(w.sn, r.nxt + wnd) < 0 then [Ack(w.sn, w.ts)] else []
  {
    var r1 := r.(acks := r.acks + [Ack(w.sn, w.ts)]);
    AdvanceKeeps(r1.(buf := Insert(WRAP, r1.buf, w)), wnd);
    assert r.acks + [] == r.acks;
  }

  lemma SegOwes(k: Kcb, w: Wire)
    ensures InputSeg(WRAP, k, w).rcv.acks ==
              k.rcv.acks + if w.cmd == CMD_PUSH && Fits(k, w.sn) then [Ack(w.sn, w.ts)] else []
    ensures InputSeg(WRAP, k, w).askTell == (k.askTell || w.cmd == CMD_WASK) && InputSeg(WRAP, k, w).cf == k.cf
  {
    PushOwes(k.rcv, k.cf.rcvWnd, w);
    assert k.rcv.acks + [] == k.rcv.acks;
  }

  lemma {:induction false} InputOwes(k: Kcb, m: MaxAck, prevUna: int, cmd: int, d: seq<Byte>)
    ensures var k' := InputBytesFrom(WRAP, k, m, prevUna, cmd, d).1;
            k'.rcv.acks == k.rcv.acks + AsksFor(k, d) && k'.askTell == (k.askTell || AsksWindow(k.cf.conv, d))
    decreases |d|
  {
    var p := ParseOne(k.cf.conv, d);
    if p.Got? {
      var k1 := InputSeg(WRAP, k, p.w);
      SegOwes(k, p.w);
      InputOwes(k1, NoteSeg(WRAP, m, p.w), prevUna, p.w.cmd, p.rest);
      Assoc(k.rcv.acks, if p.w.cmd == CMD_PUSH && Fits(k, p.w.sn) then [Ack(p.w.sn, p.w.ts)] else [],
            AsksFor(k1, p.rest));
    } else {
      assert k.rcv.acks + [] == k.rcv.acks;
    }
  }

  /** What is owed after a call, when `acks` were owed before it. */
  function OwedAfter(k: Kcb, c: Call, acks: seq<Ack>): seq<Ack> {
    if R.Flushes(k, c) then []
    else if c.CallInput? && |c.d| >= OVERHEAD then acks + AsksFor(k, c.d)
    else acks
  }

  /** Reading from a full queue makes room. */
  predicate MakesRoom(k: Kcb, c: Call) {
    c.CallRecv? && |k.rcv.queue| >= k.cf.rcvWnd && |Do(k, c).rcv.queue| < k.cf.rcvWnd
  }

  function TellsAfter(k: Kcb, c: Call, tell: bool): bool {
    if R.Flushes(k, c) then false
    else tell || (c.CallInput? && |c.d| >= OVERHEAD && AsksWindow(k.cf.conv, c.d)) || MakesRoom(k, c)
  }

  lemma RecvOwes(k: Kcb, len: int)
    ensures var k' := Recv(WRAP, k, len).1;
            k'.rcv.acks == k.rcv.acks && k'.askTell == (k.askTell || MakesRoom(k, CallRecv(len)))
  {
    if Recv(WRAP, k, len).0.Received? {
      AdvanceKeeps(if len < 0 then k.rcv else k.rcv.(queue := k.rcv.queue[FirstMessage(k.rcv.queue).1..]), k.cf.rcvWnd);
    }
  }

  lemma CallOwes(k: Kcb, c: Call)
    requires Sound(k)
    ensures Do(k, c).rcv.acks == OwedAfter(k, c, k.rcv.acks) && Do(k, c).askTell == TellsAfter(k, c, k.askTell)
  {
    if R.Flushes(k, c) {
      R.FlushOfCall(k, c);
      FlushClears(R.AtFlush(k, c));
    } else {
      match c
      case CallInput(d) => InputOwes(k, NoAck, k.snd.una, 0, d);
      case CallRecv(len) => RecvOwes(k, len);
      case _ =>
    }
  }

  /** What is owed after a run: what was asked for since the last flush. */
  function Owed(cf: Conf, cs: seq<Call>): seq<Ack> {
    if cs == [] then [] else OwedAfter(DoAll(cf, cs[..|cs| - 1]), cs[|cs| - 1], Owed(cf, cs[..|cs| - 1]))
  }

  /** The window is to be told: it was asked for, or has opened, since the last flush. */
  function Tells(cf: Conf, cs: seq<Call>): bool {
    if cs == [] then false else TellsAfter(DoAll(cf, cs[..|cs| - 1]), cs[|cs| - 1], Tells(cf, cs[..|cs| - 1]))
  }

  lemma {:induction false} OwedHolds(cf: Conf, cs: seq<Call>)
    ensures DoAll(cf, cs).rcv.acks == Owed(cf, cs) && DoAll(cf, cs).askTell == Tells(cf, cs)
    decreases |cs|
  {
    if cs != [] {
      OwedHolds(cf, cs[..|cs| - 1]);
      AlwaysSound(cf, cs[..|cs| - 1]);
      CallOwes(DoAll(cf, cs[..|cs| - 1]), cs[|cs| - 1]);
    }
  }

  /** In every run a flush acknowledges exactly the data segments that came since the
      last one and fitted the window, each with its own time, and tells the window if
      and only if it was asked for or has opened since then. */
  lemma AnswersExactly(cf: Conf, cs: seq<Call>, c: Call)
    requires R.Flushes(DoAll(cf, cs), c)
    ensures var ws := FlushWires(WRAP, R.AtFlush(DoAll(cf, cs), c));
            && Output(DoAll(cf, cs), c) == Datagrams(ws, DoAll(cf, cs).cf.mtu)
            && AckedBy(ws) == Owed(cf, cs) && (Has(ws, CMD_WINS) <==> Tells(cf, cs))
  {
    AlwaysSound(cf, cs);
    OwedHolds(cf, cs);
    CallAnswers(DoAll(cf, cs), c);
  }

  lemma CallAnswers(k: Kcb, c: Call)
    requires Sound(k) && R.Flushes(k, c)
    ensures var ws := FlushWires(WRAP, R.AtFlush(k, c));
            Output(k, c) == Datagrams(ws, k.cf.mtu) && AckedBy(ws) == k.rcv.acks && (Has(ws, CMD_WINS) <==> k.askTell)
  {
    R.FlushOfCall(k, c);
    FlushAnswers(R.AtFlush(k, c));
  }
}
