// One endpoint on its own: any sequence of calls, with arbitrary bytes as
// input, keeps the windows in shape and the headers in range.
module KcpEndpoint {
  import opened Circular
  import opened KcpModel
  import opened KcpWire
  import opened KcpWindow
  import opened KcpPacking
  import opened KcpMessages

  datatype Call =
    | CallSend(msg: seq<Byte>) | CallRecv(len: int) | CallInput(d: seq<Byte>) | CallFlush | CallUpdate(now: nat)

  function Do(k: Kcb, c: Call): Kcb {
    match c
    case CallSend(msg) => Send(k, msg)
    case CallRecv(len) => Recv(WRAP, k, len).1
    case CallInput(d) => InputBytes(WRAP, k, d).1
    case CallFlush => FlushState(WRAP, k)
    case CallUpdate(now) => UpdateState(WRAP, k, U32(now))
  }

  /** The datagrams a call hands to the output callback. */
  function Output(k: Kcb, c: Call): seq<seq<Wire>> {
    match c
    case CallFlush => Datagrams(FlushWires(WRAP, k), k.cf.mtu)
    case CallUpdate(now) => Datagrams(UpdateWires(WRAP, k, U32(now)), k.cf.mtu)
    case _ => []
  }

  function DoAll(cf: Conf, cs: seq<Call>): Kcb {
    if cs == [] then Create(cf) else Do(DoAll(cf, cs[..|cs| - 1]), cs[|cs| - 1])
  }

  /** What holds of a control block in every run. */
  ghost predicate Sound(k: Kcb) {
    Windows(WRAP, k) && Encodable(k)
  }

  // ---- sending and receiving ----

  lemma SendSound(k: Kcb, msg: seq<Byte>)
    requires Sound(k)
    ensures Sound(Send(k, msg))
  {
    CutShape(Mss(k.cf), msg);
  }

  lemma {:induction false} AdvanceSame(r: Receiver, wnd: nat)
    requires 0 <= r.nxt < M32
    ensures Advance(WRAP, r, wnd).acks == r.acks && 0 <= Advance(WRAP, r, wnd).nxt < M32
    decreases |r.buf|
  {
    if r.buf != [] && r.buf[0].sn == r.nxt && |r.queue| < wnd {
      AdvanceSame(r.(buf := r.buf[1..], queue := r.queue + [r.buf[0]], nxt := WRAP.norm(r.nxt + 1)), wnd);
    }
  }

  lemma RecvSound(k: Kcb, len: int)
    requires Sound(k)
    ensures Sound(Recv(WRAP, k, len).1)
  {
    WrapLawful();
    RecvWindows(WRAP, k, len);
    var n := FirstMessage(k.rcv.queue).1;
    AdvanceSame(if len < 0 then k.rcv else k.rcv.(queue := k.rcv.queue[n..]), k.cf.rcvWnd);
  }

  // ---- arbitrary input ----

  /** A stored segment whose header can be written. */
  predicate StoredOk(cf: Conf, s: SndSeg) {
    WireOk(s.wire) && s.wire.conv == cf.conv && s.wire.cmd == CMD_PUSH && |s.wire.data| <= Mss(cf)
  }

  lemma ShrunkEncodable(k: Kcb, s: Sender)
    requires Encodable(k) && s.nxt == k.snd.nxt && s.queue == k.snd.queue
    requires forall i :: 0 <= i < |s.buf| ==> StoredOk(k.cf, s.buf[i])
    ensures Encodable(k.(snd := s))
  {
  }

  lemma UnaStored(k: Kcb, una: int)
    requires Encodable(k)
    ensures forall i :: 0 <= i < |ParseUna(WRAP, k.snd, una).buf| ==> StoredOk(k.cf, ParseUna(WRAP, k.snd, una).buf[i])
  {
    DropBelowSuffix(WRAP, k.snd.buf, una);
  }

  lemma AckStored(cf: Conf, s: Sender, sn: int)
    requires forall i :: 0 <= i < |s.buf| ==> StoredOk(cf, s.buf[i])
    ensures forall i :: 0 <= i < |ParseAck(WRAP, s, sn).buf| ==> StoredOk(cf, ParseAck(WRAP, s, sn).buf[i])
  {
    var n := DropOneAt(WRAP, s.buf, sn);
  }

  lemma PushEncodable(k: Kcb, w: Wire)
    requires Encodable(k) && WireOk(w)
    ensures Encodable(k.(rcv := Push(WRAP, k.rcv, k.cf.rcvWnd, w)))
  {
    var r1 := k.rcv.(acks := k.rcv.acks + [Ack(w.sn, w.ts)]);
    AdvanceSame(r1.(buf := Insert(WRAP, k.rcv.buf, w)), k.cf.rcvWnd);
  }

  /** Encodability looks at these parts only. */
  lemma SameParts(k: Kcb, k': Kcb)
    requires Encodable(k) && k'.cf == k.cf && k'.snd == k.snd && k'.clk.current == k.clk.current
    requires k'.rcv.nxt == k.rcv.nxt && k'.rcv.acks == k.rcv.acks
    ensures Encodable(k')
  {
  }

  lemma InputSegParts(k: Kcb, w: Wire)
    ensures var k', s := InputSeg(WRAP, k, w), ParseUna(WRAP, k.snd, w.una);
            && k'.cf == k.cf && k'.clk == k.clk
            && k'.snd == (if w.cmd == CMD_ACK then ParseAck(WRAP, s, w.sn) else s)
            && k'.rcv == (if w.cmd == CMD_PUSH then Push(WRAP, k.rcv, k.cf.rcvWnd, w) else k.rcv)
  {
  }

  lemma InputSegEncodable(k: Kcb, w: Wire)
    requires Encodable(k) && WireOk(w)
    ensures Encodable(InputSeg(WRAP, k, w))
  {
    UnaStored(k, w.una);
    InputSegParts(k, w);
    var k' := InputSeg(WRAP, k, w);
    var s := ParseUna(WRAP, k.snd, w.una);
    if w.cmd == CMD_ACK {
      AckStored(k.cf, s, w.sn);
    }
    ShrunkEncodable(k, k'.snd);
    if w.cmd == CMD_PUSH {
      PushEncodable(k.(snd := s), w);
      SameParts(k.(snd := s, rcv := k'.rcv), k');
    } else {
      SameParts(k.(snd := k'.snd), k');
    }
  }

  lemma InputSegSound(k: Kcb, w: Wire)
    requires Sound(k) && WireOk(w)
    ensures Sound(InputSeg(WRAP, k, w))
  {
    WrapLawful();
    InputSegWindows(WRAP, k, w);
    InputSegEncodable(k, w);
  }

  lemma InputEndEncodable(k: Kcb, m: MaxAck, prevUna: int)
    requires Encodable(k)
    ensures Encodable(InputEnd(WRAP, k, m, prevUna))
  {
    if m.MaxAck? {
      BumpKeepsWires(WRAP, k.snd.buf, m.sn);
      ShrunkEncodable(k, ParseFastAck(WRAP, k.snd, m.sn));
    }
  }

  lemma InputEndSound(k: Kcb, m: MaxAck, prevUna: int)
    requires Sound(k)
    ensures Sound(InputEnd(WRAP, k, m, prevUna))
  {
    WrapLawful();
    InputEndWindows(WRAP, k, m, prevUna);
    InputEndEncodable(k, m, prevUna);
  }

  lemma {:induction false} InputBytesSound(k: Kcb, m: MaxAck, prevUna: int, cmd: int, d: seq<Byte>)
    requires Sound(k)
    ensures Sound(InputBytesFrom(WRAP, k, m, prevUna, cmd, d).1)
    decreases |d|
  {
    match ParseOne(k.cf.conv, d)
    case Stop => InputEndSound(k, m, prevUna);
    case Fail(_) =>
    case Got(w, rest) =>
      InputSegSound(k, w);
      InputBytesSound(InputSeg(WRAP, k, w), NoteSeg(WRAP, m, w), prevUna, w.cmd, rest);
  }

  // ---- flushing ----

  lemma FlushEncodable(k: Kcb)
    requires Encodable(k)
    ensures Encodable(FlushState(WRAP, k))
  {
    if k.clk.updated {
      FlushFillEncodable(k);
      var k1 := FlushFill(WRAP, k);
      var s := k1.snd.(buf := TouchAll(k1, k1.snd.buf));
      ShrunkEncodable(k1, s);
      SameParts(k1.(snd := s), FlushState(WRAP, k));
    }
  }

  lemma FlushFillEncodable(k: Kcb)
    requires Encodable(k)
    ensures Encodable(FlushFill(WRAP, k))
  {
    var (clk, _) := ProbeTimer(k.clk, k.cong.rmtWnd);
    FillEncodable(k.(clk := clk, rcv := k.rcv.(acks := []), askSend := false, askTell := false),
                  SendWindow(k.cf, k.cong));
  }

  lemma FlushSound(k: Kcb)
    requires Sound(k)
    ensures Sound(FlushState(WRAP, k))
  {
    WrapLawful();
    FlushWindows(WRAP, k);
    FlushEncodable(k);
  }

  lemma UpdateSound(k: Kcb, now: nat)
    requires Sound(k) && now < M32
    ensures Sound(UpdateState(WRAP, k, now))
  {
    var (clk, flush) := Tick(k.clk, k.cf.interval, now);
    if flush {
      FlushSound(k.(clk := clk));
    }
  }

  // ---- every run ----

  lemma DoSound(k: Kcb, c: Call)
    requires Sound(k)
    ensures Sound(Do(k, c))
  {
    match c
    case CallSend(msg) => SendSound(k, msg);
    case CallRecv(len) => RecvSound(k, len);
    case CallInput(d) => InputBytesSound(k, NoAck, k.snd.una, 0, d);
    case CallFlush => FlushSound(k);
    case CallUpdate(now) => UpdateSound(k, U32(now));
  }

  /** Whatever bytes arrive: after any calls snd_buf is strictly increasing in
      [snd_una, snd_nxt) with at most 65535 numbers in flight, rcv_buf is
      strictly increasing in [rcv_nxt, rcv_nxt + rcv_wnd) and its head is due
      only if rcv_queue is full. */
  lemma {:induction false} AlwaysSound(cf: Conf, cs: seq<Call>)
    ensures Sound(DoAll(cf, cs))
  {
    if cs == [] {
      WrapLawful();
      CreateWindows(WRAP, cf);
    } else {
      AlwaysSound(cf, cs[..|cs| - 1]);
      DoSound(DoAll(cf, cs[..|cs| - 1]), cs[|cs| - 1]);
    }
  }
}
