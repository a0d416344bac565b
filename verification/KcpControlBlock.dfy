// The KCP control block as the source keeps it: an object whose queues and
// counters the operations update in place. Each method is proved to do to the
// object what the functions of KcpModel say, on 32-bit numbers.
module KcpControlBlock {
  import opened Circular
  import opened Seqs
  import opened KcpModel
  import opened KcpWire
  import opened KcpPacking
  import opened KcpMessages
  import KcpWindow
  import KcpRuns

  class ControlBlock {
    const cf: Conf
    var snd: Sender
    var rcv: Receiver
    var cong: Cong
    var rtt: Rtt
    var clk: Clock
    var askSend: bool
    var askTell: bool
    var xmit: nat
    var dead: bool
    var nSndQue: nat
    var nSndBuf: nat
    var nRcvBuf: nat
    var nRcvQue: nat
    /** Every datagram handed to the output callback. */
    var output: seq<seq<Byte>>

    /** The counters are the lengths of the queues. */
    ghost predicate Valid()
      reads this
    {
      && nSndQue == |snd.queue| && nSndBuf == |snd.buf|
      && nRcvBuf == |rcv.buf| && nRcvQue == |rcv.queue|
    }

    function Model(): Kcb
      reads this
    {
      Kcb(cf, snd, rcv, cong, rtt, clk, askSend, askTell, xmit, dead)
    }

    /** ikcp_create. */
    constructor (cf: Conf)
      ensures Valid() && Model() == Create(cf) && output == [] && this.cf == cf
    {
      this.cf := cf;
      snd := Sender(0, 0, [], []);
      rcv := Receiver(0, [], [], []);
      cong := Cong(THRESH_INIT, 0, 0, WND_RCV);
      rtt := Rtt(0, 0, RTO_DEF);
      clk := Clock(0, INTERVAL, false, 0, 0);
      askSend, askTell, dead, xmit := false, false, false, 0;
      nSndQue, nSndBuf, nRcvBuf, nRcvQue := 0, 0, 0, 0;
      output := [];
    }

    // ---- ikcp_send ----

    method Send(msg: seq<Byte>) returns (code: int)
      requires Valid()
      modifies this`snd, this`nSndQue
      ensures Valid() && Model() == KcpModel.Send(old(Model()), msg)
      ensures code == if SendAccepts(cf, msg) then 0 else if |msg| < HALF then -2 else -1
    {
      if |msg| >= HALF {
        return -1;
      }
      var mss := Mss(cf);
      var count := if |msg| <= mss then 1 else (|msg| + mss - 1) / mss;
      if count >= WND_RCV {
        return -2;
      }
      var queue := CutMessage(mss, msg, count, snd.queue);
      snd := snd.(queue := queue);
      nSndQue := nSndQue + count;
      return 0;
    }

    // ---- ikcp_recv ----

    /** ikcp_peeksize. */
    method Peek() returns (n: int)
      requires Valid()
      ensures n == PeekSize(rcv)
    {
      if rcv.queue == [] {
        return -1;
      }
      if rcv.queue[0].frg == 0 {
        return |rcv.queue[0].data|;
      }
      if nRcvQue < rcv.queue[0].frg + 1 {
        return -1;
      }
      var length, i := 0, 0;
      while i < |rcv.queue|
        invariant 0 <= i <= |rcv.queue|
        invariant length + |FirstMessage(rcv.queue[i..]).0| == |FirstMessage(rcv.queue).0|
      {
        length := length + |rcv.queue[i].data|;
        if rcv.queue[i].frg == 0 {
          return length;
        }
        assert rcv.queue[i..][1..] == rcv.queue[i + 1..];
        i := i + 1;
      }
      return length;
    }

    /** Move in-order segments from rcv_buf to rcv_queue. */
    method MoveReady()
      requires Valid()
      modifies this`rcv, this`nRcvBuf, this`nRcvQue
      ensures Valid() && rcv == Advance(WRAP, old(rcv), cf.rcvWnd)
    {
      while rcv.buf != [] && rcv.buf[0].sn == rcv.nxt && nRcvQue < cf.rcvWnd
        invariant Valid()
        invariant Advance(WRAP, rcv, cf.rcvWnd) == Advance(WRAP, old(rcv), cf.rcvWnd)
        decreases |rcv.buf|
      {
        rcv := rcv.(buf := rcv.buf[1..], queue := rcv.queue + [rcv.buf[0]], nxt := U32(rcv.nxt + 1));
        nRcvQue := nRcvQue + 1;
        nRcvBuf := nRcvBuf - 1;
      }
    }

    method Recv(len: int) returns (res: RecvResult)
      requires Valid()
      modifies this`rcv, this`nRcvBuf, this`nRcvQue, this`askTell
      ensures Valid() && (res, Model()) == KcpModel.Recv(WRAP, old(Model()), len)
      ensures res.Received? ==> |res.msg| == PeekSize(old(rcv))
    {
      if rcv.queue == [] {
        return RecvError(-1);
      }
      var size := Peek();
      if size < 0 {
        return RecvError(-2);
      }
      if size > (if len < 0 then -len else len) {
        return RecvError(-3);
      }
      var recover := nRcvQue >= cf.rcvWnd;
      var msg, n := TakeMessage(rcv.queue);
      if len >= 0 {
        rcv := rcv.(queue := rcv.queue[n..]);
        nRcvQue := nRcvQue - n;
      }
      MoveReady();
      if nRcvQue < cf.rcvWnd && recover {
        askTell := true;
      }
      return Received(msg);
    }

    // ---- ikcp_input ----

    method ShrinkBuf()
      modifies this`snd
      ensures snd == Shrink(old(snd))
    {
      if snd.buf != [] {
        snd := snd.(una := snd.buf[0].wire.sn);
      } else {
        snd := snd.(una := snd.nxt);
      }
    }

    method ParseUna(una: int)
      requires Valid()
      modifies this`snd, this`nSndBuf
      ensures Valid() && snd == KcpModel.ParseUna(WRAP, old(snd), una)
    {
      while snd.buf != [] && TimeDiff(una, snd.buf[0].wire.sn) > 0
        invariant Valid() && snd == old(snd).(buf := snd.buf)
        invariant DropBelow(WRAP, snd.buf, una) == DropBelow(WRAP, old(snd.buf), una)
        decreases |snd.buf|
      {
        snd := snd.(buf := snd.buf[1..]);
        nSndBuf := nSndBuf - 1;
      }
      ShrinkBuf();
    }

    method ParseAck(sn: int)
      requires Valid()
      modifies this`snd, this`nSndBuf
      ensures Valid() && snd == KcpModel.ParseAck(WRAP, old(snd), sn)
    {
      if TimeDiff(sn, snd.una) >= 0 && TimeDiff(sn, snd.nxt) < 0 {
        var i := FindAck(WRAP, snd.buf, sn);
        if i < |snd.buf| && sn == snd.buf[i].wire.sn {
          snd := snd.(buf := snd.buf[..i] + snd.buf[i + 1..]);
          nSndBuf := nSndBuf - 1;
        }
      }
      ShrinkBuf();
    }

    method ParseFastAck(sn: int)
      requires Valid()
      modifies this`snd
      ensures Valid() && snd == KcpModel.ParseFastAck(WRAP, old(snd), sn)
    {
      if TimeDiff(sn, snd.una) >= 0 && TimeDiff(sn, snd.nxt) < 0 {
        var buf := CountSkips(WRAP, snd.buf, sn);
        KcpWindow.BumpKeepsWires(WRAP, snd.buf, sn);
        snd := snd.(buf := buf);
      }
    }

    /** ikcp_update_ack. */
    method UpdateAck(age: nat)
      modifies this`rtt
      ensures rtt == UpdateRtt(cf, old(rtt), age)
      ensures cf.minRto <= rtt.rto <= RTO_MAX
    {
      KcpRuns.RttBounds(cf, rtt, age);
      rtt := SmoothTimes(cf, rtt, age);
    }

    /** ikcp_parse_data: place the segment by a scan from the tail. */
    method ParseData(w: Wire)
      requires Valid()
      modifies this`rcv, this`nRcvBuf, this`nRcvQue
      ensures Valid() && rcv == KcpModel.ParseData(WRAP, old(rcv), cf.rcvWnd, w)
    {
      if TimeDiff(w.sn, rcv.nxt + cf.rcvWnd) >= 0 || TimeDiff(w.sn, rcv.nxt) < 0 {
        return;
      }
      var p := ScanBack(WRAP, rcv.buf, w.sn);
      if p == 0 || rcv.buf[p - 1].sn != w.sn {
        rcv := rcv.(buf := rcv.buf[..p] + [w] + rcv.buf[p..]);
        nRcvBuf := nRcvBuf + 1;
      }
      assert rcv == old(rcv).(buf := Insert(WRAP, old(rcv).buf, w));
      MoveReady();
    }

    /** The IKCP_CMD_PUSH branch. */
    method TakePush(w: Wire)
      requires Valid()
      modifies this`rcv, this`nRcvBuf, this`nRcvQue
      ensures Valid() && rcv == Push(WRAP, old(rcv), cf.rcvWnd, w)
    {
      if TimeDiff(w.sn, rcv.nxt + cf.rcvWnd) < 0 {
        rcv := rcv.(acks := rcv.acks + [Ack(w.sn, w.ts)]);
        if TimeDiff(w.sn, rcv.nxt) >= 0 {
          ParseData(w);
        }
      }
    }

    /** The IKCP_CMD_ACK branch. */
    method TakeAck(w: Wire)
      requires Valid()
      modifies this`snd, this`nSndBuf, this`rtt
      ensures Valid() && snd == KcpModel.ParseAck(WRAP, old(snd), w.sn)
      ensures var age := TimeDiff(clk.current, w.ts);
              rtt == if age >= 0 then UpdateRtt(cf, old(rtt), age) else old(rtt)
    {
      var age := TimeDiff(clk.current, w.ts);
      if age >= 0 {
        UpdateAck(age);
      }
      ParseAck(w.sn);
    }

    /** One segment of a datagram. */
    method TakeSegment(w: Wire)
      requires Valid()
      modifies this`snd, this`nSndBuf, this`rcv, this`nRcvBuf, this`nRcvQue, this`cong, this`rtt, this`askTell
      ensures Valid() && Model() == InputSeg(WRAP, old(Model()), w)
    {
      SegmentThenCommand(Model(), w);
      cong := cong.(rmtWnd := w.wnd);
      ParseUna(w.una);
      TakeCommand(w);
    }

    /** The branches on the command. */
    method TakeCommand(w: Wire)
      requires Valid()
      modifies this`snd, this`nSndBuf, this`rcv, this`nRcvBuf, this`nRcvQue, this`rtt, this`askTell
      ensures Valid() && Model() == Commanded(old(Model()), w)
    {
      if w.cmd == CMD_ACK {
        TakeAck(w);
      } else if w.cmd == CMD_PUSH {
        TakePush(w);
      } else if w.cmd == CMD_WASK {
        askTell := true;
      }
    }

    /** Congestion window growth after the loop of ikcp_input. */
    method GrowWindow()
      modifies this`cong
      ensures cong == Grow(old(cong), Mss(cf))
    {
      if cong.cwnd < cong.rmtWnd {
        var mss := Mss(cf);
        var cwnd, incr := cong.cwnd, cong.incr;
        if cwnd < cong.ssthresh {
          cwnd, incr := U32(cwnd + 1), U32(incr + mss);
        } else {
          if incr < mss {
            incr := mss;
          }
          incr := U32(incr + Quot(U32(mss * mss), incr) + mss / 16);
          if U32(U32(cwnd + 1) * mss) <= incr {
            cwnd := Quot(U32(incr + mss - 1), mss);
          }
        }
        if cwnd > cong.rmtWnd {
          cwnd, incr := cong.rmtWnd, U32(cong.rmtWnd * mss);
        }
        cong := cong.(cwnd := cwnd, incr := incr);
      }
    }

    method Input(data: seq<Byte>) returns (code: int)
      requires Valid()
      modifies this`snd, this`nSndBuf, this`rcv, this`nRcvBuf, this`nRcvQue, this`cong, this`rtt, this`askTell
      ensures Valid() && (code, Model()) == InputBytes(WRAP, old(Model()), data)
    {
      if |data| < OVERHEAD {
        return -1;
      }
      var prevUna, maxAck, cmd, d := snd.una, NoAck, 0, data;
      while |d| >= OVERHEAD
        invariant Valid()
        invariant InputBytesFrom(WRAP, Model(), maxAck, prevUna, cmd, d) == InputBytes(WRAP, old(Model()), data)
        decreases |d|
      {
        var (h, len) := DecodeHead(d);
        if h.conv != cf.conv {
          return -1;
        }
        if |d| - OVERHEAD < len || len >= HALF {
          return -2;
        }
        if !KnownCmd(h.cmd) {
          return -3;
        }
        var w := h.(data := d[OVERHEAD..OVERHEAD + len]);
        TakeSegment(w);
        if w.cmd == CMD_ACK && (maxAck.NoAck? || TimeDiff(w.sn, maxAck.sn) > 0) {
          maxAck := MaxAck(w.sn);
        }
        cmd := w.cmd;
        d := d[OVERHEAD + len..];
      }
      InputDone(maxAck, prevUna);
      return cmd;
    }

    /** After the last segment of a datagram. */
    method InputDone(maxAck: MaxAck, prevUna: int)
      requires Valid()
      modifies this`snd, this`cong
      ensures Valid() && Model() == InputEnd(WRAP, old(Model()), maxAck, prevUna)
    {
      if maxAck.MaxAck? {
        ParseFastAck(maxAck.sn);
      }
      if TimeDiff(snd.una, prevUna) > 0 {
        GrowWindow();
      }
    }

    // ---- ikcp_flush ----

    /** Move fragments from snd_queue to snd_buf. */
    method FillBuf(wnd: nat, unused: nat)
      requires Valid() && unused == WndUnused(Model())
      modifies this`snd, this`nSndQue, this`nSndBuf
      ensures Valid() && Model() == Fill(WRAP, old(Model()), wnd)
    {
      ghost var k := Model();
      ghost var full := Fill(WRAP, k, wnd);
      while TimeDiff(snd.nxt, snd.una + wnd) < 0 && snd.queue != []
        invariant Valid() && Model() == k && unused == WndUnused(k) && Fill(WRAP, k, wnd) == full
        decreases |snd.queue|
      {
        FillMore(k, wnd);
        k := NumberNext(WRAP, k);
        NumberOne(unused);
      }
      FillDone(k, wnd);
    }

    /** Give the first fragment of snd_queue the next number. */
    method NumberOne(unused: nat)
      requires Valid() && snd.queue != [] && unused == WndUnused(Model())
      modifies this`snd, this`nSndQue, this`nSndBuf
      ensures Valid() && Model() == NumberNext(WRAP, old(Model())) && |snd.queue| == |old(snd).queue| - 1
    {
      var f := snd.queue[0];
      var seg := SndSeg(Wire(cf.conv, CMD_PUSH, f.frg, unused, clk.current, snd.nxt, rcv.nxt, f.data),
                        clk.current, rtt.rto, 0, 0);
      snd := snd.(queue := snd.queue[1..], nxt := U32(snd.nxt + 1), buf := snd.buf + [seg]);
      nSndQue, nSndBuf := nSndQue - 1, nSndBuf + 1;
    }

    /** What the acknowledgements and window probes are, and the probe timer. */
    method WriteOut(unused: nat) returns (timer: Clock, o: Outbox)
      requires unused == WndUnused(Model())
      ensures timer == ProbeTimer(clk, cong.rmtWnd).0
      ensures Holds(o, ControlWires(Model()), cf.mtu)
    {
      var ask;
      timer, ask := RunProbeTimer(clk, cong.rmtWnd);
      o := WriteAnswers(cf, rcv.acks, rcv.nxt, unused, ask || askSend, askTell, Model());
    }

    /** Write the acknowledgements and window probes; empty the ack list. */
    method FlushControl(unused: nat) returns (o: Outbox)
      requires unused == WndUnused(Model())
      modifies this`rcv, this`clk, this`askSend, this`askTell
      ensures rcv == old(rcv).(acks := [])
      ensures Model() == Answered(old(Model()), ProbeTimer(old(clk), cong.rmtWnd).0)
      ensures Holds(o, ControlWires(old(Model())), cf.mtu)
    {
      var timer;
      timer, o := WriteOut(unused);
      clk, rcv, askSend, askTell := timer, rcv.(acks := []), false, false;
    }

    /** Everything before the pass over snd_buf. */
    method FlushPrepare() returns (o: Outbox, wnd: nat)
      requires Valid() && clk.updated
      modifies this`rcv, this`clk, this`askSend, this`askTell, this`snd, this`nSndQue, this`nSndBuf
      ensures Valid() && Model() == FlushFill(WRAP, old(Model())) && wnd == SendWindow(cf, cong)
      ensures Holds(o, ControlWires(old(Model())), cf.mtu)
    {
      var unused := (if nRcvQue < cf.rcvWnd then cf.rcvWnd - nRcvQue else 0) % 0x1_0000;
      ghost var k := Model();
      o := FlushControl(unused);
      wnd := Min(cf.sndWnd, cong.rmtWnd);
      if !cf.noCwnd {
        wnd := Min(cong.cwnd, wnd);
      }
      AnsweredFill(WRAP, k, wnd);
      FillBuf(wnd, unused);
    }

    /** The pass over snd_buf and the window updates after it. */
    method FlushData(o: Outbox, wnd: nat, ghost ws: seq<Wire>) returns (o': Outbox)
      requires Valid() && Holds(o, ws, cf.mtu)
      modifies this`snd, this`xmit, this`dead, this`cong
      ensures Valid() && Model() == FlushBuf(old(Model()), wnd)
      ensures Holds(o', ws + DueWires(old(Model()), old(snd.buf)), cf.mtu)
    {
      var buf, lost, isDead, cut;
      buf, lost, isDead, cut, o' := Pass(Model(), o, wnd, ws);
      cong, snd, xmit, dead := cut, snd.(buf := buf), U32(xmit + lost), dead || isDead;
    }

    method Flush()
      requires Valid()
      modifies this`rcv, this`clk, this`askSend, this`askTell, this`snd, this`nSndQue, this`nSndBuf,
               this`xmit, this`dead, this`cong, this`output
      ensures Valid() && Model() == FlushState(WRAP, old(Model()))
      ensures output == old(output) + Bytes(Datagrams(FlushWires(WRAP, old(Model())), cf.mtu))
    {
      if !clk.updated {
        assert output + Bytes([]) == output;
        return;
      }
      ghost var ws := FlushWires(WRAP, Model());
      var o, wnd := FlushPrepare();
      o := FlushData(o, wnd, ControlWires(old(Model())));
      var sent := Drain(o, cf.mtu, ws);
      output := output + sent;
    }

    // ---- ikcp_update and ikcp_check ----

    method Update(now: nat)
      requires Valid()
      modifies this`rcv, this`clk, this`askSend, this`askTell, this`snd, this`nSndQue, this`nSndBuf,
               this`xmit, this`dead, this`cong, this`output
      ensures Valid() && Model() == UpdateState(WRAP, old(Model()), now)
      ensures output == old(output) + Bytes(Datagrams(UpdateWires(WRAP, old(Model()), now), cf.mtu))
    {
      var flush;
      clk, flush := TickClock(clk, cf.interval, now);
      if flush {
        Flush();
      } else {
        assert output + Bytes([]) == output;
      }
    }

    method Check(now: nat) returns (t: nat)
      ensures t == KcpModel.Check(Model(), now)
    {
      if !clk.updated {
        return now;
      }
      var d := TimeDiff(now, clk.tsFlush);
      if d >= 10000 || d < -10000 || d >= 0 {
        return now;
      }
      var wait, i := HALF - 1, 0;
      while i < |snd.buf|
        invariant 0 <= i <= |snd.buf| && wait == NextResend(snd.buf[..i], now) && wait > 0
      {
        var diff := TimeDiff(snd.buf[i].resendTs, now);
        assert snd.buf[..i + 1][..i] == snd.buf[..i];
        if diff <= 0 {
          ResendDue(snd.buf, now, i);
          return now;
        }
        if diff < wait {
          wait := diff;
        }
        i := i + 1;
      }
      assert snd.buf[..|snd.buf|] == snd.buf;
      return U32(now + Min(Min(wait, TimeDiff(clk.tsFlush, now)), cf.interval));
    }
  }

  lemma {:induction false} ResendDue(buf: seq<SndSeg>, now: nat, i: nat)
    requires i < |buf| && TimeDiff(buf[i].resendTs, now) <= 0
    ensures NextResend(buf, now) <= 0
  {
    if i < |buf| - 1 {
      ResendDue(buf[..|buf| - 1], now, i);
    }
  }

  /** The branch of ikcp_update_ack for all samples but the first. */
  method SmoothNext(wasSrtt: int, wasVal: int, age: nat) returns (srtt: int, rttVal: int)
    ensures srtt == NewSrtt(wasSrtt, age) && rttVal == NewRttVal(wasVal, Abs(age - wasSrtt))
  {
    var delta := age - wasSrtt;
    if delta < 0 {
      delta := -delta;
    }
    rttVal := Trunc(I32(3 * wasVal) + delta, 4);
    srtt := Trunc(I32(I32(7 * wasSrtt) + age), 8);
    if srtt < 1 {
      srtt := 1;
    }
  }

  /** The times that ikcp_update_ack sets. */
  method SmoothTimes(cf: Conf, was: Rtt, age: nat) returns (r: Rtt)
    ensures r == UpdateRtt(cf, was, age)
  {
    var srtt, rttVal := age, age / 2;
    if was.srtt != 0 {
      srtt, rttVal := SmoothNext(was.srtt, was.rttVal, age);
    }
    var rto := U32(srtt + Max(cf.interval, U32(I32(4 * rttVal))));
    r := Rtt(srtt, rttVal, BoundRto(cf, rto));
  }

  lemma FillMore(k: Kcb, wnd: nat)
    requires WRAP.diff(k.snd.nxt, k.snd.una + wnd) < 0 && k.snd.queue != []
    ensures Fill(WRAP, k, wnd) == Fill(WRAP, NumberNext(WRAP, k), wnd)
    ensures WndUnused(NumberNext(WRAP, k)) == WndUnused(k)
  {
  }

  lemma FillDone(k: Kcb, wnd: nat)
    requires WRAP.diff(k.snd.nxt, k.snd.una + wnd) >= 0 || k.snd.queue == []
    ensures Fill(WRAP, k, wnd) == k
  {
  }

  /** What the command of a segment asks for. */
  function Commanded(k: Kcb, w: Wire): Kcb {
    var age := TimeDiff(k.clk.current, w.ts);
    if w.cmd == CMD_ACK then
      k.(snd := KcpModel.ParseAck(WRAP, k.snd, w.sn), rtt := if age >= 0 then UpdateRtt(k.cf, k.rtt, age) else k.rtt)
    else if w.cmd == CMD_PUSH then k.(rcv := Push(WRAP, k.rcv, k.cf.rcvWnd, w))
    else if w.cmd == CMD_WASK then k.(askTell := true)
    else k
  }

  lemma SegmentThenCommand(k: Kcb, w: Wire)
    ensures InputSeg(WRAP, k, w)
            == Commanded(k.(snd := KcpModel.ParseUna(WRAP, k.snd, w.una), cong := k.cong.(rmtWnd := w.wnd)), w)
  {
  }

  // ---- writing datagrams ----

  /** The send buffer and the datagrams handed to the output callback. */
  datatype Outbox = Outbox(buffer: seq<Byte>, sent: seq<seq<Byte>>)

  /** After the segments `ws`: what is output and what waits in the buffer. */
  ghost predicate Holds(o: Outbox, ws: seq<Wire>, mtu: nat) {
    var p := PackAll(ws, mtu);
    o == Outbox(EncodeAll(p.cur), Bytes(p.out))
  }

  lemma BytesSnoc(ds: seq<seq<Wire>>, d: seq<Wire>)
    ensures Bytes(ds + [d]) == Bytes(ds) + [EncodeAll(d)]
  {
  }

  /** Output the buffer first if the segment would not fit, then encode it. */
  method Write(o: Outbox, w: Wire, mtu: nat, ghost ws: seq<Wire>) returns (o': Outbox)
    requires Holds(o, ws, mtu)
    ensures Holds(o', ws + [w], mtu)
  {
    ghost var p := PackAll(ws, mtu);
    EncodeAllSize(p.cur);
    EncodeAllSnoc(p.cur, w);
    EncodeAllSnoc([], w);
    BytesSnoc(p.out, p.cur);
    assert (ws + [w])[..|ws|] == ws;
    assert [] + [w] == [w];
    o' := o;
    if |o.buffer| + OVERHEAD + |w.data| > mtu {
      if |o.buffer| > 0 {
        o' := o'.(sent := o'.sent + [o.buffer]);
      }
      o' := o'.(buffer := []);
    }
    o' := o'.(buffer := o'.buffer + Encode(w));
  }

  /** The timer arithmetic of ikcp_update. */
  method TickClock(clk: Clock, interval: nat, now: nat) returns (c: Clock, flush: bool)
    ensures (c, flush) == Tick(clk, interval, now)
  {
    c := clk.(current := now);
    if !c.updated {
      c := c.(updated := true, tsFlush := now);
    }
    var slap := TimeDiff(now, c.tsFlush);
    if slap >= 10000 || slap < -10000 {
      c := c.(tsFlush := now);
      slap := 0;
    }
    flush := slap >= 0;
    if flush {
      c := c.(tsFlush := U32(c.tsFlush + interval));
      if TimeDiff(now, c.tsFlush) >= 0 {
        c := c.(tsFlush := U32(now + interval));
      }
    }
  }

  /** The pass over snd_buf, and the window that comes of it. */
  method Pass(k: Kcb, o: Outbox, wnd: nat, ghost ws: seq<Wire>)
    returns (buf: seq<SndSeg>, lost: nat, dead: bool, cut: Cong, o': Outbox)
    requires Holds(o, ws, k.cf.mtu)
    ensures |buf| == |k.snd.buf| && FlushBuf(k, wnd) == AfterPass(k, buf, lost, dead, cut)
    ensures Holds(o', ws + DueWires(k, k.snd.buf), k.cf.mtu)
  {
    var change;
    buf, lost, change, dead, o' := Sweep(k, o, ws);
    cut := CutWindow(k, wnd, change > 0, lost > 0);
    SweptState(k, wnd, buf, lost, change, dead, cut);
  }

  lemma SweptState(k: Kcb, wnd: nat, buf: seq<SndSeg>, lost: nat, change: nat, dead: bool, cut: Cong)
    requires buf == TouchAll(k, k.snd.buf) && cut == FlushCong(k, wnd, change > 0, lost > 0)
    requires lost == CountJudged(k, k.snd.buf, Timeout) && change == CountJudged(k, k.snd.buf, Fast)
    requires dead <==> exists i :: 0 <= i < |k.snd.buf| && DeadSeg(k, k.snd.buf[i])
    ensures FlushBuf(k, wnd) == AfterPass(k, buf, lost, dead, cut)
  {
  }

  /** The window updates that end ikcp_flush. */
  method CutWindow(k: Kcb, wnd: nat, change: bool, lost: bool) returns (c: Cong)
    ensures c == FlushCong(k, wnd, change, lost)
  {
    var mss := Mss(k.cf);
    c := k.cong;
    if change {
      var th := Max(U32(k.snd.nxt - k.snd.una) / 2, THRESH_MIN);
      var cwnd := U32(th + Resent(k.cf));
      c := c.(ssthresh := th, cwnd := cwnd, incr := U32(cwnd * mss));
    }
    if lost {
      c := c.(ssthresh := Max(wnd / 2, THRESH_MIN), cwnd := 1, incr := mss);
    }
    if c.cwnd < 1 {
      c := c.(cwnd := 1, incr := mss);
    }
  }

  /** The acknowledgement loop of ikcp_flush, reusing one header. */
  method WriteAcks(w: Wire, acks: seq<Ack>, mtu: nat) returns (o: Outbox)
    ensures Holds(o, Headed(w, acks), mtu)
  {
    ghost var all := Headed(w, acks);
    o := Outbox([], []);
    var i := 0;
    while i < |acks|
      invariant 0 <= i <= |acks| && Holds(o, all[..i], mtu)
    {
      o := Write(o, w.(sn := acks[i].sn, ts := acks[i].ts), mtu, all[..i]);
      assert all[..i + 1] == all[..i] + [all[i]];
      i := i + 1;
    }
    assert all[..|acks|] == all;
  }

  /** One header with the numbers of each acknowledgement. */
  function Headed(w: Wire, acks: seq<Ack>): seq<Wire> {
    seq(|acks|, i requires 0 <= i < |acks| => w.(sn := acks[i].sn, ts := acks[i].ts))
  }

  function Probes(w: Wire, ask: bool, tell: bool): seq<Wire> {
    (if ask then [w.(cmd := CMD_WASK)] else []) + (if tell then [w.(cmd := CMD_WINS)] else [])
  }

  /** The window probe's timer in ikcp_flush. */
  method RunProbeTimer(was: Clock, rmtWnd: nat) returns (clk: Clock, ask: bool)
    ensures (clk, ask) == ProbeTimer(was, rmtWnd)
    ensures KcpRuns.ProbeOk(was) ==> KcpRuns.ProbeOk(clk)
    ensures KcpRuns.ProbeOk(was) ==>
              (ask <==> rmtWnd == 0 && was.probeWait > 0 && TimeDiff(was.current, was.tsProbe) >= 0)
  {
    if KcpRuns.ProbeOk(was) {
      KcpRuns.ProbeTimerOk(was, rmtWnd);
    }
    clk, ask := was, false;
    if rmtWnd == 0 {
      if clk.probeWait == 0 {
        clk := clk.(probeWait := PROBE_INIT, tsProbe := U32(clk.current + PROBE_INIT));
      } else if TimeDiff(clk.current, clk.tsProbe) >= 0 {
        var wait := clk.probeWait;
        if wait < PROBE_INIT {
          wait := PROBE_INIT;
        }
        wait := U32(wait + wait / 2);
        if wait > PROBE_LIMIT {
          wait := PROBE_LIMIT;
        }
        clk := clk.(probeWait := wait, tsProbe := U32(clk.current + wait));
        ask := true;
      }
    } else {
      clk := clk.(tsProbe := 0, probeWait := 0);
    }
  }

  /** The state when acknowledgements and probes have been written. */
  function Answered(k: Kcb, clk: Clock): Kcb {
    k.(clk := clk, rcv := k.rcv.(acks := []), askSend := false, askTell := false)
  }

  lemma AnsweredFill(ar: Arith, k: Kcb, wnd: nat)
    requires wnd == SendWindow(k.cf, k.cong)
    ensures var k1 := Answered(k, ProbeTimer(k.clk, k.cong.rmtWnd).0);
            FlushFill(ar, k) == Fill(ar, k1, wnd) && WndUnused(k1) == WndUnused(k)
  {
  }

  method WriteControl(w: Wire, acks: seq<Ack>, ask: bool, tell: bool, mtu: nat) returns (o: Outbox)
    ensures Holds(o, Headed(w, acks) + Probes(w, ask, tell), mtu)
  {
    o := WriteAcks(w, acks, mtu);
    ghost var head := Headed(w, acks);
    ghost var first := if ask then [w.(cmd := CMD_WASK)] else [];
    ghost var second := if tell then [w.(cmd := CMD_WINS)] else [];
    if ask {
      o := Write(o, w.(cmd := CMD_WASK), mtu, head);
    }
    assert head + [] == head;
    if tell {
      o := Write(o, w.(cmd := CMD_WINS), mtu, head + first);
    }
    assert head + first + [] == head + first;
    Assoc(head, first, second);
  }

  /** The acknowledgements and the probes share one header, whose numbers are
      left at those of the last acknowledgement. */
  method WriteAnswers(cf: Conf, acks: seq<Ack>, nxt: int, unused: nat, ask: bool, tell: bool, ghost k: Kcb)
    returns (o: Outbox)
    requires k.cf == cf && k.rcv.acks == acks && k.rcv.nxt == nxt && unused == WndUnused(k) && tell == k.askTell
    requires ask == (k.askSend || ProbeTimer(k.clk, k.cong.rmtWnd).1)
    ensures Holds(o, ControlWires(k), cf.mtu)
  {
    var last := if acks == [] then Ack(0, 0) else acks[|acks| - 1];
    var w := Wire(cf.conv, CMD_ACK, 0, unused, last.ts, last.sn, nxt, []);
    o := WriteControl(w, acks, ask, tell, cf.mtu);
    ControlHeader(k, w, ask);
  }

  lemma ControlHeader(k: Kcb, w: Wire, ask: bool)
    requires w == AckWire(k, if k.rcv.acks == [] then Ack(0, 0) else k.rcv.acks[|k.rcv.acks| - 1])
    requires ask == (k.askSend || ProbeTimer(k.clk, k.cong.rmtWnd).1)
    ensures ControlWires(k) == Headed(w, k.rcv.acks) + Probes(w, ask, k.askTell)
  {
    assert AckWires(k) == Headed(w, k.rcv.acks);
  }

  /** Decide about one segment of snd_buf as ikcp_flush does. */
  method Consider(k: Kcb, s: SndSeg) returns (t: SndSeg, v: Verdict)
    ensures v == Judge(k, s) && t == Touch(k, s)
  {
    var now := k.clk.current;
    var resent := if k.cf.fastResend > 0 then k.cf.fastResend else M32 - 1;
    t, v := s, Keep;
    if s.xmit == 0 {
      var rtomin := if k.cf.nodelay then 0 else k.rtt.rto / 8;
      t, v := s.(xmit := U32(s.xmit + 1), rto := k.rtt.rto, resendTs := U32(now + k.rtt.rto + rtomin)), First;
    } else if TimeDiff(now, s.resendTs) >= 0 {
      var rto := U32(s.rto + (if k.cf.nodelay then k.rtt.rto / 2 else k.rtt.rto));
      t, v := s.(xmit := U32(s.xmit + 1), rto := rto, resendTs := U32(now + rto)), Timeout;
    } else if s.fastAck >= resent {
      if I32(s.xmit) <= k.cf.fastLimit || k.cf.fastLimit <= 0 {
        t, v := s.(xmit := U32(s.xmit + 1), fastAck := 0, resendTs := U32(now + s.rto)), Fast;
      }
    }
    if !v.Keep? {
      t := t.(wire := t.wire.(ts := now, wnd := WndUnused(k), una := k.rcv.nxt));
    }
  }

  /** What the loop has found and changed in the first `i` segments. */
  ghost predicate Swept(k: Kcb, i: nat, buf: seq<SndSeg>, lost: nat, change: nat, dead: bool)
    requires i <= |k.snd.buf|
  {
    var all := k.snd.buf;
    && buf == TouchAll(k, all[..i])
    && lost == CountJudged(k, all[..i], Timeout) && change == CountJudged(k, all[..i], Fast)
    && (dead <==> exists j :: 0 <= j < i && DeadSeg(k, all[j]))
  }

  lemma SweepStep(k: Kcb, i: nat, buf: seq<SndSeg>, lost: nat, change: nat, dead: bool)
    requires i < |k.snd.buf| && Swept(k, i, buf, lost, change, dead)
    ensures var s := k.snd.buf[i];
            Swept(k, i + 1, buf + [Touch(k, s)], lost + (if Judge(k, s) == Timeout then 1 else 0),
                  change + (if Judge(k, s) == Fast then 1 else 0), dead || DeadSeg(k, s))
  {
    assert k.snd.buf[..i + 1][..i] == k.snd.buf[..i];
  }

  lemma DueStep(k: Kcb, buf: seq<SndSeg>, i: nat, ws: seq<Wire>)
    requires i < |buf|
    ensures ws + DueWires(k, buf[..i + 1]) ==
            if Judge(k, buf[i]).Keep? then ws + DueWires(k, buf[..i])
            else (ws + DueWires(k, buf[..i])) + [Touch(k, buf[i]).wire]
  {
    assert buf[..i + 1][..i] == buf[..i];
    Assoc(ws, DueWires(k, buf[..i]), [Touch(k, buf[i]).wire]);
  }

  lemma DueNone(k: Kcb, ws: seq<Wire>)
    ensures ws + DueWires(k, k.snd.buf[..0]) == ws
  {
  }

  /** The loop of ikcp_flush over snd_buf. */
  method Sweep(k: Kcb, o: Outbox, ghost ws: seq<Wire>)
    returns (buf: seq<SndSeg>, lost: nat, change: nat, dead: bool, o': Outbox)
    requires Holds(o, ws, k.cf.mtu)
    ensures buf == TouchAll(k, k.snd.buf)
    ensures lost == CountJudged(k, k.snd.buf, Timeout) && change == CountJudged(k, k.snd.buf, Fast)
    ensures dead <==> exists i :: 0 <= i < |k.snd.buf| && DeadSeg(k, k.snd.buf[i])
    ensures Holds(o', ws + DueWires(k, k.snd.buf), k.cf.mtu)
  {
    var all, i := k.snd.buf, 0;
    buf, lost, change, dead, o' := [], 0, 0, false, o;
    ghost var due := ws;
    DueNone(k, ws);
    while i < |all|
      invariant 0 <= i <= |all| == |k.snd.buf|
      invariant Swept(k, i, buf, lost, change, dead)
      invariant Holds(o', due, k.cf.mtu) && due == ws + DueWires(k, all[..i])
    {
      var t, v := Consider(k, all[i]);
      SweepStep(k, i, buf, lost, change, dead);
      DueStep(k, all, i, ws);
      lost := lost + (if v == Timeout then 1 else 0);
      change := change + (if v == Fast then 1 else 0);
      if !v.Keep? {
        o' := Write(o', t.wire, k.cf.mtu, due);
        due := due + [t.wire];
        dead := dead || t.xmit >= k.cf.deadLink;
      }
      buf := buf + [t];
      i := i + 1;
    }
    SliceAll(all);
  }

  /** Output the segments still in the buffer. */
  method Drain(o: Outbox, mtu: nat, ghost ws: seq<Wire>) returns (sent: seq<seq<Byte>>)
    requires Holds(o, ws, mtu)
    ensures sent == Bytes(Datagrams(ws, mtu))
  {
    ghost var p := PackAll(ws, mtu);
    EncodeAllSize(p.cur);
    BytesSnoc(p.out, p.cur);
    sent := if |o.buffer| > 0 then o.sent + [o.buffer] else o.sent;
  }

  // ---- the loops over one queue ----

  /** The fragmenting loop of ikcp_send. */
  method CutMessage(mss: nat, msg: seq<Byte>, count: nat, q: seq<Frag>) returns (queue: seq<Frag>)
    requires 0 < mss && count == FragmentCount(mss, |msg|)
    ensures queue == q + Cut(mss, msg) && |queue| == |q| + count
  {
    CutShape(mss, msg);
    var rest, i := msg, 0;
    queue := q;
    ghost var todo, all := Cut(mss, msg), q + Cut(mss, msg);
    while i < count
      invariant 0 <= i <= count && |todo| == count - i
      invariant i < count ==> todo == Cut(mss, rest)
      invariant queue + todo == all
    {
      var size := if |rest| > mss then mss else |rest|;
      CutFront(mss, rest, count - i);
      ghost var later := if count - i > 1 then Cut(mss, rest[size..]) else [];
      Assoc(queue, [Frag(count - i - 1, rest[..size])], later);
      todo := later;
      queue := queue + [Frag(count - i - 1, rest[..size])];
      rest := rest[size..];
      i := i + 1;
    }
  }

  lemma CutFront(mss: nat, msg: seq<Byte>, n: nat)
    requires 0 < mss && |Cut(mss, msg)| == n
    ensures var size := if |msg| > mss then mss else |msg|;
            && Cut(mss, msg) == [Frag(n - 1, msg[..size])] + (if n > 1 then Cut(mss, msg[size..]) else [])
            && (n > 1 ==> |Cut(mss, msg[size..])| == n - 1)
  {
    CutShape(mss, msg);
    if |msg| <= mss {
      assert msg[..|msg|] == msg;
    } else {
      CutShape(mss, msg[mss..]);
    }
  }

  /** The merging loop of ikcp_recv: the first message and its segment count. */
  method TakeMessage(q: seq<Wire>) returns (msg: seq<Byte>, n: nat)
    ensures (msg, n) == FirstMessage(q)
  {
    msg, n := [], 0;
    assert q[0..] == q && [] + FirstMessage(q).0 == FirstMessage(q).0;
    while n < |q|
      invariant 0 <= n <= |q|
      invariant FirstMessage(q).0 == msg + FirstMessage(q[n..]).0 && FirstMessage(q).1 == n + FirstMessage(q[n..]).1
    {
      ghost var rest := FirstMessage(q[n + 1..]).0;
      assert q[n..][1..] == q[n + 1..];
      assert msg + (q[n].data + rest) == msg + q[n].data + rest;
      msg := msg + q[n].data;
      n := n + 1;
      if q[n - 1].frg == 0 {
        return;
      }
    }
    assert msg + [] == msg;
  }

  /** The search of ikcp_parse_ack. */
  method FindAck(ar: Arith, buf: seq<SndSeg>, sn: int) returns (i: nat)
    ensures i <= |buf|
    ensures DropOne(ar, buf, sn) == if i < |buf| && sn == buf[i].wire.sn then buf[..i] + buf[i + 1..] else buf
  {
    i := 0;
    while i < |buf| && sn != buf[i].wire.sn && ar.diff(sn, buf[i].wire.sn) >= 0
      invariant 0 <= i <= |buf|
      invariant DropOne(ar, buf, sn) == buf[..i] + DropOne(ar, buf[i..], sn)
    {
      DropStep(ar, buf, sn, i);
      i := i + 1;
    }
    DropEnd(ar, buf, sn, i);
  }

  lemma DropStep(ar: Arith, buf: seq<SndSeg>, sn: int, i: nat)
    requires i < |buf| && sn != buf[i].wire.sn && ar.diff(sn, buf[i].wire.sn) >= 0
    ensures buf[..i] + DropOne(ar, buf[i..], sn) == buf[..i + 1] + DropOne(ar, buf[i + 1..], sn)
  {
    assert buf[i..][1..] == buf[i + 1..];
    assert buf[..i + 1] == buf[..i] + [buf[i]];
    Assoc(buf[..i], [buf[i]], DropOne(ar, buf[i + 1..], sn));
  }

  lemma DropEnd(ar: Arith, buf: seq<SndSeg>, sn: int, i: nat)
    requires i <= |buf| && (i < |buf| ==> sn == buf[i].wire.sn || ar.diff(sn, buf[i].wire.sn) < 0)
    ensures buf[..i] + DropOne(ar, buf[i..], sn)
            == if i < |buf| && sn == buf[i].wire.sn then buf[..i] + buf[i + 1..] else buf
  {
    if i < |buf| {
      assert buf[i..][1..] == buf[i + 1..];
    }
    assert buf[..i] + buf[i..] == buf;
  }

  /** The loop of ikcp_parse_fastack. */
  method CountSkips(ar: Arith, buf: seq<SndSeg>, sn: int) returns (b: seq<SndSeg>)
    ensures b == BumpSkipped(ar, buf, sn)
  {
    b := [];
    var i := 0;
    ghost var rest := BumpSkipped(ar, buf, sn);
    ghost var whole := rest;
    assert buf[0..] == buf;
    while i < |buf| && ar.diff(sn, buf[i].wire.sn) >= 0
      invariant 0 <= i <= |buf|
      invariant whole == b + rest && rest == BumpSkipped(ar, buf[i..], sn)
    {
      var s := if sn == buf[i].wire.sn then buf[i] else Skipped(buf[i]);
      rest := SkipStep(ar, buf, sn, i, s);
      Assoc(b, [s], rest);
      b := b + [s];
      i := i + 1;
    }
    SkipEnd(ar, buf, sn, i);
    b := b + buf[i..];
  }

  lemma SkipStep(ar: Arith, buf: seq<SndSeg>, sn: int, i: nat, s: SndSeg) returns (rest: seq<SndSeg>)
    requires i < |buf| && ar.diff(sn, buf[i].wire.sn) >= 0
    requires s == if sn == buf[i].wire.sn then buf[i] else Skipped(buf[i])
    ensures rest == BumpSkipped(ar, buf[i + 1..], sn)
    ensures BumpSkipped(ar, buf[i..], sn) == [s] + rest
  {
    assert buf[i..][1..] == buf[i + 1..];
    rest := BumpSkipped(ar, buf[i + 1..], sn);
  }

  lemma SkipEnd(ar: Arith, buf: seq<SndSeg>, sn: int, i: nat)
    requires i <= |buf| && (i < |buf| ==> ar.diff(sn, buf[i].wire.sn) < 0)
    ensures BumpSkipped(ar, buf[i..], sn) == buf[i..]
  {
  }

  /** The scan of ikcp_parse_data. */
  method ScanBack(ar: Arith, buf: seq<Wire>, sn: int) returns (p: nat)
    ensures p <= |buf| && p == Scan(ar, buf, sn, |buf|)
  {
    p := |buf|;
    while p > 0 && buf[p - 1].sn != sn && ar.diff(sn, buf[p - 1].sn) <= 0
      invariant 0 <= p <= |buf| && Scan(ar, buf, sn, p) == Scan(ar, buf, sn, |buf|)
    {
      p := p - 1;
    }
  }
}
