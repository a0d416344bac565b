// What single calls achieve on unbounded numbers: a due segment is written, the
// datagram that holds it advances the receiver, and the answer opens the window.
module KcpRounds {
  import opened Circular
  import opened Seqs
  import opened KcpModel
  import opened KcpWindow
  import opened KcpMessages
  import opened KcpLink
  import opened KcpSystem

  // ---- what is written is in some datagram ----

  /** Segment `w` is in a datagram of `net`. */
  ghost predicate OnNet(net: Net, w: Wire) { exists i :: 0 <= i < |net| && w in net[i] }

  lemma OnNetMore(a: Net, b: Net, w: Wire)
    requires OnNet(b, w)
    ensures OnNet(a + b, w)
  {
    var i :| 0 <= i < |b| && w in b[i];
    assert (a + b)[|a| + i] == b[i];
  }

  lemma PackOneHas(p: Packing, w: Wire, mtu: nat, v: Wire)
    requires OnNet(p.out + [p.cur], v) || v == w
    ensures var p' := PackOne(p, w, mtu); OnNet(p'.out + [p'.cur], v)
  {
    var p' := PackOne(p, w, mtu);
    var ds, ds' := p.out + [p.cur], p'.out + [p'.cur];
    assert ds'[|p'.out|] == p'.cur;
    if v != w {
      var i :| 0 <= i < |ds| && v in ds[i];
      assert i < |p.out| ==> ds'[i] == ds[i];
      assert i == |p.out| ==> v in p.cur;
      assert i == |p.out| && |p'.out| > |p.out| ==> ds'[i] == p.cur;
    }
  }

  lemma {:induction false} PackAllHas(ws: seq<Wire>, mtu: nat, w: Wire)
    requires w in ws
    ensures var p := PackAll(ws, mtu); OnNet(p.out + [p.cur], w)
  {
    var n := |ws| - 1;
    if w != ws[n] {
      assert w in ws[..n];
      PackAllHas(ws[..n], mtu, w);
    }
    PackOneHas(PackAll(ws[..n], mtu), ws[n], mtu, w);
  }

  lemma DatagramsHave(ws: seq<Wire>, mtu: nat, w: Wire)
    requires w in ws
    ensures OnNet(Datagrams(ws, mtu), w)
  {
    PackAllHas(ws, mtu, w);
    var p := PackAll(ws, mtu);
    var i :| 0 <= i < |p.out + [p.cur]| && w in (p.out + [p.cur])[i];
    assert p.cur == [] ==> i < |p.out|;
    assert i < |Datagrams(ws, mtu)| && w in Datagrams(ws, mtu)[i];
  }

  // ---- what a flush writes ----

  /** A flush at time `now`, which ikcp_update does by itself or leaves to ikcp_flush. */
  function FlushAt(s: Side, peer: Net, now: nat): Side { Act(EXACT, Ticked(s, now), peer, DoFlush) }

  lemma FlushAtParts(s: Side, peer: Net, now: nat)
    ensures var k, s' := Ticked(s, now).k, FlushAt(s, peer, now);
            && k.clk.updated && k.clk.current == U32(now) && k == s.k.(clk := k.clk)
            && k.clk.probeWait == s.k.clk.probeWait && k.clk.tsProbe == s.k.clk.tsProbe
            && s'.k == FlushState(EXACT, k)
            && s'.net == s.net + Datagrams(FlushWires(EXACT, k), s.k.cf.mtu)
            && s'.accepted == s.accepted && s'.delivered == s.delivered
  {
  }

  lemma Written(s: Side, peer: Net, now: nat, w: Wire)
    requires w in FlushWires(EXACT, Ticked(s, now).k)
    ensures OnNet(FlushAt(s, peer, now).net, w)
  {
    FlushAtParts(s, peer, now);
    DatagramsHave(FlushWires(EXACT, Ticked(s, now).k), s.k.cf.mtu, w);
    OnNetMore(s.net, Datagrams(FlushWires(EXACT, Ticked(s, now).k), s.k.cf.mtu), w);
  }

  /** Filling appends to snd_buf and changes the sender only. */
  lemma {:induction false} FillAppends(k: Kcb, wnd: nat)
    ensures var k' := Fill(EXACT, k, wnd);
            && k' == k.(snd := k'.snd) && k.snd.nxt <= k'.snd.nxt && k'.snd.una == k.snd.una
            && k.snd.buf <= k'.snd.buf
            && (k'.snd.nxt == k.snd.nxt ==> k' == k)
            && (k.snd.queue != [] && k.snd.nxt < k.snd.una + wnd ==> k.snd.nxt < k'.snd.nxt)
    decreases |k.snd.queue|
  {
    FillUnfold(k, wnd);
    if k.snd.queue != [] && k.snd.nxt < k.snd.una + wnd {
      FillAppends(NumberNext(EXACT, k), wnd);
    }
  }

  function Cleared(k: Kcb): Kcb {
    k.(clk := ProbeTimer(k.clk, k.cong.rmtWnd).0, rcv := k.rcv.(acks := []), askSend := false, askTell := false)
  }

  lemma FlushFillAppends(k: Kcb)
    ensures var k1 := FlushFill(EXACT, k);
            && k1 == Cleared(k).(snd := k1.snd) && k.snd.nxt <= k1.snd.nxt && k1.snd.una == k.snd.una
            && k.snd.buf <= k1.snd.buf
            && (k1.snd.nxt == k.snd.nxt ==> k1.snd == k.snd)
            && (k.snd.queue != [] && k.snd.nxt < k.snd.una + SendWindow(k.cf, k.cong) ==> k.snd.nxt < k1.snd.nxt)
  {
    FillAppends(Cleared(k), SendWindow(k.cf, k.cong));
  }

  lemma {:induction false} DueHas(k: Kcb, buf: seq<SndSeg>, n: nat)
    requires n < |buf| && !Judge(k, buf[n]).Keep?
    ensures Touch(k, buf[n]).wire in DueWires(k, buf)
  {
    if n < |buf| - 1 {
      DueHas(k, buf[..|buf| - 1], n);
    }
  }

  /** A segment of snd_buf is written by a flush at its resend time. */
  lemma ResendWritten(s: Side, peer: Net, n: nat) returns (w: Wire)
    requires n < |s.k.snd.buf|
    ensures w.cmd == s.k.snd.buf[n].wire.cmd && w.sn == s.k.snd.buf[n].wire.sn
    ensures OnNet(FlushAt(s, peer, s.k.snd.buf[n].resendTs).net, w)
  {
    var seg := s.k.snd.buf[n];
    var k := Ticked(s, seg.resendTs).k;
    FlushAtParts(s, peer, seg.resendTs);
    w := SegWritten(k, n);
    Written(s, peer, seg.resendTs, w);
  }

  lemma SegWritten(k: Kcb, n: nat) returns (w: Wire)
    requires k.clk.updated && n < |k.snd.buf| && k.clk.current == U32(k.snd.buf[n].resendTs)
    ensures w.cmd == k.snd.buf[n].wire.cmd && w.sn == k.snd.buf[n].wire.sn && w in FlushWires(EXACT, k)
  {
    var seg, k1 := k.snd.buf[n], FlushFill(EXACT, k);
    FlushFillAppends(k);
    assert k1.snd.buf[n] == seg;
    w := Touch(k1, seg).wire;
    DueNow(k1, seg);
    DueHas(k1, k1.snd.buf, n);
  }

  lemma DueNow(k: Kcb, s: SndSeg)
    requires k.clk.current == U32(s.resendTs)
    ensures !Judge(k, s).Keep? && Touch(k, s).wire.cmd == s.wire.cmd && Touch(k, s).wire.sn == s.wire.sn
  {
    SameTime(s.resendTs);
  }

  lemma SameTime(now: nat)
    ensures TimeDiff(U32(now), now) == 0
  {
    DiffExact(now, now);
  }

  /** All that one flush writes tells the same window and the same una. */
  lemma {:induction false} DueTells(k: Kcb, buf: seq<SndSeg>)
    ensures forall w | w in DueWires(k, buf) :: w.wnd == WndUnused(k) && w.una == k.rcv.nxt
  {
    if buf != [] {
      DueTells(k, buf[..|buf| - 1]);
    }
  }

  lemma ControlTells(k: Kcb)
    ensures forall w | w in ControlWires(k) :: w.wnd == WndUnused(k) && w.una == k.rcv.nxt
  {
  }

  lemma FlushTells(k: Kcb, w: Wire)
    requires w in FlushWires(EXACT, k)
    ensures w.wnd == WndUnused(k) && w.una == k.rcv.nxt
  {
    var k1 := FlushFill(EXACT, k);
    FlushFillAppends(k);
    ControlTells(k);
    DueTells(k1, k1.snd.buf);
    assert WndUnused(k1) == WndUnused(k);
  }

  /** Pending acknowledgements or a window report are written. */
  lemma AnswerWritten(k: Kcb) returns (w: Wire)
    requires k.clk.updated && (k.rcv.acks != [] || k.askTell)
    ensures w in FlushWires(EXACT, k)
  {
    if k.rcv.acks != [] {
      w := AckWire(k, k.rcv.acks[0]);
      assert AckWires(k)[0] == w;
    } else {
      w := AckWire(k, Ack(0, 0)).(cmd := CMD_WINS);
    }
    assert w in ControlWires(k);
  }

  // ---- what a datagram does to the receiver ----

  lemma SegMonotone(k: Kcb, w: Wire)
    ensures var k' := InputSeg(EXACT, k, w);
            && k'.cf == k.cf && k'.snd.nxt == k.snd.nxt && k'.snd.queue == k.snd.queue
            && k.rcv.nxt <= k'.rcv.nxt && |k.rcv.acks| <= |k'.rcv.acks| && (k.askTell ==> k'.askTell)
            && (w.cmd == CMD_PUSH && w.sn < k.rcv.nxt + k.cf.rcvWnd ==> k'.rcv.acks != [])
            && (w.cmd == CMD_WASK ==> k'.askTell)
  {
    if w.cmd == CMD_PUSH && w.sn < k.rcv.nxt + k.cf.rcvWnd {
      var r1 := k.rcv.(acks := k.rcv.acks + [Ack(w.sn, w.ts)]);
      AdvanceMonotone(r1.(buf := Insert(EXACT, k.rcv.buf, w)), k.cf.rcvWnd);
    }
  }

  lemma {:induction false} AdvanceMonotone(r: Receiver, wnd: nat)
    ensures var r' := Advance(EXACT, r, wnd); r.nxt <= r'.nxt && r'.acks == r.acks
    decreases |r.buf|
  {
    if r.buf != [] && r.buf[0].sn == r.nxt && |r.queue| < wnd {
      AdvanceMonotone(r.(buf := r.buf[1..], queue := r.queue + [r.buf[0]], nxt := EXACT.norm(r.nxt + 1)), wnd);
    }
  }

  lemma EndMonotone(k: Kcb, m: MaxAck, prevUna: int)
    ensures var k' := InputEnd(EXACT, k, m, prevUna);
            && k'.cf == k.cf && k'.snd == k.snd.(buf := k'.snd.buf)
            && k'.rcv == k.rcv && k'.askTell == k.askTell && k'.cong.rmtWnd == k.cong.rmtWnd
            && (k.snd.buf == [] ==> k'.snd.buf == [])
  {
  }

  lemma {:induction false} InputMonotone(k: Kcb, m: MaxAck, prevUna: int, ws: seq<Wire>)
    ensures var k' := InputFrom(EXACT, k, m, prevUna, ws);
            && k'.cf == k.cf && k'.snd.nxt == k.snd.nxt && k'.snd.queue == k.snd.queue
            && k.rcv.nxt <= k'.rcv.nxt && |k.rcv.acks| <= |k'.rcv.acks| && (k.askTell ==> k'.askTell)
    decreases |ws|
  {
    if ws == [] {
      EndMonotone(k, m, prevUna);
    } else {
      SegMonotone(k, ws[0]);
      InputMonotone(InputSeg(EXACT, k, ws[0]), NoteSeg(EXACT, m, ws[0]), prevUna, ws[1..]);
    }
  }

  /** Old data is acknowledged, and a window probe is answered. */
  lemma {:induction false} InputAsks(k: Kcb, m: MaxAck, prevUna: int, ws: seq<Wire>, w: Wire)
    requires w in ws
    ensures var k' := InputFrom(EXACT, k, m, prevUna, ws);
            && (w.cmd == CMD_PUSH && w.sn < k.rcv.nxt + k.cf.rcvWnd ==> k'.rcv.acks != [])
            && (w.cmd == CMD_WASK ==> k'.askTell)
    decreases |ws|
  {
    var k1, m1 := InputSeg(EXACT, k, ws[0]), NoteSeg(EXACT, m, ws[0]);
    SegMonotone(k, ws[0]);
    InputMonotone(k1, m1, prevUna, ws[1..]);
    if w != ws[0] {
      InputAsks(k1, m1, prevUna, ws[1..], w);
    }
  }

  /** The expected segment moves the receiver on, if its queue has room. */
  lemma TakeExpected(d: Dir, k: Kcb, w: Wire)
    requires Link(d) && d.rcv == k.rcv && d.wnd == k.cf.rcvWnd && DataOk(d.frags, d.snd.nxt, w)
    requires w.cmd == CMD_PUSH && w.sn == k.rcv.nxt && |k.rcv.queue| < d.wnd
    ensures InputSeg(EXACT, k, w).rcv.nxt > k.rcv.nxt
  {
    var r := k.rcv.(acks := k.rcv.acks + [Ack(w.sn, w.ts)]);
    AcceptLink(r, d.wnd, d.frags, d.snd.nxt, d.base, w);
    var r' := Push(EXACT, k.rcv, d.wnd, w);
    assert r' == Advance(EXACT, r.(buf := Insert(EXACT, r.buf, w)), d.wnd);
    if r'.nxt == w.sn {
      HeadDue(r', d.wnd);
    }
  }

  /** A receiver that has the number it expects has a full queue. */
  lemma HeadDue(r: Receiver, wnd: nat)
    requires RcvWindow(EXACT, r, wnd) && Held(r, r.nxt)
    ensures |r.queue| >= wnd
  {
    var i :| 0 <= i < |r.buf| && r.buf[i].sn == r.nxt;
    assert 0 <= Off(EXACT, r.buf[0].sn, r.nxt);
    assert forall j :: 0 < j < |r.buf| ==> Off(EXACT, r.buf[0].sn, r.nxt) < Off(EXACT, r.buf[j].sn, r.nxt);
  }

  lemma {:induction false} InputExpected(d: Dir, k: Kcb, m: MaxAck, prevUna: int, ws: seq<Wire>, w: Wire)
    requires Link(d) && d.rcv == k.rcv && d.wnd == k.cf.rcvWnd
    requires forall i :: 0 <= i < |ws| ==> DataOk(d.frags, d.snd.nxt, ws[i])
    requires w in ws && w.cmd == CMD_PUSH && w.sn <= k.rcv.nxt && w.sn - d.base < d.wnd
    ensures InputFrom(EXACT, k, m, prevUna, ws).rcv.nxt > w.sn
    decreases |ws|
  {
    var k1, m1 := InputSeg(EXACT, k, ws[0]), NoteSeg(EXACT, m, ws[0]);
    SegMonotone(k, ws[0]);
    InputMonotone(k1, m1, prevUna, ws[1..]);
    if w.sn == k.rcv.nxt {
      if w == ws[0] {
        TakeExpected(d, k, w);
      } else {
        InputSegAsReceiver(d, k, ws[0]);
        InputExpected(d.(rcv := k1.rcv), k1, m1, prevUna, ws[1..], w);
      }
    }
  }

  // ---- what an answer does to the sender ----

  /** All is acknowledged, and the peer's window is `wnd`. */
  predicate Learned(k: Kcb, wnd: nat) {
    k.snd.buf == [] && k.snd.una == k.snd.nxt && k.cong.rmtWnd == wnd
  }

  lemma {:induction false} DropAll(buf: seq<SndSeg>, una: int)
    requires forall i :: 0 <= i < |buf| ==> buf[i].wire.sn < una
    ensures DropBelow(EXACT, buf, una) == []
  {
    if buf != [] {
      DropAll(buf[1..], una);
    }
  }

  lemma SegLearned(k: Kcb, w: Wire)
    requires w.una == k.snd.nxt && forall i :: 0 <= i < |k.snd.buf| ==> k.snd.buf[i].wire.sn < k.snd.nxt
    ensures Learned(InputSeg(EXACT, k, w), w.wnd)
  {
    DropAll(k.snd.buf, w.una);
    var s := KcpModel.ParseUna(EXACT, k.snd, w.una);
    assert s.buf == [] && s.una == s.nxt;
  }

  lemma {:induction false} InputLearned(k: Kcb, m: MaxAck, prevUna: int, ws: seq<Wire>, wnd: nat)
    requires forall w | w in ws :: w.una == k.snd.nxt && w.wnd == wnd
    requires forall i :: 0 <= i < |k.snd.buf| ==> k.snd.buf[i].wire.sn < k.snd.nxt
    requires ws != [] || Learned(k, wnd)
    ensures Learned(InputFrom(EXACT, k, m, prevUna, ws), wnd)
    decreases |ws|
  {
    if ws == [] {
      EndMonotone(k, m, prevUna);
    } else {
      assert ws[0] in ws;
      SegLearned(k, ws[0]);
      SegMonotone(k, ws[0]);
      InputLearned(InputSeg(EXACT, k, ws[0]), NoteSeg(EXACT, m, ws[0]), prevUna, ws[1..], wnd);
    }
  }
}
