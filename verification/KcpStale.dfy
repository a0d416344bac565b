// Why the simulation asks for datagrams that are not too old: which data segments
// a receiver with 32-bit numbers takes for something else.
module KcpStale {
  import opened Circular
  import opened KcpModel
  import opened KcpWindow
  import opened KcpWrap

  /** The number is in rcv_buf. */
  predicate Buffered(r: Receiver, sn: int) { exists i :: 0 <= i < |r.buf| && r.buf[i].sn == sn }

  /** The 32-bit comparisons put a number that is `e` above the next one expected
      below the end of the window ... */
  predicate SeemsKnown(e: int, wnd: nat) { I32(e - wnd) < 0 }

  /** ... and in the window. */
  predicate SeemsNew(e: int, wnd: nat) { SeemsKnown(e, wnd) && I32(e) >= 0 }

  /** Where the two arithmetics agree on a data segment: they acknowledge it or
      not alike, and an old one that seems new is in rcv_buf under another number. */
  predicate Alike(r: Receiver, wnd: nat, e: int) {
    && (SeemsKnown(e, wnd) <==> e < wnd)
    && (e < 0 && SeemsNew(e, wnd) ==> Buffered(r, r.nxt + U32(e)))
  }

  // ---- what a push changes ----

  lemma {:induction false} AdvanceCounts(ar: Arith, r: Receiver, wnd: nat)
    ensures var r' := Advance(ar, r, wnd);
            r'.acks == r.acks && |r'.buf| + |r'.queue| == |r.buf| + |r.queue|
    decreases |r.buf|
  {
    if r.buf != [] && r.buf[0].sn == r.nxt && |r.queue| < wnd {
      AdvanceCounts(ar, r.(buf := r.buf[1..], queue := r.queue + [r.buf[0]], nxt := ar.norm(r.nxt + 1)), wnd);
    }
  }

  lemma PushAcks(ar: Arith, r: Receiver, wnd: nat, w: Wire)
    ensures |Push(ar, r, wnd, w).acks| == |r.acks| + if ar.diff(w.sn, r.nxt + wnd) < 0 then 1 else 0
  {
    AdvanceCounts(ar, r.(acks := r.acks + [Ack(w.sn, w.ts)], buf := Insert(ar, r.buf, w)), wnd);
  }

  /** The scan finds a buffered number. */
  lemma ScanFinds(r: Receiver, wnd: nat, sn: int)
    requires RcvWindow(EXACT, r, wnd)
    ensures var p := Scan(EXACT, r.buf, sn, |r.buf|);
            p > 0 && r.buf[p - 1].sn == sn <==> Buffered(r, sn)
  {
    var p := Scan(EXACT, r.buf, sn, |r.buf|);
    ScanSkips(EXACT, r.buf, sn, |r.buf|);
    forall i, j | 0 <= i < j < |r.buf| ensures r.buf[i].sn < r.buf[j].sn {
      assert Off(EXACT, r.buf[i].sn, r.nxt) < Off(EXACT, r.buf[j].sn, r.nxt);
    }
  }

  /** A segment in the window adds to the receiver unless it is there already. */
  lemma PushCounts(r: Receiver, wnd: nat, w: Wire)
    requires RcvWindow(EXACT, r, wnd) && 0 <= w.sn - r.nxt < wnd
    ensures var r' := Push(EXACT, r, wnd, w);
            if Buffered(r, w.sn) then r' == r.(acks := r.acks + [Ack(w.sn, w.ts)])
            else |r'.buf| + |r'.queue| == |r.buf| + |r.queue| + 1
  {
    ScanFinds(r, wnd, w.sn);
    AdvanceCounts(EXACT, r.(acks := r.acks + [Ack(w.sn, w.ts)], buf := Insert(EXACT, r.buf, w)), wnd);
  }

  /** A segment behind the window is only acknowledged. */
  lemma PushOld(r: Receiver, wnd: nat, w: Wire)
    requires w.sn < r.nxt
    ensures Push(EXACT, r, wnd, w) == r.(acks := r.acks + [Ack(w.sn, w.ts)])
  {
  }

  // ---- the two arithmetics ----

  lemma DiffAt(r: Receiver, wnd: nat, w: Wire)
    ensures WRAP.diff(U32(w.sn), U32(r.nxt) + wnd) == I32(w.sn - r.nxt - wnd)
    ensures WRAP.diff(U32(w.sn), U32(r.nxt)) == I32(w.sn - r.nxt)
  {
    DiffExact(w.sn, U32(r.nxt) + wnd);
    DiffExact(w.sn - wnd, r.nxt);
    DiffExact(w.sn, r.nxt);
    DiffExact(w.sn, U32(r.nxt));
  }

  /** The same segment under the number that its residue has in the window. */
  lemma Renumbered(r: Receiver, wnd: nat, w: Wire, v: Wire)
    requires 0 < wnd < HALF && SeemsNew(w.sn - r.nxt, wnd) && v == w.(sn := r.nxt + U32(w.sn - r.nxt))
    ensures RedWire(WRAP, v) == RedWire(WRAP, w) && 0 <= v.sn - r.nxt < wnd
  {
    var e := w.sn - r.nxt;
    U32Add(e, r.nxt);
    assert U32(v.sn) == U32(w.sn);
    var q := Multiple32(e);
    if U32(e) >= wnd {
      Residue(e - wnd, q, U32(e) - wnd);
    }
  }

  lemma Multiple32(e: int) returns (q: int)
    ensures e == q * M32 + U32(e)
  {
    q := e / M32;
  }

  /** An old segment that seems new goes into the window. */
  lemma PushStale(r: Receiver, wnd: nat, w: Wire)
    requires RcvWindow(EXACT, r, wnd) && 0 < wnd < HALF && w.sn < r.nxt && SeemsNew(w.sn - r.nxt, wnd)
    ensures var v := w.(sn := r.nxt + U32(w.sn - r.nxt));
            && Push(WRAP, RedReceiver(WRAP, r), wnd, RedWire(WRAP, w)) == RedReceiver(WRAP, Push(EXACT, r, wnd, v))
            && 0 <= v.sn - r.nxt < wnd && U32(v.sn) == U32(w.sn)
  {
    var v := w.(sn := r.nxt + U32(w.sn - r.nxt));
    Renumbered(r, wnd, w, v);
    WrapMirror();
    RedPush(WRAP, r, wnd, v);
    assert RedWire(WRAP, v).sn == U32(v.sn) && RedWire(WRAP, w).sn == U32(w.sn);
  }

  /** The receiver on 32-bit numbers does what the one on unbounded numbers does
      if and only if the segment is alike to both. */
  lemma PushAgrees(r: Receiver, wnd: nat, w: Wire)
    requires RcvWindow(EXACT, r, wnd) && 0 < wnd < HALF
    ensures Push(WRAP, RedReceiver(WRAP, r), wnd, RedWire(WRAP, w)) == RedReceiver(WRAP, Push(EXACT, r, wnd, w))
            <==> Alike(r, wnd, w.sn - r.nxt)
  {
    var e := w.sn - r.nxt;
    if !(SeemsKnown(e, wnd) <==> e < wnd) {
      AcksPart(r, wnd, w);
    } else if e >= 0 {
      PushAhead(r, wnd, w);
    } else if SeemsNew(e, wnd) {
      StaleAgrees(r, wnd, w);
    } else {
      PushBehind(r, wnd, w);
    }
  }

  lemma PushBehind(r: Receiver, wnd: nat, w: Wire)
    requires 0 < wnd && w.sn < r.nxt && SeemsKnown(w.sn - r.nxt, wnd) && I32(w.sn - r.nxt) < 0
    ensures Push(WRAP, RedReceiver(WRAP, r), wnd, RedWire(WRAP, w)) == RedReceiver(WRAP, Push(EXACT, r, wnd, w))
  {
    DiffAt(r, wnd, w);
    PushOld(r, wnd, w);
    RedAcked(WRAP, r, Ack(w.sn, w.ts));
  }

  lemma PushAhead(r: Receiver, wnd: nat, w: Wire)
    requires RcvWindow(EXACT, r, wnd) && 0 < wnd < HALF && r.nxt <= w.sn
    requires SeemsKnown(w.sn - r.nxt, wnd) <==> w.sn - r.nxt < wnd
    ensures Push(WRAP, RedReceiver(WRAP, r), wnd, RedWire(WRAP, w)) == RedReceiver(WRAP, Push(EXACT, r, wnd, w))
  {
    if w.sn - r.nxt < wnd {
      WrapMirror();
      RedPush(WRAP, r, wnd, w);
    } else {
      PushBeyond(r, wnd, w);
    }
  }

  lemma PushBeyond(r: Receiver, wnd: nat, w: Wire)
    requires r.nxt + wnd <= w.sn && !SeemsKnown(w.sn - r.nxt, wnd)
    ensures Push(EXACT, r, wnd, w) == r
    ensures Push(WRAP, RedReceiver(WRAP, r), wnd, RedWire(WRAP, w)) == RedReceiver(WRAP, r)
  {
    DiffAt(r, wnd, w);
    NotNear(EXACT, r, wnd, w);
    NotNear(WRAP, RedReceiver(WRAP, r), wnd, RedWire(WRAP, w));
  }

  lemma NotNear(ar: Arith, r: Receiver, wnd: nat, w: Wire)
    requires ar.diff(w.sn, r.nxt + wnd) >= 0
    ensures Push(ar, r, wnd, w) == r
  {
  }

  lemma AcksPart(r: Receiver, wnd: nat, w: Wire)
    requires !(SeemsKnown(w.sn - r.nxt, wnd) <==> w.sn - r.nxt < wnd)
    ensures Push(WRAP, RedReceiver(WRAP, r), wnd, RedWire(WRAP, w)) != RedReceiver(WRAP, Push(EXACT, r, wnd, w))
  {
    DiffAt(r, wnd, w);
    PushAcks(EXACT, r, wnd, w);
    PushAcks(WRAP, RedReceiver(WRAP, r), wnd, RedWire(WRAP, w));
    RedSize(r);
    MoreAcks(Push(WRAP, RedReceiver(WRAP, r), wnd, RedWire(WRAP, w)), Push(EXACT, r, wnd, w));
  }

  lemma MoreAcks(x: Receiver, y: Receiver)
    requires |x.acks| != |y.acks|
    ensures x != RedReceiver(WRAP, y)
  {
    RedSize(y);
  }

  lemma StaleAgrees(r: Receiver, wnd: nat, w: Wire)
    requires RcvWindow(EXACT, r, wnd) && 0 < wnd < HALF && w.sn < r.nxt && SeemsNew(w.sn - r.nxt, wnd)
    ensures Push(WRAP, RedReceiver(WRAP, r), wnd, RedWire(WRAP, w)) == RedReceiver(WRAP, Push(EXACT, r, wnd, w))
            <==> Buffered(r, r.nxt + U32(w.sn - r.nxt))
  {
    var v := w.(sn := r.nxt + U32(w.sn - r.nxt));
    PushStale(r, wnd, w);
    PushOld(r, wnd, w);
    PushCounts(r, wnd, v);
    RedAcked(WRAP, r, Ack(w.sn, w.ts));
    RedAcked(WRAP, r, Ack(v.sn, v.ts));
    var x, y := Push(EXACT, r, wnd, v), Push(EXACT, r, wnd, w);
    RedSize(x);
    RedSize(y);
  }

  lemma RedSize(r: Receiver)
    ensures var s := RedReceiver(WRAP, r); |s.buf| == |r.buf| && |s.queue| == |r.queue| && |s.acks| == |r.acks|
  {
  }

  // ---- in terms of age ----

  /** Up to 2^31 numbers below the end of the window there is no difference. */
  lemma RecentAlike(r: Receiver, wnd: nat, e: int)
    requires 0 < wnd < HALF && wnd - HALF <= e < wnd + HALF
    ensures Alike(r, wnd, e)
  {
  }

  /** From there to 2^32 the acknowledgement is lost; ... */
  lemma OlderUnacked(r: Receiver, wnd: nat, e: int)
    requires 0 < wnd < HALF && wnd - M32 <= e < wnd - HALF
    ensures !SeemsKnown(e, wnd) && !Alike(r, wnd, e)
  {
    Residue(e - wnd, -1, e - wnd + M32);
  }

  /** ... and a segment that is 2^32 numbers old is taken for the one that is
      expected, and handed to the application. */
  lemma OldIsTaken(r: Receiver, wnd: nat, w: Wire)
    requires 0 < wnd < HALF && RcvWindow(EXACT, r, wnd) && r.buf == [] && |r.queue| < wnd && w.sn == r.nxt - M32
    ensures Push(EXACT, r, wnd, w).queue == r.queue
    ensures Push(WRAP, RedReceiver(WRAP, r), wnd, RedWire(WRAP, w)).queue
            == RedReceiver(WRAP, r).queue + [RedWire(WRAP, w)]
  {
    var v := w.(sn := r.nxt);
    Residue(-M32, -1, 0);
    Residue(-M32 - wnd, -2, M32 - wnd);
    PushOld(r, wnd, w);
    PushStale(r, wnd, w);
    PushNext(r, wnd, v);
    assert RedWires(WRAP, r.queue + [v]) == RedWires(WRAP, r.queue) + [RedWire(WRAP, v)];
    assert RedWire(WRAP, v) == RedWire(WRAP, w);
  }

  lemma PushNext(r: Receiver, wnd: nat, v: Wire)
    requires 0 < wnd && r.buf == [] && |r.queue| < wnd && v.sn == r.nxt
    ensures Push(EXACT, r, wnd, v).queue == r.queue + [v]
  {
    var r1 := r.(acks := r.acks + [Ack(v.sn, v.ts)], buf := [v]);
    assert Insert(EXACT, r.buf, v) == [v];
    var r2 := r1.(buf := [], queue := r.queue + [v], nxt := r.nxt + 1);
    assert Advance(EXACT, r1, wnd) == Advance(EXACT, r2, wnd) == r2;
  }
}
