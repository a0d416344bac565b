// How ikcp_flush packs segments into datagrams, and that the reader of
// ikcp_input takes exactly those segments out again.
module KcpPacking {
  import opened Circular
  import opened Seqs
  import opened KcpModel
  import opened KcpWire

  /** Datagrams are nonempty, hold whole segments and respect the MTU. */
  ghost predicate Fits(ds: seq<seq<Wire>>, mtu: nat) {
    forall i :: 0 <= i < |ds| ==> ds[i] != [] && TotalSize(ds[i]) <= mtu
  }

  lemma TotalSizeSnoc(ws: seq<Wire>, w: Wire)
    ensures TotalSize(ws + [w]) == TotalSize(ws) + WireSize(w)
  {
    assert (ws + [w])[..|ws|] == ws;
  }

  /** The segments seen so far are those output plus those waiting. */
  ghost predicate Packed(p: Packing, ws: seq<Wire>, mtu: nat) {
    Fits(p.out, mtu) && TotalSize(p.cur) <= mtu && Flatten(p.out) + p.cur == ws
  }

  lemma PackOnePacked(p: Packing, ws: seq<Wire>, w: Wire, mtu: nat)
    requires Packed(p, ws, mtu) && WireSize(w) <= mtu
    ensures Packed(PackOne(p, w, mtu), ws + [w], mtu)
  {
    if TotalSize(p.cur) + WireSize(w) > mtu {
      TotalSizeSnoc([], w);
      assert [] + [w] == [w];
      FlattenSnoc(p.out, p.cur);
      assert p.cur == [] ==> ws == Flatten(p.out);
    } else {
      TotalSizeSnoc(p.cur, w);
      assert Flatten(p.out) + (p.cur + [w]) == (Flatten(p.out) + p.cur) + [w];
    }
  }

  lemma {:induction false} PackAllFits(ws: seq<Wire>, mtu: nat)
    requires forall i :: 0 <= i < |ws| ==> WireSize(ws[i]) <= mtu
    ensures Packed(PackAll(ws, mtu), ws, mtu)
  {
    if ws != [] {
      var n := |ws| - 1;
      PackAllFits(ws[..n], mtu);
      PackOnePacked(PackAll(ws[..n], mtu), ws[..n], ws[n], mtu);
      assert ws == ws[..n] + [ws[n]];
    }
  }

  /** ikcp_flush cuts the segments it writes into datagrams without losing,
      splitting or reordering any of them. */
  lemma DatagramsFit(ws: seq<Wire>, mtu: nat)
    requires forall i :: 0 <= i < |ws| ==> WireSize(ws[i]) <= mtu
    ensures Fits(Datagrams(ws, mtu), mtu) && Flatten(Datagrams(ws, mtu)) == ws
  {
    PackAllFits(ws, mtu);
    var p := PackAll(ws, mtu);
    FlattenSnoc(p.out, p.cur);
  }

  lemma {:induction false} FlattenHas<T>(ss: seq<seq<T>>, i: nat, j: nat) returns (n: nat)
    requires i < |ss| && j < |ss[i]|
    ensures n < |Flatten(ss)| && Flatten(ss)[n] == ss[i][j]
  {
    var m := |ss| - 1;
    if i == m {
      n := |Flatten(ss[..m])| + j;
    } else {
      n := FlattenHas(ss[..m], i, j);
    }
  }

  /** All segments the loop of ikcp_input takes off a datagram. */
  function Segments(conv: nat, d: seq<Byte>): seq<Wire>
    decreases |d|
  {
    match ParseOne(conv, d)
    case Got(w, rest) => [w] + Segments(conv, rest)
    case _ => []
  }

  lemma {:induction false} SegmentsEncoded(conv: nat, ws: seq<Wire>)
    requires OwnWires(conv, ws)
    ensures Segments(conv, EncodeAll(ws)) == ws
  {
    if ws != [] {
      EncodeAllFront(ws);
      ParseOneEncode(ws[0], EncodeAll(ws[1..]));
      SegmentsEncoded(conv, ws[1..]);
    }
  }

  /** The datagrams as the output callback sees them. */
  function Bytes(ds: seq<seq<Wire>>): seq<seq<Byte>> {
    seq(|ds|, i requires 0 <= i < |ds| => EncodeAll(ds[i]))
  }

  function ReadBack(conv: nat, bs: seq<seq<Byte>>): seq<Wire> {
    if bs == [] then [] else ReadBack(conv, bs[..|bs| - 1]) + Segments(conv, bs[|bs| - 1])
  }

  lemma {:induction false} ReadBackBytes(conv: nat, ds: seq<seq<Wire>>)
    requires forall i :: 0 <= i < |ds| ==> OwnWires(conv, ds[i])
    ensures ReadBack(conv, Bytes(ds)) == Flatten(ds)
  {
    if ds != [] {
      var n := |ds| - 1;
      ReadBackBytes(conv, ds[..n]);
      assert Bytes(ds)[..n] == Bytes(ds[..n]);
      SegmentsEncoded(conv, ds[n]);
    }
  }

  /** The headers of everything ikcp_flush writes are in range. */
  ghost predicate Encodable(k: Kcb) {
    && 0 <= k.rcv.nxt < M32 && k.clk.current < M32 && 0 <= k.snd.nxt < M32
    && (forall i :: 0 <= i < |k.rcv.acks| ==> 0 <= k.rcv.acks[i].sn < M32 && k.rcv.acks[i].ts < M32)
    && (forall i :: 0 <= i < |k.snd.queue| ==> FragFits(k.cf, k.snd.queue[i]))
    && (forall i :: 0 <= i < |k.snd.buf| ==>
          && WireOk(k.snd.buf[i].wire) && k.snd.buf[i].wire.conv == k.cf.conv
          && k.snd.buf[i].wire.cmd == CMD_PUSH && |k.snd.buf[i].wire.data| <= Mss(k.cf))
  }

  /** A fragment cut at the current MSS. */
  predicate FragFits(cf: Conf, f: Frag) {
    f.frg < 256 && |f.data| <= Mss(cf)
  }

  lemma {:induction false} FillEncodable(k: Kcb, wnd: nat)
    requires Encodable(k)
    ensures Encodable(Fill(WRAP, k, wnd))
    ensures Fill(WRAP, k, wnd) == k.(snd := Fill(WRAP, k, wnd).snd)
    decreases |k.snd.queue|
  {
    if WRAP.diff(k.snd.nxt, k.snd.una + wnd) < 0 && k.snd.queue != [] {
      assert FragFits(k.cf, k.snd.queue[0]);
      FillEncodable(NumberNext(WRAP, k), wnd);
    }
  }

  /** A segment this endpoint may put on the wire. */
  predicate Writable(cf: Conf, w: Wire) {
    WireOk(w) && w.conv == cf.conv && KnownCmd(w.cmd) && WireSize(w) <= cf.mtu
  }

  ghost predicate AllWritable(cf: Conf, ws: seq<Wire>) {
    forall i :: 0 <= i < |ws| ==> Writable(cf, ws[i])
  }

  lemma {:induction false} DueWritable(k: Kcb, buf: seq<SndSeg>)
    requires Encodable(k)
    requires forall i :: 0 <= i < |buf| ==> buf[i] in k.snd.buf
    ensures AllWritable(k.cf, DueWires(k, buf))
  {
    if buf != [] {
      var n := |buf| - 1;
      DueWritable(k, buf[..n]);
      assert buf[n] in k.snd.buf;
    }
  }

  lemma ControlWritable(k: Kcb)
    requires Encodable(k)
    ensures AllWritable(k.cf, ControlWires(k))
  {
  }

  lemma FlushWritable(k: Kcb)
    requires Encodable(k)
    ensures AllWritable(k.cf, FlushWires(WRAP, k))
  {
    if k.clk.updated {
      var (clk, _) := ProbeTimer(k.clk, k.cong.rmtWnd);
      var k0 := k.(clk := clk, rcv := k.rcv.(acks := []), askSend := false, askTell := false);
      FillEncodable(k0, SendWindow(k.cf, k.cong));
      var k1 := FlushFill(WRAP, k);
      DueWritable(k1, k1.snd.buf);
      ControlWritable(k);
    }
  }

  /** Packing and parsing undo each other: every datagram ikcp_flush outputs is
      nonempty, at most MTU bytes long, and the ikcp_input loop run over the
      datagrams in order recovers exactly the segments written. */
  lemma FlushReadBack(k: Kcb)
    requires Encodable(k)
    ensures var ds := Datagrams(FlushWires(WRAP, k), k.cf.mtu);
            && (forall i :: 0 <= i < |ds| ==> OwnWires(k.cf.conv, ds[i]))
            && ReadBack(k.cf.conv, Bytes(ds)) == FlushWires(WRAP, k)
            && forall i :: 0 <= i < |ds| ==> 0 < |Bytes(ds)[i]| <= k.cf.mtu
  {
    var ws := FlushWires(WRAP, k);
    var ds := Datagrams(ws, k.cf.mtu);
    FlushWritable(k);
    DatagramsFit(ws, k.cf.mtu);
    forall i, j | 0 <= i < |ds| && 0 <= j < |ds[i]|
      ensures Writable(k.cf, ds[i][j])
    {
      var n := FlattenHas(ds, i, j);
    }
    forall i | 0 <= i < |ds|
      ensures OwnWires(k.cf.conv, ds[i]) && 0 < |EncodeAll(ds[i])| <= k.cf.mtu
    {
      EncodeAllSize(ds[i]);
      TotalSizePositive(ds[i]);
    }
    ReadBackBytes(k.cf.conv, ds);
  }

  lemma TotalSizePositive(ws: seq<Wire>)
    requires ws != []
    ensures TotalSize(ws) > 0
  {
  }
}
