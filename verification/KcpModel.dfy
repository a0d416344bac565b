// The KCP control block (include/kcp/ikcp.h) as a value, and what each
// operation of include/kcp/ikcp.c does to it.
//
// The control block is split by role: `Sender` and `Receiver` hold the four
// queues, `Cong` the congestion window, `Rtt` the retransmission timeout and
// `Clock` the flush and probe timers. Queue counters are the queue lengths;
// the class in KcpControlBlock.dfy keeps them as separate fields.
module KcpModel {
  import opened Circular

  const CMD_PUSH := 81
  const CMD_ACK := 82
  const CMD_WASK := 83
  const CMD_WINS := 84
  const WND_SND := 32
  const WND_RCV := 128
  const MTU_DEF := 1400
  const OVERHEAD := 24
  const INTERVAL := 100
  const DEADLINK := 20
  const THRESH_INIT := 2
  const THRESH_MIN := 2
  const PROBE_INIT := 7000
  const PROBE_LIMIT := 120000
  const FASTACK_LIMIT := 5
  const RTO_MIN := 100
  const RTO_DEF := 200
  const RTO_MAX := 60000

  /** Settings of a control block; fixed while it runs. */
  datatype Settings = Settings(
    conv: nat, mtu: nat, sndWnd: nat, rcvWnd: nat, interval: nat,
    nodelay: bool, minRto: nat, fastResend: int, fastLimit: int, noCwnd: bool, deadLink: nat)

  /** What ikcp_create, ikcp_setmtu, ikcp_wndsize and ikcp_nodelay let through. */
  predicate SettingsOk(c: Settings) {
    && c.conv < M32
    && 50 <= c.mtu < HALF
    && 0 < c.sndWnd < HALF
    && WND_RCV <= c.rcvWnd < HALF
    && 0 < c.interval <= 5000
    && 0 < c.minRto <= RTO_MAX
    && -HALF <= c.fastResend < HALF
    && -HALF <= c.fastLimit < HALF
    && c.deadLink < M32
  }

  const DEFAULT: Settings :=
    Settings(0, MTU_DEF, WND_SND, WND_RCV, INTERVAL, false, RTO_MIN, 0, FASTACK_LIMIT, false, DEADLINK)

  type Conf = c: Settings | SettingsOk(c) witness DEFAULT

  function Mss(c: Conf): (m: nat)
    ensures 26 <= m < HALF
  {
    c.mtu - OVERHEAD
  }

  /** A segment as it travels: the 24-byte header and its data. */
  datatype Wire = Wire(conv: nat, cmd: nat, frg: nat, wnd: nat, ts: nat, sn: int, una: int, data: seq<Byte>)

  /** A fragment waiting in snd_queue; it has no sequence number yet. */
  datatype Frag = Frag(frg: nat, data: seq<Byte>)

  /** A segment in snd_buf with its retransmission state. */
  datatype SndSeg = SndSeg(wire: Wire, resendTs: nat, rto: nat, fastAck: nat, xmit: nat)

  datatype Ack = Ack(sn: int, ts: nat)

  datatype Sender = Sender(una: int, nxt: int, queue: seq<Frag>, buf: seq<SndSeg>)
  datatype Receiver = Receiver(nxt: int, buf: seq<Wire>, queue: seq<Wire>, acks: seq<Ack>)
  datatype Cong = Cong(ssthresh: nat, cwnd: nat, incr: nat, rmtWnd: nat)
  datatype Rtt = Rtt(srtt: int, rttVal: int, rto: nat)
  datatype Clock = Clock(current: nat, tsFlush: nat, updated: bool, tsProbe: nat, probeWait: nat)

  datatype Kcb = Kcb(
    cf: Conf, snd: Sender, rcv: Receiver, cong: Cong, rtt: Rtt, clk: Clock,
    askSend: bool, askTell: bool, xmit: nat, dead: bool)

  function Payload(w: Wire): Frag {
    Frag(w.frg, w.data)
  }

  /** ikcp_create. */
  function Create(cf: Conf): Kcb {
    Kcb(cf, Sender(0, 0, [], []), Receiver(0, [], [], []), Cong(THRESH_INIT, 0, 0, WND_RCV),
        Rtt(0, 0, RTO_DEF), Clock(0, INTERVAL, false, 0, 0), false, false, 0, false)
  }

  // ---- sending ----

  function FragmentCount(mss: nat, len: nat): (n: nat)
    requires 0 < mss
  {
    if len <= mss then 1 else (len + mss - 1) / mss
  }

  /** The fragments cut from `msg`, numbered down to zero. */
  function Cut(mss: nat, msg: seq<Byte>): (fs: seq<Frag>)
    requires 0 < mss
    decreases |msg|
  {
    if |msg| <= mss then [Frag(0, msg)]
    else
      var rest := Cut(mss, msg[mss..]);
      [Frag(|rest|, msg[..mss])] + rest
  }

  /** ikcp_send in message mode: accepted messages only extend snd_queue. The
      length is an int, so that a longer message cannot be named. */
  predicate SendAccepts(cf: Conf, msg: seq<Byte>) {
    |msg| < HALF && FragmentCount(Mss(cf), |msg|) < WND_RCV
  }

  function Send(k: Kcb, msg: seq<Byte>): Kcb {
    if SendAccepts(k.cf, msg)
    then k.(snd := k.snd.(queue := k.snd.queue + Cut(Mss(k.cf), msg)))
    else k
  }

  // ---- acknowledgements received by a sender ----

  /** ikcp_shrink_buf. */
  function Shrink(s: Sender): Sender {
    s.(una := if s.buf == [] then s.nxt else s.buf[0].wire.sn)
  }

  /** ikcp_parse_una: drop the leading segments below `una`. */
  function DropBelow(ar: Arith, buf: seq<SndSeg>, una: int): seq<SndSeg> {
    if buf != [] && ar.diff(una, buf[0].wire.sn) > 0 then DropBelow(ar, buf[1..], una) else buf
  }

  function ParseUna(ar: Arith, s: Sender, una: int): Sender {
    Shrink(s.(buf := DropBelow(ar, s.buf, una)))
  }

  function DropOne(ar: Arith, buf: seq<SndSeg>, sn: int): seq<SndSeg> {
    if buf == [] then []
    else if buf[0].wire.sn == sn then buf[1..]
    else if ar.diff(sn, buf[0].wire.sn) < 0 then buf
    else [buf[0]] + DropOne(ar, buf[1..], sn)
  }

  predicate InFlight(ar: Arith, s: Sender, sn: int) {
    ar.diff(sn, s.una) >= 0 && ar.diff(sn, s.nxt) < 0
  }

  /** ikcp_parse_ack followed by ikcp_shrink_buf. */
  function ParseAck(ar: Arith, s: Sender, sn: int): Sender {
    Shrink(if InFlight(ar, s, sn) then s.(buf := DropOne(ar, s.buf, sn)) else s)
  }

  function Skipped(seg: SndSeg): SndSeg {
    seg.(fastAck := U32(seg.fastAck + 1))
  }

  function BumpSkipped(ar: Arith, buf: seq<SndSeg>, sn: int): seq<SndSeg> {
    if buf == [] || ar.diff(sn, buf[0].wire.sn) < 0 then buf
    else [if sn == buf[0].wire.sn then buf[0] else Skipped(buf[0])] + BumpSkipped(ar, buf[1..], sn)
  }

  /** ikcp_parse_fastack. */
  function ParseFastAck(ar: Arith, s: Sender, sn: int): Sender {
    if InFlight(ar, s, sn) then s.(buf := BumpSkipped(ar, s.buf, sn)) else s
  }

  /** Division that truncates towards zero. */
  function Trunc(x: int, d: nat): int
    requires 0 < d
  {
    if x >= 0 then x / d else -((-x) / d)
  }

  function NewSrtt(srtt: int, age: nat): int { Max(1, Trunc(I32(I32(7 * srtt) + age), 8)) }

  function NewRttVal(rttVal: int, delta: nat): int { Trunc(I32(3 * rttVal) + delta, 4) }

  /** ikcp_update_ack, with the source's 32-bit sums: an int that overflows is
      taken to wrap around, `delta` is a long, and the last sum is unsigned. */
  function UpdateRtt(cf: Conf, r: Rtt, age: nat): Rtt {
    var srtt := if r.srtt == 0 then age else NewSrtt(r.srtt, age);
    var rttVal := if r.srtt == 0 then age / 2 else NewRttVal(r.rttVal, Abs(age - r.srtt));
    Rtt(srtt, rttVal, BoundRto(cf, U32(srtt + Max(cf.interval, U32(I32(4 * rttVal))))))
  }

  function BoundRto(cf: Conf, rto: nat): nat { Min(Max(cf.minRto, rto), RTO_MAX) }

  // ---- data received ----

  /** The number of segments left below position `n` when a scan towards the
      head stops at a repeat or at a smaller number. */
  function Scan(ar: Arith, buf: seq<Wire>, sn: int, n: nat): (p: nat)
    requires n <= |buf|
    ensures p <= n
  {
    if n == 0 || buf[n - 1].sn == sn || ar.diff(sn, buf[n - 1].sn) > 0 then n
    else Scan(ar, buf, sn, n - 1)
  }

  /** Insert by sequence number behind the place where the scan stops. */
  function Insert(ar: Arith, buf: seq<Wire>, w: Wire): seq<Wire> {
    var p := Scan(ar, buf, w.sn, |buf|);
    if p > 0 && buf[p - 1].sn == w.sn then buf else buf[..p] + [w] + buf[p..]
  }

  /** Move in-order segments from rcv_buf to rcv_queue while it has room. */
  function Advance(ar: Arith, r: Receiver, wnd: nat): Receiver
    decreases |r.buf|
  {
    if r.buf != [] && r.buf[0].sn == r.nxt && |r.queue| < wnd
    then Advance(ar, r.(buf := r.buf[1..], queue := r.queue + [r.buf[0]], nxt := ar.norm(r.nxt + 1)), wnd)
    else r
  }

  /** ikcp_parse_data. */
  function ParseData(ar: Arith, r: Receiver, wnd: nat, w: Wire): Receiver {
    if ar.diff(w.sn, r.nxt + wnd) >= 0 || ar.diff(w.sn, r.nxt) < 0 then r
    else Advance(ar, r.(buf := Insert(ar, r.buf, w)), wnd)
  }

  /** The IKCP_CMD_PUSH branch of ikcp_input. */
  function Push(ar: Arith, r: Receiver, wnd: nat, w: Wire): Receiver {
    if ar.diff(w.sn, r.nxt + wnd) < 0 then
      var r1 := r.(acks := r.acks + [Ack(w.sn, w.ts)]);
      if ar.diff(w.sn, r.nxt) >= 0 then ParseData(ar, r1, wnd, w) else r1
    else r
  }

  // ---- ikcp_input ----

  /** The largest acknowledged number seen so far in one datagram. */
  datatype MaxAck = NoAck | MaxAck(sn: int)

  predicate KnownCmd(cmd: nat) {
    cmd == CMD_PUSH || cmd == CMD_ACK || cmd == CMD_WASK || cmd == CMD_WINS
  }

  function NoteAck(ar: Arith, m: MaxAck, sn: int): MaxAck {
    if m.NoAck? || ar.diff(sn, m.sn) > 0 then MaxAck(sn) else m
  }

  /** One pass of the loop of ikcp_input, for a segment with a known command. */
  function InputSeg(ar: Arith, k: Kcb, w: Wire): Kcb {
    var snd := ParseUna(ar, k.snd, w.una);
    var k1 := k.(snd := snd, cong := k.cong.(rmtWnd := w.wnd));
    if w.cmd == CMD_ACK then
      var age := TimeDiff(k.clk.current, w.ts);
      k1.(snd := ParseAck(ar, snd, w.sn),
          rtt := if age >= 0 then UpdateRtt(k.cf, k.rtt, age) else k.rtt)
    else if w.cmd == CMD_PUSH then k1.(rcv := Push(ar, k.rcv, k.cf.rcvWnd, w))
    else if w.cmd == CMD_WASK then k1.(askTell := true)
    else k1
  }

  function NoteSeg(ar: Arith, m: MaxAck, w: Wire): MaxAck {
    if w.cmd == CMD_ACK then NoteAck(ar, m, w.sn) else m
  }

  function Quot(a: nat, b: nat): nat
    requires 0 < b
  {
    a / b
  }

  /** One additive increase of the congestion window above ssthresh. */
  function Creep(c: Cong, mss: nat): Cong
    requires 0 < mss
  {
    var base := if c.incr < mss then mss else c.incr;
    var incr := U32(base + Quot(U32(mss * mss), base) + mss / 16);
    c.(incr := incr,
       cwnd := if U32(U32(c.cwnd + 1) * mss) <= incr then Quot(U32(incr + mss - 1), mss) else c.cwnd)
  }

  /** Congestion window growth when snd_una advanced. */
  function Grow(c: Cong, mss: nat): Cong
    requires 0 < mss
  {
    if c.cwnd >= c.rmtWnd then c
    else
      var c1 := if c.cwnd < c.ssthresh then c.(cwnd := U32(c.cwnd + 1), incr := U32(c.incr + mss))
        else Creep(c, mss);
      if c1.cwnd > c1.rmtWnd then c1.(cwnd := c1.rmtWnd, incr := U32(c1.rmtWnd * mss)) else c1
  }

  /** What ikcp_input does after its loop. */
  function InputEnd(ar: Arith, k: Kcb, m: MaxAck, prevUna: int): Kcb {
    var k1 := if m.NoAck? then k else k.(snd := ParseFastAck(ar, k.snd, m.sn));
    if ar.diff(k1.snd.una, prevUna) > 0 then k1.(cong := Grow(k1.cong, Mss(k1.cf))) else k1
  }

  function InputFrom(ar: Arith, k: Kcb, m: MaxAck, prevUna: int, ws: seq<Wire>): Kcb
    decreases |ws|
  {
    if ws == [] then InputEnd(ar, k, m, prevUna)
    else InputFrom(ar, InputSeg(ar, k, ws[0]), NoteSeg(ar, m, ws[0]), prevUna, ws[1..])
  }

  /** ikcp_input on a datagram made of whole segments of this connection. */
  function InputSegs(ar: Arith, k: Kcb, ws: seq<Wire>): Kcb {
    InputFrom(ar, k, NoAck, k.snd.una, ws)
  }

  // ---- ikcp_recv ----

  /** ikcp_peeksize: the byte length of the first message, or -1. */
  function PeekSize(r: Receiver): (n: int)
    ensures -1 <= n
  {
    if r.queue == [] then -1
    else if r.queue[0].frg == 0 then |r.queue[0].data|
    else if |r.queue| < r.queue[0].frg + 1 then -1
    else |FirstMessage(r.queue).0|
  }

  /** Data up to and including the first segment whose frg is 0, and the segment count. */
  function FirstMessage(q: seq<Wire>): (r: (seq<Byte>, nat))
    ensures r.1 <= |q|
    ensures q != [] ==> r.1 > 0
  {
    if q == [] then ([], 0)
    else if q[0].frg == 0 then (q[0].data, 1)
    else
      var rest := FirstMessage(q[1..]);
      (q[0].data + rest.0, rest.1 + 1)
  }

  datatype RecvResult = RecvError(code: int) | Received(msg: seq<Byte>)

  /** ikcp_recv; a negative `len` peeks. */
  function Recv(ar: Arith, k: Kcb, len: int): (RecvResult, Kcb) {
    var peek := len < 0;
    var room := if peek then -len else len;
    if k.rcv.queue == [] then (RecvError(-1), k)
    else
      var size := PeekSize(k.rcv);
      if size < 0 then (RecvError(-2), k)
      else if size > room then (RecvError(-3), k)
      else
        var recover := |k.rcv.queue| >= k.cf.rcvWnd;
        var (msg, n) := FirstMessage(k.rcv.queue);
        var r1 := if peek then k.rcv else k.rcv.(queue := k.rcv.queue[n..]);
        var r2 := Advance(ar, r1, k.cf.rcvWnd);
        (Received(msg), k.(rcv := r2, askTell := k.askTell || (|r2.queue| < k.cf.rcvWnd && recover)))
  }

  // ---- ikcp_flush ----

  /** ikcp_wnd_unused, as the 16-bit field the header carries. */
  function WndUnused(k: Kcb): nat {
    (if |k.rcv.queue| < k.cf.rcvWnd then k.cf.rcvWnd - |k.rcv.queue| else 0) % 0x1_0000
  }

  function AckWire(k: Kcb, a: Ack): Wire {
    Wire(k.cf.conv, CMD_ACK, 0, WndUnused(k), a.ts, a.sn, k.rcv.nxt, [])
  }

  function AckWires(k: Kcb): seq<Wire> {
    seq(|k.rcv.acks|, i requires 0 <= i < |k.rcv.acks| => AckWire(k, k.rcv.acks[i]))
  }

  /** The window probe timer of ikcp_flush; the flag asks for a probe now. */
  function ProbeTimer(clk: Clock, rmtWnd: nat): (Clock, bool) {
    if rmtWnd != 0 then (clk.(tsProbe := 0, probeWait := 0), false)
    else if clk.probeWait == 0 then
      (clk.(probeWait := PROBE_INIT, tsProbe := U32(clk.current + PROBE_INIT)), false)
    else if TimeDiff(clk.current, clk.tsProbe) >= 0 then
      var w0 := Max(clk.probeWait, PROBE_INIT);
      var w := Min(U32(w0 + w0 / 2), PROBE_LIMIT);
      (clk.(probeWait := w, tsProbe := U32(clk.current + w)), true)
    else (clk, false)
  }

  /** Probe segments reuse the header of the last acknowledgement written. */
  function ProbeWires(k: Kcb, ask: bool, tell: bool): seq<Wire> {
    var last := if k.rcv.acks == [] then Ack(0, 0) else k.rcv.acks[|k.rcv.acks| - 1];
    var w := AckWire(k, last);
    (if ask then [w.(cmd := CMD_WASK)] else []) + (if tell then [w.(cmd := CMD_WINS)] else [])
  }

  function SendWindow(cf: Conf, c: Cong): nat {
    var w := Min(cf.sndWnd, c.rmtWnd);
    if cf.noCwnd then w else Min(c.cwnd, w)
  }

  function Stamp(k: Kcb, f: Frag, sn: int): SndSeg {
    SndSeg(Wire(k.cf.conv, CMD_PUSH, f.frg, WndUnused(k), k.clk.current, sn, k.rcv.nxt, f.data),
           k.clk.current, k.rtt.rto, 0, 0)
  }

  /** Number the first waiting fragment and move it to snd_buf. */
  function NumberNext(ar: Arith, k: Kcb): Kcb
    requires k.snd.queue != []
  {
    var s := k.snd;
    k.(snd := s.(queue := s.queue[1..], nxt := ar.norm(s.nxt + 1),
                 buf := s.buf + [Stamp(k, s.queue[0], s.nxt)]))
  }

  /** Move fragments from snd_queue to snd_buf while the window has room. */
  function Fill(ar: Arith, k: Kcb, wnd: nat): Kcb
    decreases |k.snd.queue|
  {
    if ar.diff(k.snd.nxt, k.snd.una + wnd) < 0 && k.snd.queue != []
    then Fill(ar, NumberNext(ar, k), wnd)
    else k
  }

  datatype Verdict = Keep | First | Timeout | Fast

  function Resent(cf: Conf): nat {
    if cf.fastResend > 0 then cf.fastResend else M32 - 1
  }

  /** Whether and why ikcp_flush sends a segment of snd_buf now. */
  function Judge(k: Kcb, s: SndSeg): Verdict {
    if s.xmit == 0 then First
    else if TimeDiff(k.clk.current, s.resendTs) >= 0 then Timeout
    else if s.fastAck >= Resent(k.cf) && (I32(s.xmit) <= k.cf.fastLimit || k.cf.fastLimit <= 0) then Fast
    else Keep
  }

  /** The segment after ikcp_flush has looked at it. */
  function Touch(k: Kcb, s: SndSeg): SndSeg {
    var now := k.clk.current;
    var sent := s.(xmit := U32(s.xmit + 1),
                   wire := s.wire.(ts := now, wnd := WndUnused(k), una := k.rcv.nxt));
    match Judge(k, s)
    case Keep => s
    case First =>
      var rtomin := if k.cf.nodelay then 0 else k.rtt.rto / 8;
      sent.(rto := k.rtt.rto, resendTs := U32(now + k.rtt.rto + rtomin))
    case Timeout =>
      var rto := U32(s.rto + (if k.cf.nodelay then k.rtt.rto / 2 else k.rtt.rto));
      sent.(rto := rto, resendTs := U32(now + rto))
    case Fast => sent.(fastAck := 0, resendTs := U32(now + s.rto))
  }

  function TouchAll(k: Kcb, buf: seq<SndSeg>): seq<SndSeg> {
    seq(|buf|, i requires 0 <= i < |buf| => Touch(k, buf[i]))
  }

  /** The data segments written, in the order of snd_buf. */
  function DueWires(k: Kcb, buf: seq<SndSeg>): seq<Wire> {
    if buf == [] then []
    else
      var last := buf[|buf| - 1];
      DueWires(k, buf[..|buf| - 1]) + (if Judge(k, last).Keep? then [] else [Touch(k, last).wire])
  }

  function CountJudged(k: Kcb, buf: seq<SndSeg>, v: Verdict): nat {
    if buf == [] then 0
    else CountJudged(k, buf[..|buf| - 1], v) + (if Judge(k, buf[|buf| - 1]) == v then 1 else 0)
  }

  predicate DeadSeg(k: Kcb, s: SndSeg) {
    !Judge(k, s).Keep? && Touch(k, s).xmit >= k.cf.deadLink
  }

  /** The window updates that end ikcp_flush. */
  function FlushCong(k: Kcb, wnd: nat, change: bool, lost: bool): Cong {
    var mss := Mss(k.cf);
    var c1 := if change then
        var th := Max(U32(k.snd.nxt - k.snd.una) / 2, THRESH_MIN);
        var cwnd := U32(th + Resent(k.cf));
        k.cong.(ssthresh := th, cwnd := cwnd, incr := U32(cwnd * mss))
      else k.cong;
    var c2 := if lost then c1.(ssthresh := Max(wnd / 2, THRESH_MIN), cwnd := 1, incr := mss) else c1;
    if c2.cwnd < 1 then c2.(cwnd := 1, incr := mss) else c2
  }

  /** The control block just before the data segments are looked at. */
  function FlushFill(ar: Arith, k: Kcb): Kcb {
    var (clk, _) := ProbeTimer(k.clk, k.cong.rmtWnd);
    Fill(ar, k.(clk := clk, rcv := k.rcv.(acks := []), askSend := false, askTell := false),
         SendWindow(k.cf, k.cong))
  }

  /** The pass of ikcp_flush over snd_buf, and the window updates after it. */
  function FlushBuf(k: Kcb, wnd: nat): Kcb {
    var buf := k.snd.buf;
    AfterPass(k, TouchAll(k, buf), CountJudged(k, buf, Timeout),
              exists i :: 0 <= i < |buf| && DeadSeg(k, buf[i]),
              FlushCong(k, wnd, CountJudged(k, buf, Fast) > 0, CountJudged(k, buf, Timeout) > 0))
  }

  function AfterPass(k: Kcb, buf: seq<SndSeg>, lost: nat, dead: bool, cong: Cong): Kcb {
    k.(snd := k.snd.(buf := buf), xmit := U32(k.xmit + lost), dead := k.dead || dead, cong := cong)
  }

  function FlushState(ar: Arith, k: Kcb): Kcb {
    if k.clk.updated then FlushBuf(FlushFill(ar, k), SendWindow(k.cf, k.cong)) else k
  }

  /** Acknowledgements and window probes come before any data. */
  function ControlWires(k: Kcb): seq<Wire> {
    AckWires(k) + ProbeWires(k, k.askSend || ProbeTimer(k.clk, k.cong.rmtWnd).1, k.askTell)
  }

  /** The segments ikcp_flush writes, in order. */
  function FlushWires(ar: Arith, k: Kcb): seq<Wire> {
    if k.clk.updated then
      var k1 := FlushFill(ar, k);
      ControlWires(k) + DueWires(k1, k1.snd.buf)
    else []
  }

  // ---- packing into datagrams ----

  function WireSize(w: Wire): nat {
    OVERHEAD + |w.data|
  }

  function TotalSize(ws: seq<Wire>): nat {
    if ws == [] then 0 else TotalSize(ws[..|ws| - 1]) + WireSize(ws[|ws| - 1])
  }

  /** Datagrams already output and the segments waiting in the buffer. */
  datatype Packing = Packing(out: seq<seq<Wire>>, cur: seq<Wire>)

  function PackOne(p: Packing, w: Wire, mtu: nat): Packing {
    if TotalSize(p.cur) + WireSize(w) > mtu
    then Packing(if p.cur == [] then p.out else p.out + [p.cur], [w])
    else p.(cur := p.cur + [w])
  }

  function PackAll(ws: seq<Wire>, mtu: nat): Packing {
    if ws == [] then Packing([], [])
    else PackOne(PackAll(ws[..|ws| - 1], mtu), ws[|ws| - 1], mtu)
  }

  /** The datagrams ikcp_flush hands to the output callback. */
  function Datagrams(ws: seq<Wire>, mtu: nat): seq<seq<Wire>> {
    var p := PackAll(ws, mtu);
    if p.cur == [] then p.out else p.out + [p.cur]
  }

  // ---- ikcp_update and ikcp_check ----

  /** The timer part of ikcp_update; the flag says that it flushes. */
  function Tick(clk: Clock, interval: nat, now: nat): (Clock, bool) {
    var tf := if clk.updated then clk.tsFlush else now;
    var slap := TimeDiff(now, tf);
    var tf1 := if slap >= 10000 || slap < -10000 then now else tf;
    var slap1 := if slap >= 10000 || slap < -10000 then 0 else slap;
    if slap1 >= 0 then
      var tf2 := U32(tf1 + interval);
      (clk.(current := now, updated := true,
            tsFlush := if TimeDiff(now, tf2) >= 0 then U32(now + interval) else tf2), true)
    else (clk.(current := now, updated := true, tsFlush := tf1), false)
  }

  function UpdateState(ar: Arith, k: Kcb, now: nat): Kcb {
    var (clk, flush) := Tick(k.clk, k.cf.interval, now);
    var k1 := k.(clk := clk);
    if flush then FlushState(ar, k1) else k1
  }

  function UpdateWires(ar: Arith, k: Kcb, now: nat): seq<Wire> {
    var (clk, flush) := Tick(k.clk, k.cf.interval, now);
    if flush then FlushWires(ar, k.(clk := clk)) else []
  }

  /** The smallest positive time to a resend, or None when one is due. */
  function NextResend(buf: seq<SndSeg>, now: nat): (t: int)
    ensures t <= HALF - 1
  {
    if buf == [] then HALF - 1
    else
      var d := TimeDiff(buf[|buf| - 1].resendTs, now);
      Min(d, NextResend(buf[..|buf| - 1], now))
  }

  /** ikcp_check. */
  function Check(k: Kcb, now: nat): nat {
    if !k.clk.updated then now
    else
      var d := TimeDiff(now, k.clk.tsFlush);
      if d >= 10000 || d < -10000 || d >= 0 then now
      else
        var r := NextResend(k.snd.buf, now);
        if r <= 0 then now
        else U32(now + Min(Min(r, TimeDiff(k.clk.tsFlush, now)), k.cf.interval))
  }
}
