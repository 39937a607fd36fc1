/**
 The KCP endpoint as a value: what each operation of PythonKCP does to the endpoint's state
 (tuya_p2p/_kcp_python.py). Every function takes the numbering it works in, so that the same definitions describe the
 endpoint with 32-bit sequence numbers and the idealised one whose sequence numbers never wrap.
 */
module KcpModel {
  import opened Bytes
  import opened Serial

  const RTO_NDL := 30
  const RTO_MIN := 100
  const RTO_DEF := 200
  const RTO_MAX := 60000
  const CMD_PUSH := 81
  const CMD_ACK := 82
  const CMD_WASK := 83
  const CMD_WINS := 84
  const WND_RCV := 128
  const OVERHEAD := 24
  const THRESH_INIT := 2
  const THRESH_MIN := 2
  const NEVER := 0x7FFF_FFFF

  /** One fragment of a message: how many fragments follow it, and its bytes. */
  datatype Piece = Piece(frg: int, data: Bytes)

  /** A segment as the endpoint keeps it. */
  datatype Segment = Segment(
    conv: int, cmd: int, frg: int, wnd: int, ts: int, sn: int, una: int, data: Bytes,
    resendts: int, rto: int, fastack: int, xmit: int)
  {
    function Content(): Piece { Piece(frg, data) }
  }

  /** A segment as a datagram carries it. */
  datatype Wire = Wire(conv: int, cmd: int, frg: int, wnd: int, ts: int, sn: int, una: int, data: Bytes) {
    function Content(): Piece { Piece(frg, data) }

    function Size(): nat { OVERHEAD + |data| }
  }

  datatype Sender = Sender(una: int, nxt: int, queue: seq<Segment>, buf: seq<Segment>)

  datatype Receiver = Receiver(nxt: int, wnd: int, queue: seq<Segment>, buf: seq<Segment>, acks: seq<(int, int)>)

  /** Timers, congestion and window bookkeeping. The two bits of the source's `probe` are askSend and askTell. */
  datatype Control = Control(
    ssthresh: int, rttval: int, srtt: int, rto: int, minrto: int,
    sndWnd: int, rmtWnd: int, cwnd: int, incr: int,
    askSend: bool, askTell: bool, tsProbe: int, probeWait: int,
    current: int, interval: int, tsFlush: int, updated: bool,
    fastresend: int, nocwnd: int, nodelay: int)

  datatype Endpoint = Endpoint(conv: int, mtu: int, s: Sender, r: Receiver, c: Control) {
    function Mss(): int { mtu - OVERHEAD }
  }

  datatype Config = Config(mtu: int, sndWnd: int, rcvWnd: int, nodelay: int, interval: int, resend: int, nc: int)

  function Clamp(interval: int): int { Max(10, Min(5000, interval)) }

  function Init(conv: int, config: Config): Endpoint {
    var interval := Clamp(config.interval);
    Endpoint(
      U32(conv), config.mtu,
      Sender(0, 0, [], []),
      Receiver(0, config.rcvWnd, [], [], []),
      Control(THRESH_INIT, 0, 0, RTO_DEF, RTO_MIN,
              config.sndWnd, WND_RCV, 0, 0,
              false, false, 0, 0,
              0, interval, interval, false,
              config.resend, config.nc, config.nodelay))
  }

  function SetNodelay(c: Control, nodelay: int, interval: int, resend: int, nc: int): Control {
    c.(nodelay := nodelay,
       minrto := if nodelay != 0 then RTO_NDL else RTO_MIN,
       interval := if interval >= 0 then Clamp(interval) else c.interval,
       fastresend := if resend >= 0 then resend else c.fastresend,
       nocwnd := if nc >= 0 then nc else c.nocwnd)
  }

  // ---------------------------------------------------------------- send

  /** A message cut into pieces of at most mss bytes, each counting the pieces after it. */
  function Fragments(mss: int, data: Bytes): (p: seq<Piece>)
    requires mss > 0
    ensures |p| > 0
    decreases |data|
  {
    if |data| <= mss then [Piece(0, data)]
    else
      var rest := Fragments(mss, data[mss..]);
      [Piece(|rest|, data[..mss])] + rest
  }

  function FragmentCount(mss: int, length: int): int
    requires mss > 0
  {
    (length + mss - 1) / mss
  }

  function Unsent(p: Piece): Segment {
    Segment(0, 0, p.frg, 0, 0, 0, 0, p.data, 0, 0, 0, 0)
  }

  function UnsentAll(p: seq<Piece>): (q: seq<Segment>)
    ensures |q| == |p| && forall i :: 0 <= i < |p| ==> q[i] == Unsent(p[i])
  {
    seq(|p|, i requires 0 <= i < |p| => Unsent(p[i]))
  }

  function SendStatus(mss: int, data: Bytes): int
    requires mss > 0
  {
    if data == [] then -1
    else if FragmentCount(mss, |data|) >= WND_RCV then -2
    else 0
  }

  function Send(e: Endpoint, data: Bytes): Endpoint
    requires e.Mss() > 0
  {
    if SendStatus(e.Mss(), data) == 0
    then e.(s := e.s.(queue := e.s.queue + UnsentAll(Fragments(e.Mss(), data))))
    else e
  }

  // ---------------------------------------------------------------- recv

  /** How many segments from the front make up one message (all of them when no last fragment is there). */
  function MessageSpan(q: seq<Segment>): (k: nat)
    ensures k <= |q|
    ensures q != [] ==> k > 0
  {
    if q == [] then 0 else if q[0].frg == 0 then 1 else 1 + MessageSpan(q[1..])
  }

  function MessageData(q: seq<Segment>): Bytes {
    if q == [] then [] else if q[0].frg == 0 then q[0].data else q[0].data + MessageData(q[1..])
  }

  function PeekSize(q: seq<Segment>): int {
    if q == [] then -1
    else if q[0].frg == 0 then |q[0].data|
    else if |q| < q[0].frg + 1 then -1
    else |MessageData(q)|
  }

  predicate Promotable(n: Numbering, r: Receiver) {
    r.buf != [] && Diff(n, r.buf[0].sn, r.nxt) == 0 && |r.queue| < r.wnd
  }

  /** Moves segments that are next in order from the reorder buffer to the receive queue. */
  function Promote(n: Numbering, r: Receiver): Receiver
    decreases |r.buf|
  {
    if Promotable(n, r)
    then Promote(n, r.(buf := r.buf[1..], queue := r.queue + [r.buf[0]], nxt := Norm(n, r.nxt + 1)))
    else r
  }

  function Recv(n: Numbering, r: Receiver): (Receiver, Option<Bytes>) {
    if PeekSize(r.queue) < 0 then (r, None)
    else (Promote(n, r.(queue := r.queue[MessageSpan(r.queue)..])), Some(MessageData(r.queue)))
  }

  // ---------------------------------------------------------------- input: the receiving half

  /** The backwards scan: where to put sequence number sn, or None when it is already there. */
  function ScanBack(n: Numbering, buf: seq<Segment>, sn: int): (at: Option<nat>)
    ensures at.Some? ==> at.value <= |buf|
  {
    if buf == [] then Some(0)
    else
      var last := buf[|buf| - 1];
      if last.sn == sn then None
      else if Diff(n, sn, last.sn) > 0 then Some(|buf|)
      else ScanBack(n, buf[..|buf| - 1], sn)
  }

  function Insert(n: Numbering, buf: seq<Segment>, seg: Segment): seq<Segment> {
    match ScanBack(n, buf, seg.sn)
    case None => buf
    case Some(at) => buf[..at] + [seg] + buf[at..]
  }

  function ParseData(n: Numbering, r: Receiver, seg: Segment): Receiver {
    if Diff(n, seg.sn, Norm(n, r.nxt + r.wnd)) >= 0 || Diff(n, seg.sn, r.nxt) < 0 then r
    else Promote(n, r.(buf := Insert(n, r.buf, seg)))
  }

  function Arrived(w: Wire): Segment {
    Segment(w.conv, w.cmd, w.frg, w.wnd, w.ts, w.sn, w.una, w.data, 0, 0, 0, 0)
  }

  function ReceiverAbsorb(n: Numbering, r: Receiver, w: Wire): Receiver {
    if w.cmd == CMD_PUSH && Diff(n, w.sn, Norm(n, r.nxt + r.wnd)) < 0 then
      var noted := r.(acks := r.acks + [(w.sn, w.ts)]);
      if Diff(n, w.sn, r.nxt) >= 0 then ParseData(n, noted, Arrived(w)) else noted
    else r
  }

  // ---------------------------------------------------------------- input: the sending half

  function Shrink(s: Sender): Sender {
    s.(una := if s.buf == [] then s.nxt else s.buf[0].sn)
  }

  /** How many segments at the front of the send buffer lie below una. */
  function Covered(n: Numbering, buf: seq<Segment>, una: int): (k: nat)
    ensures k <= |buf|
  {
    if buf == [] || Diff(n, una, buf[0].sn) <= 0 then 0 else 1 + Covered(n, buf[1..], una)
  }

  function ParseUna(n: Numbering, s: Sender, una: int): Sender {
    s.(buf := s.buf[Covered(n, s.buf, una)..])
  }

  predicate InFlight(n: Numbering, s: Sender, sn: int) {
    Diff(n, sn, s.una) >= 0 && Diff(n, sn, s.nxt) < 0
  }

  /** The scan for an acknowledged segment, which stops early past its place. */
  function RemoveAcked(n: Numbering, buf: seq<Segment>, sn: int): seq<Segment> {
    if buf == [] then []
    else if sn == buf[0].sn then buf[1..]
    else if Diff(n, sn, buf[0].sn) < 0 then buf
    else [buf[0]] + RemoveAcked(n, buf[1..], sn)
  }

  function ParseAck(n: Numbering, s: Sender, sn: int): Sender {
    if InFlight(n, s, sn) then s.(buf := RemoveAcked(n, s.buf, sn)) else s
  }

  function Skipped(seg: Segment, sn: int, ts: int): Segment {
    if sn != seg.sn && Itimediff(ts, seg.ts) >= 0 then seg.(fastack := seg.fastack + 1) else seg
  }

  function CountSkips(n: Numbering, buf: seq<Segment>, sn: int, ts: int): (b: seq<Segment>)
    ensures |b| == |buf|
  {
    if buf == [] then []
    else if Diff(n, sn, buf[0].sn) < 0 then buf
    else [Skipped(buf[0], sn, ts)] + CountSkips(n, buf[1..], sn, ts)
  }

  function ParseFastack(n: Numbering, s: Sender, sn: int, ts: int): Sender {
    if InFlight(n, s, sn) then s.(buf := CountSkips(n, s.buf, sn, ts)) else s
  }

  function SenderAbsorb(n: Numbering, s: Sender, w: Wire): Sender {
    var s1 := Shrink(ParseUna(n, s, w.una));
    if w.cmd == CMD_ACK then Shrink(ParseAck(n, s1, w.sn)) else s1
  }

  // ---------------------------------------------------------------- input: timers and windows

  function UpdateAck(c: Control, rtt: int): Control {
    var rttval := if c.srtt == 0 then rtt / 2
                  else (3 * c.rttval + (if rtt >= c.srtt then rtt - c.srtt else c.srtt - rtt)) / 4;
    var srtt := if c.srtt == 0 then rtt else Max(1, (7 * c.srtt + rtt) / 8);
    var rto := srtt + Max(c.interval, 4 * rttval);
    c.(rttval := rttval, srtt := srtt, rto := Max(c.minrto, Min(rto, RTO_MAX)))
  }

  function ControlAbsorb(c: Control, w: Wire): Control {
    var c1 := c.(rmtWnd := w.wnd);
    if w.cmd == CMD_ACK && Itimediff(c.current, w.ts) >= 0 then UpdateAck(c1, Itimediff(c.current, w.ts))
    else if w.cmd == CMD_WASK then c1.(askTell := true)
    else c1
  }

  /** The newest acknowledgement a datagram has brought so far. */
  datatype Mark = NoAck | Newest(sn: int, ts: int)

  function MarkAbsorb(n: Numbering, m: Mark, w: Wire): Mark {
    if w.cmd == CMD_ACK && (m.NoAck? || Diff(n, w.sn, m.sn) > 0) then Newest(w.sn, w.ts) else m
  }

  function Absorb(n: Numbering, e: Endpoint, w: Wire): Endpoint {
    e.(s := SenderAbsorb(n, e.s, w), r := ReceiverAbsorb(n, e.r, w), c := ControlAbsorb(e.c, w))
  }

  function AbsorbAll(n: Numbering, e: Endpoint, ws: seq<Wire>): (e': Endpoint)
    ensures e'.conv == e.conv && e'.mtu == e.mtu
    decreases |ws|
  {
    if ws == [] then e else AbsorbAll(n, Absorb(n, e, ws[0]), ws[1..])
  }

  function MarkAll(n: Numbering, m: Mark, ws: seq<Wire>): Mark
    decreases |ws|
  {
    if ws == [] then m else MarkAll(n, MarkAbsorb(n, m, ws[0]), ws[1..])
  }

  /** Congestion window growth after progress. */
  function Grow(c: Control, mss: int): Control
    requires mss > 0
  {
    if c.cwnd < c.rmtWnd then
      var c1 :=
        if c.cwnd < c.ssthresh then c.(cwnd := c.cwnd + 1, incr := c.incr + mss)
        else
          var base := Max(c.incr, mss);
          var incr := base + mss * mss / base + mss / 16;
          c.(incr := incr, cwnd := if (c.cwnd + 1) * mss <= incr then c.cwnd + 1 else c.cwnd);
      if c1.cwnd > c.rmtWnd then c1.(cwnd := c.rmtWnd, incr := c.rmtWnd * mss) else c1
    else c
  }

  /** What `input` does after its last segment. */
  function Settle(n: Numbering, e: Endpoint, oldUna: int, m: Mark): Endpoint
    requires e.Mss() > 0
  {
    var s := if m.Newest? then ParseFastack(n, e.s, m.sn, m.ts) else e.s;
    e.(s := s, c := if Diff(n, s.una, oldUna) > 0 then Grow(e.c, e.Mss()) else e.c)
  }

  /** A whole well-formed datagram. */
  function Input(n: Numbering, e: Endpoint, ws: seq<Wire>): Endpoint
    requires e.Mss() > 0
  {
    Settle(n, AbsorbAll(n, e, ws), e.s.una, MarkAll(n, NoAck, ws))
  }

  // ---------------------------------------------------------------- flush

  function Unused(r: Receiver): int {
    if |r.queue| < r.wnd then r.wnd - |r.queue| else 0
  }

  /** What every segment of one flush carries. */
  datatype Stamp = Stamp(conv: int, wnd: int, ts: int, una: int)

  function StampOf(e: Endpoint): Stamp {
    Stamp(e.conv, Unused(e.r), e.c.current, e.r.nxt)
  }

  /** The header fields as struct.pack cuts them. */
  function OnWire(n: Numbering, seg: Segment): Wire {
    Wire(U32(seg.conv), seg.cmd % 0x100, seg.frg % 0x100, seg.wnd % 0x1_0000,
         U32(seg.ts), Norm(n, seg.sn), Norm(n, seg.una), seg.data)
  }

  function AckSegment(st: Stamp, ack: (int, int)): Segment {
    Segment(st.conv, CMD_ACK, 0, st.wnd, ack.1, ack.0, st.una, [], 0, 0, 0, 0)
  }

  function AckSegments(st: Stamp, acks: seq<(int, int)>): (a: seq<Segment>)
    ensures |a| == |acks| && forall i :: 0 <= i < |acks| ==> a[i] == AckSegment(st, acks[i])
  {
    seq(|acks|, i requires 0 <= i < |acks| => AckSegment(st, acks[i]))
  }

  /** The window probe timer. */
  function ProbeTimer(c: Control): Control {
    if c.rmtWnd != 0 then c.(tsProbe := 0, probeWait := 0)
    else if c.probeWait == 0 then c.(probeWait := 7000, tsProbe := U32(c.current + 7000))
    else if Itimediff(c.current, c.tsProbe) >= 0 then
      var wait := Min(120000, c.probeWait + c.probeWait / 2);
      c.(probeWait := wait, tsProbe := U32(c.current + wait), askSend := true)
    else c
  }

  function ProbeSegment(st: Stamp, cmd: int): Segment {
    Segment(st.conv, cmd, 0, st.wnd, 0, 0, st.una, [], 0, 0, 0, 0)
  }

  function ProbeSegments(st: Stamp, c: Control): seq<Segment> {
    (if c.askSend then [ProbeSegment(st, CMD_WASK)] else [])
    + (if c.askTell then [ProbeSegment(st, CMD_WINS)] else [])
  }

  function SendWindow(c: Control): int {
    var w := Min(c.sndWnd, c.rmtWnd);
    if c.nocwnd == 0 then Min(c.cwnd, w) else w
  }

  function Numbered(seg: Segment, st: Stamp, sn: int, rto: int): Segment {
    seg.(conv := st.conv, cmd := CMD_PUSH, wnd := st.wnd, ts := st.ts, sn := sn, una := st.una,
         resendts := st.ts, rto := rto, fastack := 0, xmit := 0)
  }

  /** Numbers queued segments while the window has room. */
  function Admit(n: Numbering, s: Sender, st: Stamp, window: int, rto: int): Sender
    decreases |s.queue|
  {
    if Diff(n, s.nxt, Norm(n, s.una + window)) < 0 && s.queue != [] then
      Admit(n, s.(queue := s.queue[1..], nxt := Norm(n, s.nxt + 1),
                  buf := s.buf + [Numbered(s.queue[0], st, s.nxt, rto)]),
            st, window, rto)
    else s
  }

  datatype Reason = Quiet | First | Timeout | Fast

  function Resent(c: Control): int { if c.fastresend > 0 then c.fastresend else NEVER }

  function RtoMin(c: Control): int { if c.nodelay == 0 then c.rto / 8 else 0 }

  function Why(c: Control, seg: Segment): Reason {
    if seg.xmit == 0 then First
    else if Itimediff(c.current, seg.resendts) >= 0 then Timeout
    else if seg.fastack >= Resent(c) then Fast
    else Quiet
  }

  /** A segment of the send buffer after the flush has looked at it. */
  function Transmit(c: Control, st: Stamp, seg: Segment): Segment {
    var sent := seg.(xmit := seg.xmit + 1, ts := st.ts, wnd := st.wnd, una := st.una);
    match Why(c, seg)
    case Quiet => seg
    case First => sent.(rto := c.rto, resendts := U32(c.current + c.rto + RtoMin(c)))
    case Timeout =>
      var rto := seg.rto + (if c.nodelay == 0 then Max(seg.rto, c.rto) else c.rto / 2);
      sent.(rto := rto, resendts := U32(c.current + rto))
    case Fast => sent.(fastack := 0, resendts := U32(c.current + seg.rto))
  }

  function TransmitAll(c: Control, st: Stamp, buf: seq<Segment>): (b: seq<Segment>)
    ensures |b| == |buf| && forall i :: 0 <= i < |buf| ==> b[i] == Transmit(c, st, buf[i])
  {
    seq(|buf|, i requires 0 <= i < |buf| => Transmit(c, st, buf[i]))
  }

  /** The segments of the send buffer that this flush puts on the wire. */
  function Outgoing(c: Control, st: Stamp, buf: seq<Segment>): seq<Segment> {
    if buf == [] then []
    else (if Why(c, buf[0]) == Quiet then [] else [Transmit(c, st, buf[0])]) + Outgoing(c, st, buf[1..])
  }

  function CountReason(c: Control, buf: seq<Segment>, why: Reason): nat {
    if buf == [] then 0 else (if Why(c, buf[0]) == why then 1 else 0) + CountReason(c, buf[1..], why)
  }

  /** Congestion control after a flush that saw fast retransmits or timeouts. */
  function React(n: Numbering, c: Control, s: Sender, mss: int, window: int, fast: nat, lost: nat): Control {
    var c1 :=
      if fast > 0 then
        var ssthresh := Max(Norm(n, s.nxt - s.una) / 2, THRESH_MIN);
        c.(ssthresh := ssthresh, cwnd := ssthresh + Resent(c), incr := (ssthresh + Resent(c)) * mss)
      else c;
    var c2 :=
      if lost > 0 then c1.(ssthresh := Max(window / 2, THRESH_MIN), cwnd := 1, incr := mss) else c1;
    if c2.cwnd < 1 then c2.(cwnd := 1, incr := mss) else c2
  }

  /** The sender after new segments have been numbered, before any is put on the wire. */
  function Admitted(n: Numbering, e: Endpoint): Sender {
    Admit(n, e.s, StampOf(e), SendWindow(ProbeTimer(e.c)), e.c.rto)
  }

  /** The segments one flush emits, in order: acknowledgements, probes, data. */
  function Emitted(n: Numbering, e: Endpoint): seq<Segment> {
    AckSegments(StampOf(e), e.r.acks)
    + ProbeSegments(StampOf(e), ProbeTimer(e.c))
    + Outgoing(e.c, StampOf(e), Admitted(n, e).buf)
  }

  function OnWireAll(n: Numbering, segs: seq<Segment>): (ws: seq<Wire>)
    ensures |ws| == |segs| && forall i :: 0 <= i < |segs| ==> ws[i] == OnWire(n, segs[i])
  {
    seq(|segs|, i requires 0 <= i < |segs| => OnWire(n, segs[i]))
  }

  function Flushed(n: Numbering, e: Endpoint): Endpoint {
    var c := ProbeTimer(e.c).(askSend := false, askTell := false);
    var s := Admitted(n, e);
    var s' := s.(buf := TransmitAll(e.c, StampOf(e), s.buf));
    e.(s := s',
       r := e.r.(acks := []),
       c := React(n, c, s', e.Mss(), SendWindow(c),
                  CountReason(e.c, s.buf, Fast), CountReason(e.c, s.buf, Timeout)))
  }

  // ---------------------------------------------------------------- packing into datagrams

  function TotalSize(ws: seq<Wire>): nat {
    if ws == [] then 0 else ws[0].Size() + TotalSize(ws[1..])
  }

  /** Finished datagrams and the one being filled. */
  datatype Packing = Packing(done: seq<seq<Wire>>, open: seq<Wire>)

  function Emit(mtu: int, p: Packing, w: Wire): Packing {
    if TotalSize(p.open) + w.Size() > mtu
    then Packing(if p.open == [] then p.done else p.done + [p.open], [w])
    else Packing(p.done, p.open + [w])
  }

  function EmitAll(mtu: int, p: Packing, ws: seq<Wire>): Packing {
    if ws == [] then p else Emit(mtu, EmitAll(mtu, p, ws[..|ws| - 1]), ws[|ws| - 1])
  }

  function Close(p: Packing): seq<seq<Wire>> {
    if p.open == [] then p.done else p.done + [p.open]
  }

  function Pack(mtu: int, ws: seq<Wire>): seq<seq<Wire>> {
    Close(EmitAll(mtu, Packing([], []), ws))
  }

  /** The datagrams of one flush. */
  function Datagrams(n: Numbering, e: Endpoint): seq<seq<Wire>> {
    Pack(e.mtu, OnWireAll(n, Emitted(n, e)))
  }

  // ---------------------------------------------------------------- update and check

  /** The clock after `update`, and whether it flushes. */
  function Tick(c: Control, now: int): (Control, bool) {
    var t := U32(now);
    var start := if c.updated then c.tsFlush else t;
    var slap := Itimediff(t, start);
    var c1 := c.(current := t, updated := true, tsFlush := start);
    if slap >= 10000 || slap < -10000 then
      (c1.(tsFlush := NextFlush(t, t, c.interval)), true)
    else if slap >= 0 then (c1.(tsFlush := NextFlush(t, start, c.interval)), true)
    else (c1, false)
  }

  function NextFlush(t: int, start: int, interval: int): int {
    if Itimediff(t, U32(start + interval)) >= 0 then U32(t + interval) else U32(start + interval)
  }

  /** The earliest remaining wait among the segments, or None when one is already due. */
  function Soonest(buf: seq<Segment>, t: int): (d: Option<int>)
    ensures d.Some? ==> 0 < d.value <= NEVER
  {
    if buf == [] then Some(NEVER)
    else
      var rest := Soonest(buf[..|buf| - 1], t);
      var d := Itimediff(buf[|buf| - 1].resendts, t);
      if rest.None? || d <= 0 then None else Some(Min(rest.value, d))
  }

  function Check(c: Control, buf: seq<Segment>, now: int): int {
    var t := U32(now);
    var wait := Itimediff(c.tsFlush, t);
    if !c.updated || wait >= 10000 || wait < -10000 || Itimediff(t, c.tsFlush) >= 0 then t
    else
      match Soonest(buf, t)
      case None => t
      case Some(d) => U32(t + Min(Min(d, wait), c.interval))
  }
}
