/**
 PythonKCP as it is written: an object whose methods update its fields and lists in loops
 (tuya_p2p/_kcp_python.py:98-574). Each method is proved against the value model, in wrapping numbering.
 */
module KcpEndpoint {
  import opened Bytes
  import opened Serial
  import opened KcpModel
  import opened KcpWire
  import opened KcpReceive
  import opened KcpSend
  import opened KcpStream
  import opened KcpPacking
  import opened KcpInvariant

  class PythonKCP {
    var conv: int
    var mtu: int
    var mss: int

    var sndUna: int
    var sndNxt: int
    var rcvNxt: int

    var ssthresh: int
    var rxRttval: int
    var rxSrtt: int
    var rxRto: int
    var rxMinrto: int

    var sndWnd: int
    var rcvWnd: int
    var rmtWnd: int
    var cwnd: int
    var askSend: bool
    var askTell: bool

    var current: int
    var interval: int
    var tsFlush: int
    var updated: bool
    var tsProbe: int
    var probeWait: int
    var incr: int

    var fastresend: int
    var nocwnd: int
    var nodelay: int

    var sndQueue: seq<Segment>
    var rcvQueue: seq<Segment>
    var sndBuf: seq<Segment>
    var rcvBuf: seq<Segment>
    var acklist: seq<(int, int)>

    /** The datagrams handed to the output callback. */
    var sent: seq<Bytes>

    ghost function S(): Sender
      reads `sndUna, `sndNxt, `sndQueue, `sndBuf
    {
      Sender(sndUna, sndNxt, sndQueue, sndBuf)
    }

    ghost function R(): Receiver
      reads `rcvNxt, `rcvWnd, `rcvQueue, `rcvBuf, `acklist
    {
      Receiver(rcvNxt, rcvWnd, rcvQueue, rcvBuf, acklist)
    }

    ghost function C(): Control
      reads this
    {
      Control(ssthresh, rxRttval, rxSrtt, rxRto, rxMinrto, sndWnd, rmtWnd, cwnd, incr,
              askSend, askTell, tsProbe, probeWait, current, interval, tsFlush, updated,
              fastresend, nocwnd, nodelay)
    }

    /** The value the object stands for. */
    ghost function State(): Endpoint
      reads this
    {
      Endpoint(conv, mtu, S(), R(), C())
    }

    ghost predicate Valid()
      reads this
    {
      mss == mtu - OVERHEAD && EndpointOk(State())
    }

    constructor (conv: int, config: Config)
      requires 50 <= config.mtu
      ensures State() == Init(conv, config) && sent == []
      ensures config.mtu < M32 && 1 <= config.sndWnd && 1 <= config.rcvWnd < HALF ==> Valid()
    {
      this.conv := U32(conv);
      mtu := config.mtu;
      mss := config.mtu - OVERHEAD;
      sndUna, sndNxt, rcvNxt := 0, 0, 0;
      ssthresh := THRESH_INIT;
      rxRttval, rxSrtt, rxRto, rxMinrto := 0, 0, RTO_DEF, RTO_MIN;
      sndWnd, rcvWnd, rmtWnd, cwnd := config.sndWnd, config.rcvWnd, WND_RCV, 0;
      askSend, askTell := false, false;
      current := 0;
      interval := Clamp(config.interval);
      tsFlush := Clamp(config.interval);
      updated := false;
      tsProbe, probeWait, incr := 0, 0, 0;
      fastresend, nocwnd, nodelay := config.resend, config.nc, config.nodelay;
      sndQueue, rcvQueue, sndBuf, rcvBuf, acklist := [], [], [], [], [];
      sent := [];
    }

    method SetNodelay(nodelay: int, interval: int, resend: int, nc: int)
      requires Valid()
      modifies `nodelay, `rxMinrto, `interval, `fastresend, `nocwnd
      ensures C() == KcpModel.SetNodelay(old(C()), nodelay, interval, resend, nc)
      ensures Valid()
    {
      ghost var e := State();
      TuneKeepsOk(e, nodelay, interval, resend, nc);
      Retune(nodelay, interval, resend, nc);
      assert State() == e.(c := C());
    }

    method Retune(nodelay: int, interval: int, resend: int, nc: int)
      modifies `nodelay, `rxMinrto, `interval, `fastresend, `nocwnd
      ensures var c := KcpModel.SetNodelay(old(C()), nodelay, interval, resend, nc);
              && this.nodelay == c.nodelay && rxMinrto == c.minrto && this.interval == c.interval
              && fastresend == c.fastresend && nocwnd == c.nocwnd
    {
      this.nodelay := nodelay;
      if nodelay != 0 {
        rxMinrto := RTO_NDL;
      } else {
        rxMinrto := RTO_MIN;
      }
      if interval >= 0 {
        this.interval := Clamp(interval);
      }
      if resend >= 0 {
        fastresend := resend;
      }
      if nc >= 0 {
        nocwnd := nc;
      }
    }

    // -------------------------------------------------------------- send

    method Send(data: Bytes) returns (status: int)
      requires Valid()
      modifies `sndQueue
      ensures Valid()
      ensures State() == KcpModel.Send(old(State()), data)
      ensures status == SendStatus(old(State()).Mss(), data)
    {
      if data == [] {
        return -1;
      }
      var count := (|data| + mss - 1) / mss;
      if count >= WND_RCV {
        return -2;
      }
      SendKeepsOk(State(), data);
      FragmentsCount(mss, data);
      QueueFragments(data, count);
      return 0;
    }

    method QueueFragments(data: Bytes, count: nat)
      requires mss > 0 && data != [] && count == |Fragments(mss, data)|
      modifies `sndQueue
      ensures sndQueue == old(sndQueue) + UnsentAll(Fragments(mss, data))
    {
      ghost var all := UnsentAll(Fragments(mss, data));
      for i := 0 to count
        invariant sndQueue == old(sndQueue) + all[..i]
      {
        FragmentAt(mss, data, i);
        ChunkBounds(mss, data, i);
        var chunk := data[i * mss..Min((i + 1) * mss, |data|)];
        sndQueue := sndQueue + [Segment(0, 0, count - i - 1, 0, 0, 0, 0, chunk, 0, 0, 0, 0)];
        assert all[..i + 1] == all[..i] + [all[i]];
      }
      assert all[..count] == all;
    }

    // -------------------------------------------------------------- recv

    method Peeksize() returns (size: int)
      ensures size == PeekSize(rcvQueue)
    {
      if rcvQueue == [] {
        return -1;
      }
      var seg := rcvQueue[0];
      if seg.frg == 0 {
        return |seg.data|;
      }
      if |rcvQueue| < seg.frg + 1 {
        return -1;
      }
      var total := 0;
      var i := 0;
      while i < |rcvQueue|
        invariant 0 <= i <= |rcvQueue|
        invariant total + |MessageData(rcvQueue[i..])| == |MessageData(rcvQueue)|
      {
        var s := rcvQueue[i];
        total := total + |s.data|;
        assert rcvQueue[i..][1..] == rcvQueue[i + 1..];
        if s.frg == 0 {
          return total;
        }
        i := i + 1;
      }
      return total;
    }

    /** The loop that both `recv` and `_parse_data` end with. */
    method PromoteReady()
      modifies `rcvBuf, `rcvQueue, `rcvNxt
      ensures var r := Promote(Wrapping, old(R()));
              rcvBuf == r.buf && rcvQueue == r.queue && rcvNxt == r.nxt
    {
      while rcvBuf != [] && Itimediff(rcvBuf[0].sn, rcvNxt) == 0 && |rcvQueue| < rcvWnd
        invariant Promote(Wrapping, R()) == Promote(Wrapping, old(R()))
        decreases |rcvBuf|
      {
        var seg := rcvBuf[0];
        rcvBuf := rcvBuf[1..];
        rcvQueue := rcvQueue + [seg];
        rcvNxt := U32(rcvNxt + 1);
      }
    }

    method Recv() returns (message: Option<Bytes>)
      requires Valid()
      modifies `rcvBuf, `rcvQueue, `rcvNxt
      ensures Valid()
      ensures (R(), message) == KcpModel.Recv(Wrapping, old(R()))
    {
      ghost var e := State();
      RecvKeepsRecvOk(Wrapping, e.r);
      message := RecvNow();
      assert State() == e.(r := R());
    }

    method RecvNow() returns (message: Option<Bytes>)
      modifies `rcvBuf, `rcvQueue, `rcvNxt
      ensures (R(), message) == KcpModel.Recv(Wrapping, old(R()))
    {
      if rcvQueue == [] {
        return None;
      }
      var peek := Peeksize();
      if peek < 0 {
        return None;
      }
      ghost var r := R();
      var out := TakeMessage();
      ghost var taken := r.(queue := r.queue[MessageSpan(r.queue)..]);
      assert R() == taken;
      PromoteShape(Wrapping, taken);
      PromoteReady();
      assert R() == Promote(Wrapping, taken);
      return Some(out);
    }

    /** The segments up to the first last-fragment, taken off the queue. */
    method TakeMessage() returns (out: Bytes)
      modifies `rcvQueue
      ensures out == MessageData(old(rcvQueue))
      ensures rcvQueue == old(rcvQueue)[MessageSpan(old(rcvQueue))..]
    {
      out := [];
      var count := 0;
      while count < |rcvQueue|
        invariant 0 <= count <= |rcvQueue|
        invariant out + MessageData(rcvQueue[count..]) == MessageData(rcvQueue)
        invariant count + MessageSpan(rcvQueue[count..]) == MessageSpan(rcvQueue)
      {
        var seg := rcvQueue[count];
        assert rcvQueue[count..][1..] == rcvQueue[count + 1..];
        out := out + seg.data;
        count := count + 1;
        if seg.frg == 0 {
          break;
        }
      }
      assert count == MessageSpan(rcvQueue) && out == MessageData(rcvQueue);
      rcvQueue := rcvQueue[count..];
    }

    // -------------------------------------------------------------- input

    method UpdateAck(rtt: int)
      modifies `rxSrtt, `rxRttval, `rxRto
      ensures var c := KcpModel.UpdateAck(old(C()), rtt);
              rxSrtt == c.srtt && rxRttval == c.rttval && rxRto == c.rto
    {
      if rxSrtt == 0 {
        rxSrtt := rtt;
        rxRttval := rtt / 2;
      } else {
        var delta := if rtt >= rxSrtt then rtt - rxSrtt else rxSrtt - rtt;
        rxRttval := (3 * rxRttval + delta) / 4;
        rxSrtt := (7 * rxSrtt + rtt) / 8;
        if rxSrtt < 1 {
          rxSrtt := 1;
        }
      }
      var rto := rxSrtt + Max(interval, 4 * rxRttval);
      rxRto := Max(rxMinrto, Min(rto, RTO_MAX));
    }

    method ShrinkBuf()
      modifies `sndUna
      ensures sndUna == if sndBuf == [] then sndNxt else sndBuf[0].sn
    {
      if sndBuf != [] {
        sndUna := sndBuf[0].sn;
      } else {
        sndUna := sndNxt;
      }
    }

    method ParseAck(sn: int)
      modifies `sndBuf
      ensures sndBuf == KcpModel.ParseAck(Wrapping, old(S()), sn).buf
    {
      if Itimediff(sn, sndUna) < 0 || Itimediff(sn, sndNxt) >= 0 {
        return;
      }
      var i := 0;
      while i < |sndBuf|
        invariant 0 <= i <= |sndBuf| && sndBuf == old(sndBuf)
        invariant sndBuf[..i] + RemoveAcked(Wrapping, sndBuf[i..], sn) == RemoveAcked(Wrapping, sndBuf, sn)
      {
        var seg := sndBuf[i];
        StepPast(sndBuf, i);
        if sn == seg.sn {
          sndBuf := sndBuf[..i] + sndBuf[i + 1..];
          return;
        }
        if Itimediff(sn, seg.sn) < 0 {
          return;
        }
        i := i + 1;
      }
      assert sndBuf[..i] == sndBuf;
    }

    method ParseUna(una: int)
      modifies `sndBuf
      ensures sndBuf == old(sndBuf)[Covered(Wrapping, old(sndBuf), una)..]
    {
      var count := 0;
      while count < |sndBuf|
        invariant 0 <= count <= |sndBuf|
        invariant count + Covered(Wrapping, sndBuf[count..], una) == Covered(Wrapping, sndBuf, una)
      {
        assert sndBuf[count..][1..] == sndBuf[count + 1..];
        if Itimediff(una, sndBuf[count].sn) > 0 {
          count := count + 1;
        } else {
          break;
        }
      }
      if count != 0 {
        sndBuf := sndBuf[count..];
      }
    }

    method ParseFastack(sn: int, ts: int)
      modifies `sndBuf
      ensures sndBuf == KcpModel.ParseFastack(Wrapping, old(S()), sn, ts).buf
    {
      if Itimediff(sn, sndUna) < 0 || Itimediff(sn, sndNxt) >= 0 {
        return;
      }
      ghost var all := CountSkips(Wrapping, sndBuf, sn, ts);
      var i := 0;
      while i < |sndBuf|
        invariant 0 <= i <= |sndBuf|
        invariant sndBuf[..i] + CountSkips(Wrapping, sndBuf[i..], sn, ts) == all
      {
        var seg := sndBuf[i];
        SplitAt(sndBuf, i);
        if Itimediff(sn, seg.sn) < 0 {
          return;
        }
        UpdateAt(sndBuf, i, Skipped(seg, sn, ts));
        if sn != seg.sn && Itimediff(ts, seg.ts) >= 0 {
          sndBuf := sndBuf[i := seg.(fastack := seg.fastack + 1)];
        }
        i := i + 1;
      }
      assert sndBuf[..i] == sndBuf;
    }

    method ParseData(newseg: Segment)
      modifies `rcvBuf, `rcvQueue, `rcvNxt
      ensures var r := KcpModel.ParseData(Wrapping, old(R()), newseg);
              rcvBuf == r.buf && rcvQueue == r.queue && rcvNxt == r.nxt
    {
      var sn := newseg.sn;
      if Itimediff(sn, U32(rcvNxt + rcvWnd)) >= 0 || Itimediff(sn, rcvNxt) < 0 {
        return;
      }
      var repeated := false;
      var insertAt := |rcvBuf|;
      var i := |rcvBuf| - 1;
      assert rcvBuf[..i + 1] == rcvBuf;
      while i >= 0
        invariant -1 <= i < |rcvBuf| && rcvBuf == old(rcvBuf)
        invariant !repeated && insertAt == i + 1
        invariant ScanBack(Wrapping, rcvBuf, sn) == ScanBack(Wrapping, rcvBuf[..i + 1], sn)
      {
        var seg := rcvBuf[i];
        assert rcvBuf[..i + 1][..i] == rcvBuf[..i];
        if seg.sn == sn {
          repeated := true;
          break;
        }
        if Itimediff(sn, seg.sn) > 0 {
          insertAt := i + 1;
          break;
        }
        insertAt := i;
        i := i - 1;
      }
      if !repeated {
        rcvBuf := rcvBuf[..insertAt] + [newseg] + rcvBuf[insertAt..];
      }
      PromoteReady();
    }

    method AbsorbAck(w: Wire)
      modifies `sndBuf, `sndUna, `rxSrtt, `rxRttval, `rxRto
      ensures var s := Shrink(KcpModel.ParseAck(Wrapping, old(S()), w.sn));
              sndBuf == s.buf && sndUna == s.una
      ensures C() == if Itimediff(old(current), w.ts) >= 0
                     then KcpModel.UpdateAck(old(C()), Itimediff(old(current), w.ts)) else old(C())
    {
      ghost var c := C();
      if Itimediff(current, w.ts) >= 0 {
        UpdateAck(Itimediff(current, w.ts));
        c := KcpModel.UpdateAck(c, Itimediff(current, w.ts));
        assert C() == c;
      }
      ParseAck(w.sn);
      assert C() == c;
      ShrinkBuf();
      assert C() == c;
    }

    method AbsorbPush(w: Wire)
      requires w.cmd == CMD_PUSH
      modifies `acklist, `rcvBuf, `rcvQueue, `rcvNxt
      ensures var r := ReceiverAbsorb(Wrapping, old(R()), w);
              acklist == r.acks && rcvBuf == r.buf && rcvQueue == r.queue && rcvNxt == r.nxt
    {
      if Itimediff(w.sn, U32(rcvNxt + rcvWnd)) < 0 {
        acklist := acklist + [(w.sn, w.ts)];
        ParseDataAcks(R(), Arrived(w));
        if Itimediff(w.sn, rcvNxt) >= 0 {
          ParseData(Segment(w.conv, w.cmd, w.frg, w.wnd, w.ts, w.sn, w.una, w.data, 0, 0, 0, 0));
        }
      }
    }

    method AbsorbUna(w: Wire)
      modifies `rmtWnd, `sndBuf, `sndUna
      ensures var s := Shrink(KcpModel.ParseUna(Wrapping, old(S()), w.una));
              sndBuf == s.buf && sndUna == s.una
      ensures rmtWnd == w.wnd
    {
      rmtWnd := w.wnd;
      ParseUna(w.una);
      ShrinkBuf();
    }

    /** What the loop of `input` does with one segment. */
    method AbsorbSegment(w: Wire)
      modifies `rmtWnd, `sndBuf, `sndUna, `rxSrtt, `rxRttval, `rxRto
      modifies `acklist, `rcvBuf, `rcvQueue, `rcvNxt, `askTell
      ensures var s := SenderAbsorb(Wrapping, old(S()), w);
              sndBuf == s.buf && sndUna == s.una
      ensures var r := ReceiverAbsorb(Wrapping, old(R()), w);
              acklist == r.acks && rcvBuf == r.buf && rcvQueue == r.queue && rcvNxt == r.nxt
      ensures C() == ControlAbsorb(old(C()), w)
    {
      ghost var s, c := S(), C();
      ControlAbsorbIs(c, w);
      AbsorbUna(w);
      assert S() == Shrink(KcpModel.ParseUna(Wrapping, s, w.una)) && C() == c.(rmtWnd := w.wnd);
      AbsorbCommand(w);
    }

    /** What depends on the kind of segment. */
    method AbsorbCommand(w: Wire)
      modifies `sndBuf, `sndUna, `rxSrtt, `rxRttval, `rxRto
      modifies `acklist, `rcvBuf, `rcvQueue, `rcvNxt, `askTell
      ensures var s := if w.cmd == CMD_ACK then Shrink(KcpModel.ParseAck(Wrapping, old(S()), w.sn)) else old(S());
              sndBuf == s.buf && sndUna == s.una
      ensures var r := ReceiverAbsorb(Wrapping, old(R()), w);
              acklist == r.acks && rcvBuf == r.buf && rcvQueue == r.queue && rcvNxt == r.nxt
      ensures C() == CommandControl(old(C()), w)
    {
      ghost var c := C();
      if w.cmd == CMD_ACK {
        AbsorbAck(w);
      } else if w.cmd == CMD_PUSH {
        AbsorbPush(w);
        assert C() == c;
      } else if w.cmd == CMD_WASK {
        askTell := true;
      }
    }

    method AbsorbWhole(w: Wire)
      modifies `rmtWnd, `sndBuf, `sndUna, `rxSrtt, `rxRttval, `rxRto
      modifies `acklist, `rcvBuf, `rcvQueue, `rcvNxt, `askTell
      ensures State() == Absorb(Wrapping, old(State()), w)
    {
      ghost var e0 := State();
      AbsorbWnd(e0.r, w);
      AbsorbSegment(w);
      ghost var e1 := Absorb(Wrapping, e0, w);
      assert S() == e1.s;
      assert R() == e1.r;
    }

    /** Congestion window growth at the end of `input`. */
    method GrowWindow()
      requires mss > 0
      modifies `cwnd, `incr
      ensures var c := Grow(old(C()), mss);
              cwnd == c.cwnd && incr == c.incr
    {
      if cwnd < rmtWnd {
        if cwnd < ssthresh {
          cwnd := cwnd + 1;
          incr := incr + mss;
        } else {
          if incr < mss {
            incr := mss;
          }
          incr := incr + (mss * mss / incr + mss / 16);
          if (cwnd + 1) * mss <= incr {
            cwnd := cwnd + 1;
          }
        }
        // The source clamps cwnd to rmt_wnd here; it cannot be above it.
        assert cwnd <= rmtWnd;
      }
    }

    /** The header loop of `input`: its status, and the newest acknowledgement it met. */
    method AbsorbPacket(packet: Bytes) returns (status: int, flag: bool, maxack: int, latestTs: int)
      modifies `rmtWnd, `sndBuf, `sndUna, `rxSrtt, `rxRttval, `rxRto
      modifies `acklist, `rcvBuf, `rcvQueue, `rcvNxt, `askTell
      ensures var p := ParseFrom(conv, packet, 0);
              && status == p.status
              && State() == AbsorbAll(Wrapping, old(State()), p.wires)
              && (status == 0 ==> NewestOf(flag, maxack, latestTs) == MarkAll(Wrapping, NoAck, p.wires))
    {
      ghost var e0 := State();
      ghost var all := ParseFrom(conv, packet, 0);
      var offset := 0;
      status, flag, maxack, latestTs := 0, false, 0, 0;
      while |packet| - offset >= OVERHEAD && status == 0
        invariant 0 <= offset <= |packet|
        invariant status == 0 ==> ParseFrom(conv, packet, offset).status == all.status
        invariant status == 0 ==>
                    AbsorbAll(Wrapping, State(), ParseFrom(conv, packet, offset).wires)
                    == AbsorbAll(Wrapping, e0, all.wires)
        invariant status == 0 ==>
                    MarkAll(Wrapping, NewestOf(flag, maxack, latestTs), ParseFrom(conv, packet, offset).wires)
                    == MarkAll(Wrapping, NoAck, all.wires)
        invariant status != 0 ==> status == all.status && State() == AbsorbAll(Wrapping, e0, all.wires)
        decreases |packet| - offset, if status == 0 then 1 else 0
      {
        status, offset, flag, maxack, latestTs := AbsorbNext(packet, offset, flag, maxack, latestTs);
      }
    }

    /** One turn of the header loop. */
    method AbsorbNext(packet: Bytes, offset: nat, flag: bool, maxack: int, latestTs: int)
      returns (status: int, offset': nat, flag': bool, maxack': int, latestTs': int)
      requires offset + OVERHEAD <= |packet|
      modifies `rmtWnd, `sndBuf, `sndUna, `rxSrtt, `rxRttval, `rxRto
      modifies `acklist, `rcvBuf, `rcvQueue, `rcvNxt, `askTell
      ensures offset < offset' <= |packet|
      ensures var rest := ParseFrom(conv, packet, offset);
              if status != 0 then rest == Parsed([], status) && State() == old(State())
              else
                var more := ParseFrom(conv, packet, offset');
                && rest.status == more.status
                && AbsorbAll(Wrapping, State(), more.wires) == AbsorbAll(Wrapping, old(State()), rest.wires)
                && MarkAll(Wrapping, NewestOf(flag', maxack', latestTs'), more.wires)
                   == MarkAll(Wrapping, NewestOf(flag, maxack, latestTs), rest.wires)
    {
      flag', maxack', latestTs' := flag, maxack, latestTs;
      var w;
      status, offset', w := NextSegment(packet, offset);
      if status == 0 {
        flag', maxack', latestTs' :=
          AbsorbMarked(w, flag, maxack, latestTs, ParseFrom(conv, packet, offset').wires);
      }
    }

    /** Decodes the segment at an offset, and finds where the next one starts. */
    method NextSegment(packet: Bytes, offset: nat) returns (status: int, offset': nat, w: Wire)
      requires offset + OVERHEAD <= |packet|
      ensures offset < offset' <= |packet|
      ensures var rest := ParseFrom(conv, packet, offset);
              if status != 0 then rest == Parsed([], status)
              else
                var more := ParseFrom(conv, packet, offset');
                rest.wires == [w] + more.wires && rest.status == more.status
    {
      status, w := 0, ReadHeader(packet, offset);
      var length := Field32(packet, offset + 20);
      offset' := offset + OVERHEAD;
      if w.conv != conv {
        status := -1;
        return;
      }
      if |packet| - offset' < length {
        status := -2;
        return;
      }
      var payload := packet[offset'..offset' + length];
      offset' := offset' + length;
      if w.cmd != CMD_PUSH && w.cmd != CMD_ACK && w.cmd != CMD_WASK && w.cmd != CMD_WINS {
        status := -3;
        return;
      }
      w := w.(data := payload);
      ghost var more := ParseFrom(conv, packet, offset');
      assert ParseFrom(conv, packet, offset) == Parsed([w] + more.wires, more.status);
    }

    /** Takes in one segment and remembers the newest acknowledgement. */
    method AbsorbMarked(w: Wire, flag: bool, maxack: int, latestTs: int, ghost more: seq<Wire>)
      returns (flag': bool, maxack': int, latestTs': int)
      modifies `rmtWnd, `sndBuf, `sndUna, `rxSrtt, `rxRttval, `rxRto
      modifies `acklist, `rcvBuf, `rcvQueue, `rcvNxt, `askTell
      ensures AbsorbAll(Wrapping, State(), more) == AbsorbAll(Wrapping, old(State()), [w] + more)
      ensures MarkAll(Wrapping, NewestOf(flag', maxack', latestTs'), more)
              == MarkAll(Wrapping, NewestOf(flag, maxack, latestTs), [w] + more)
    {
      AbsorbCons(State(), NewestOf(flag, maxack, latestTs), w, more);
      AbsorbWhole(w);
      flag', maxack', latestTs' := flag, maxack, latestTs;
      if w.cmd == CMD_ACK {
        if !flag {
          flag', maxack', latestTs' := true, w.sn, w.ts;
        } else if Itimediff(w.sn, maxack) > 0 {
          maxack', latestTs' := w.sn, w.ts;
        }
      }
    }

    /** What `input` does after its last segment. */
    method SettleAcks(oldUna: int, flag: bool, maxack: int, latestTs: int)
      requires mss == mtu - OVERHEAD && mss > 0
      modifies `sndBuf, `cwnd, `incr
      ensures State() == Settle(Wrapping, old(State()), oldUna, NewestOf(flag, maxack, latestTs))
    {
      ghost var e := State();
      if flag {
        ParseFastack(maxack, latestTs);
        e := e.(s := KcpModel.ParseFastack(Wrapping, e.s, maxack, latestTs));
        assert State() == e;
      }
      if Itimediff(sndUna, oldUna) > 0 {
        GrowWindow();
        assert C() == Grow(e.c, e.Mss());
      }
    }

    method ProcessPacket(packet: Bytes) returns (status: int)
      requires mss == mtu - OVERHEAD && mss > 0
      modifies `rmtWnd, `sndBuf, `sndUna, `rxSrtt, `rxRttval, `rxRto
      modifies `acklist, `rcvBuf, `rcvQueue, `rcvNxt, `askTell, `cwnd, `incr
      ensures (State(), status) == InputPacket(old(State()), packet)
    {
      if |packet| < OVERHEAD {
        return -1;
      }
      var oldUna := sndUna;
      var flag, maxack, latestTs;
      status, flag, maxack, latestTs := AbsorbPacket(packet);
      if status != 0 {
        return;
      }
      SettleAcks(oldUna, flag, maxack, latestTs);
    }

    method Input(packet: Bytes) returns (status: int)
      requires Valid()
      modifies `rmtWnd, `sndBuf, `sndUna, `rxSrtt, `rxRttval, `rxRto
      modifies `acklist, `rcvBuf, `rcvQueue, `rcvNxt, `askTell, `cwnd, `incr
      ensures (State(), status) == InputPacket(old(State()), packet)
      ensures Valid() && 0 <= Diff(Wrapping, sndUna, old(sndUna))
    {
      InputPacketKeepsOk(State(), packet);
      status := ProcessPacket(packet);
    }

    // -------------------------------------------------------------- update and check

    /** The clock half of `update`. */
    method AdvanceClock(now: int) returns (due: bool)
      modifies `current, `updated, `tsFlush
      ensures var (c, d) := Tick(old(C()), now);
              due == d && current == c.current && updated == c.updated && tsFlush == c.tsFlush
    {
      current := U32(now);
      if !updated {
        updated := true;
        tsFlush := current;
      }
      var slap := Itimediff(current, tsFlush);
      if slap >= 10000 || slap < -10000 {
        tsFlush := current;
        slap := 0;
      }
      due := slap >= 0;
      if due {
        tsFlush := U32(tsFlush + interval);
        if Itimediff(current, tsFlush) >= 0 {
          tsFlush := U32(current + interval);
        }
      }
    }

    method Update(now: int)
      requires Valid()
      modifies this
      ensures var (c, due) := Tick(old(C()), now);
              var e := old(State()).(c := c);
              && State() == (if due then Flushed(Wrapping, e) else e)
              && sent == old(sent) + if due then RawAll(Datagrams(Wrapping, e)) else []
      ensures Valid()
    {
      ghost var e0 := State();
      TickKeepsOk(e0, now);
      var due := AdvanceClock(now);
      assert State() == e0.(c := Tick(e0.c, now).0);
      if due {
        FlushKeepsOk(State());
        FlushNow();
      }
    }

    method Flush()
      requires Valid()
      modifies this
      ensures Valid() && State() == Flushed(Wrapping, old(State()))
      ensures sent == old(sent) + RawAll(Datagrams(Wrapping, old(State())))
    {
      FlushKeepsOk(State());
      FlushNow();
    }

    method Check(now: int) returns (at: int)
      ensures at == KcpModel.Check(C(), sndBuf, now)
    {
      var t := U32(now);
      if !updated {
        return t;
      }
      var flushAt := tsFlush;
      var tmFlush := Itimediff(flushAt, t);
      if tmFlush >= 10000 || tmFlush < -10000 {
        flushAt := t;
        assert Itimediff(t, flushAt) == 0;
      }
      if Itimediff(t, flushAt) >= 0 {
        return t;
      }
      var tmPacket := NEVER;
      var i := 0;
      while i < |sndBuf|
        invariant 0 <= i <= |sndBuf|
        invariant Soonest(sndBuf[..i], t) == Some(tmPacket)
      {
        var diff := Itimediff(sndBuf[i].resendts, t);
        assert sndBuf[..i + 1][..i] == sndBuf[..i];
        if diff <= 0 {
          SoonestStays(sndBuf, t, i + 1);
          return t;
        }
        if diff < tmPacket {
          tmPacket := diff;
        }
        i := i + 1;
      }
      assert sndBuf[..i] == sndBuf;
      var minimal := Min(Min(tmPacket, tmFlush), interval);
      return U32(t + minimal);
    }

    // -------------------------------------------------------------- flush

    /** The room advertised to the peer: exactly as many segments as the receive queue can still take. */
    method WndUnused() returns (wnd: int)
      ensures wnd == Unused(R())
      ensures 0 <= wnd && (wnd == 0 <==> |rcvQueue| >= rcvWnd)
      ensures |rcvQueue| + wnd == Max(|rcvQueue|, rcvWnd)
    {
      if |rcvQueue| < rcvWnd {
        return rcvWnd - |rcvQueue|;
      }
      return 0;
    }

    /** The inner function `emit` of `_flush`: the datagrams finished so far, and the one being filled. */
    method EmitSegment(packets: seq<Bytes>, buf: Bytes, seg: Segment, ghost out: seq<Segment>)
      returns (packets': seq<Bytes>, buf': Bytes)
      requires |seg.data| < M32 && Packed(mtu, packets, buf, out)
      ensures Packed(mtu, packets', buf', out + [seg])
    {
      var encoded := Encode(seg);
      PackedStep(mtu, packets, buf, out, seg);
      packets', buf' := packets, buf;
      if |buf'| + |encoded| > mtu {
        if buf' != [] {
          packets' := packets' + [buf'];
        }
        buf' := [];
      }
      buf' := buf' + encoded;
    }

    method EmitAcks(st: Stamp) returns (packets: seq<Bytes>, buf: Bytes)
      modifies `acklist
      ensures Packed(mtu, packets, buf, AckSegments(st, old(acklist)))
      ensures R() == old(R()).(acks := []) && C() == old(C())
    {
      packets, buf := [], [];
      ghost var all := AckSegments(st, acklist);
      PackedStart(mtu);
      var i := 0;
      while i < |acklist|
        invariant 0 <= i <= |acklist| && acklist == old(acklist)
        invariant Packed(mtu, packets, buf, all[..i])
      {
        var (sn, ts) := acklist[i];
        packets, buf := EmitSegment(packets, buf,
          Segment(st.conv, CMD_ACK, 0, st.wnd, ts, sn, st.una, [], 0, 0, 0, 0), all[..i]);
        assert all[..i + 1] == all[..i] + [all[i]];
        i := i + 1;
      }
      assert all[..i] == all;
      acklist := [];
    }

    method RunProbeTimer()
      modifies `probeWait, `tsProbe, `askSend
      ensures var c := ProbeTimer(old(C()));
              probeWait == c.probeWait && tsProbe == c.tsProbe && askSend == c.askSend
    {
      if rmtWnd == 0 {
        if probeWait == 0 {
          probeWait := 7000;
          tsProbe := U32(current + probeWait);
        } else if Itimediff(current, tsProbe) >= 0 {
          probeWait := probeWait + probeWait / 2;
          if probeWait > 120000 {
            probeWait := 120000;
          }
          tsProbe := U32(current + probeWait);
          askSend := true;
        }
      } else {
        tsProbe := 0;
        probeWait := 0;
      }
    }

    method EmitProbes(st: Stamp, packets: seq<Bytes>, buf: Bytes, ghost out: seq<Segment>)
      returns (packets': seq<Bytes>, buf': Bytes)
      requires Packed(mtu, packets, buf, out)
      modifies `askSend, `askTell
      ensures Packed(mtu, packets', buf', out + ProbeSegments(st, old(C())))
      ensures C() == old(C()).(askSend := false, askTell := false)
    {
      ghost var c := C();
      packets', buf' := packets, buf;
      ghost var done := out;
      if askSend {
        packets', buf' := EmitSegment(packets', buf', ProbeSegment(st, CMD_WASK), done);
        done := done + [ProbeSegment(st, CMD_WASK)];
      }
      if askTell {
        packets', buf' := EmitSegment(packets', buf', ProbeSegment(st, CMD_WINS), done);
        done := done + [ProbeSegment(st, CMD_WINS)];
      }
      assert done == out + ProbeSegments(st, c);
      askSend, askTell := false, false;
    }

    /** Moves segments from the send queue to the send buffer while the window has room. */
    method AdmitQueued(st: Stamp, window: int)
      requires st.conv == conv && st.ts == current && st.una == rcvNxt
      modifies `sndQueue, `sndBuf, `sndNxt
      ensures var s := Admit(Wrapping, old(S()), st, window, rxRto);
              sndQueue == s.queue && sndBuf == s.buf && sndNxt == s.nxt
    {
      while Itimediff(sndNxt, U32(sndUna + window)) < 0 && sndQueue != []
        invariant Admit(Wrapping, S(), st, window, rxRto) == Admit(Wrapping, old(S()), st, window, rxRto)
        decreases |sndQueue|
      {
        var newseg := sndQueue[0];
        sndQueue := sndQueue[1..];
        newseg := newseg.(conv := conv, cmd := CMD_PUSH, wnd := st.wnd, ts := current, sn := sndNxt);
        sndNxt := U32(sndNxt + 1);
        newseg := newseg.(una := rcvNxt, resendts := current, rto := rxRto, fastack := 0, xmit := 0);
        sndBuf := sndBuf + [newseg];
      }
    }

    /** What the transmission loop reads: the stamp and the timers of one flush. */
    ghost predicate Stamped(st: Stamp, c: Control)
      reads `current, `rcvNxt, `rxRto, `nodelay, `fastresend
    {
      && st.ts == current == c.current && st.una == rcvNxt
      && rxRto == c.rto && nodelay == c.nodelay && fastresend == c.fastresend
    }

    /** One segment of the send buffer as the transmission loop leaves it, and why. */
    method TransmitOne(st: Stamp, seg: Segment, ghost c: Control) returns (seg': Segment, why: Reason)
      requires Stamped(st, c)
      ensures why == Why(c, seg) && seg' == Transmit(c, st, seg)
    {
      var resent := if fastresend > 0 then fastresend else NEVER;
      var rtomin := if nodelay == 0 then rxRto / 8 else 0;
      seg', why := seg, Quiet;
      if seg'.xmit == 0 {
        why := First;
        seg' := seg'.(xmit := seg'.xmit + 1, rto := rxRto);
        seg' := seg'.(resendts := U32(current + seg'.rto + rtomin));
      } else if Itimediff(current, seg'.resendts) >= 0 {
        why := Timeout;
        seg' := seg'.(xmit := seg'.xmit + 1);
        if nodelay == 0 {
          seg' := seg'.(rto := seg'.rto + Max(seg'.rto, rxRto));
        } else {
          seg' := seg'.(rto := seg'.rto + rxRto / 2);
        }
        seg' := seg'.(resendts := U32(current + seg'.rto));
      } else if seg'.fastack >= resent {
        why := Fast;
        seg' := seg'.(xmit := seg'.xmit + 1, fastack := 0);
        seg' := seg'.(resendts := U32(current + seg'.rto));
      }
      if why != Quiet {
        seg' := seg'.(ts := current, wnd := st.wnd, una := rcvNxt);
      }
    }

    method TransmitBuffer(st: Stamp, packets: seq<Bytes>, buf: Bytes, ghost c: Control, ghost heads: seq<Segment>)
      returns (packets': seq<Bytes>, buf': Bytes, fast: nat, lost: nat)
      requires Stamped(st, c)
      requires Packed(mtu, packets, buf, heads)
      requires forall seg <- sndBuf :: |seg.data| < M32
      modifies `sndBuf
      ensures sndBuf == TransmitAll(c, st, old(sndBuf))
      ensures Packed(mtu, packets', buf', heads + Outgoing(c, st, old(sndBuf)))
      ensures fast == CountReason(c, old(sndBuf), Fast) && lost == CountReason(c, old(sndBuf), Timeout)
    {
      packets', buf', fast, lost := packets, buf, 0, 0;
      ghost var before := sndBuf;
      assert heads + Outgoing(c, st, before[..0]) == heads;
      var i := 0;
      while i < |sndBuf|
        invariant 0 <= i <= |sndBuf| == |before|
        invariant forall k :: 0 <= k < i ==> sndBuf[k] == Transmit(c, st, before[k])
        invariant forall k :: i <= k < |before| ==> sndBuf[k] == before[k]
        invariant Packed(mtu, packets', buf', heads + Outgoing(c, st, before[..i]))
        invariant fast == CountReason(c, before[..i], Fast) && lost == CountReason(c, before[..i], Timeout)
      {
        assert before[i] in before;
        var seg;
        seg, packets', buf', fast, lost :=
          TransmitAndEmit(st, sndBuf[i], packets', buf', fast, lost, c, heads, before, i);
        sndBuf := sndBuf[i := seg];
        i := i + 1;
      }
      assert before[..i] == before;
    }

    /** One turn of the transmission loop. */
    method TransmitAndEmit(st: Stamp, seg: Segment, packets: seq<Bytes>, buf: Bytes, fast: nat, lost: nat,
                           ghost c: Control, ghost heads: seq<Segment>, ghost all: seq<Segment>, ghost i: nat)
      returns (seg': Segment, packets': seq<Bytes>, buf': Bytes, fast': nat, lost': nat)
      requires Stamped(st, c)
      requires i < |all| && seg == all[i] && |seg.data| < M32
      requires Packed(mtu, packets, buf, heads + Outgoing(c, st, all[..i]))
      requires fast == CountReason(c, all[..i], Fast) && lost == CountReason(c, all[..i], Timeout)
      ensures seg' == Transmit(c, st, seg)
      ensures Packed(mtu, packets', buf', heads + Outgoing(c, st, all[..i + 1]))
      ensures fast' == CountReason(c, all[..i + 1], Fast) && lost' == CountReason(c, all[..i + 1], Timeout)
    {
      var why;
      seg', why := TransmitOne(st, seg, c);
      OutgoingSnoc(c, st, all, i);
      AppendIf(heads, Outgoing(c, st, all[..i]), why == Quiet, seg');
      packets', buf', fast', lost' := packets, buf, fast, lost;
      if why != Quiet {
        packets', buf' := EmitSegment(packets, buf, seg', heads + Outgoing(c, st, all[..i]));
      }
      if why == Timeout {
        lost' := lost + 1;
      } else if why == Fast {
        fast' := fast + 1;
      }
    }

    /** Congestion control at the end of `_flush`. */
    method ReactToLoss(window: int, fast: nat, lost: nat)
      modifies `ssthresh, `cwnd, `incr
      ensures State() == old(State()).(c := React(Wrapping, old(C()), old(S()), mss, window, fast, lost))
    {
      ghost var e := State();
      ReactFrame(e.c, e.s, mss, window, fast, lost);
      SetWindow(window, fast, lost);
      assert C() == React(Wrapping, e.c, e.s, mss, window, fast, lost);
    }

    method SetWindow(window: int, fast: nat, lost: nat)
      modifies `ssthresh, `cwnd, `incr
      ensures var c := React(Wrapping, old(C()), S(), mss, window, fast, lost);
              ssthresh == c.ssthresh && cwnd == c.cwnd && incr == c.incr
    {
      var resent := if fastresend > 0 then fastresend else NEVER;
      if fast > 0 {
        var inflight := U32(sndNxt - sndUna);
        ssthresh := Max(inflight / 2, THRESH_MIN);
        cwnd := ssthresh + resent;
        incr := cwnd * mss;
      }
      if lost > 0 {
        ssthresh := Max(window / 2, THRESH_MIN);
        cwnd := 1;
        incr := mss;
      }
      if cwnd < 1 {
        cwnd := 1;
        incr := mss;
      }
    }

    /** `_flush`: acknowledgements, probes, new and due data segments, packed into datagrams. */
    method FlushNow()
      requires mss == mtu - OVERHEAD && Sized(State())
      modifies this
      ensures mss == old(mss) && State() == Flushed(Wrapping, old(State()))
      ensures sent == old(sent) + RawAll(Datagrams(Wrapping, old(State())))
    {
      ghost var e := State();
      var packets, buf, window, fast, lost := EmitFlush();
      FlushedInTwoSteps(e, window, fast, lost);
      FinishFlush(packets, buf, window, fast, lost, Transmitted(e), Emitted(Wrapping, e));
    }

    /** `_flush` up to the point where its datagrams are handed over. */
    method EmitFlush() returns (packets: seq<Bytes>, buf: Bytes, window: int, fast: nat, lost: nat)
      requires Sized(State())
      modifies `acklist, `probeWait, `tsProbe, `askSend, `askTell, `sndQueue, `sndBuf, `sndNxt
      ensures State() == Transmitted(old(State()))
      ensures Packed(mtu, packets, buf, Emitted(Wrapping, old(State())))
      ensures var buf := Admitted(Wrapping, old(State())).buf;
              fast == CountReason(old(C()), buf, Fast) && lost == CountReason(old(C()), buf, Timeout)
      ensures window == SendWindow(old(C()))
    {
      ghost var e := State();
      var wnd := WndUnused();
      var st := Stamp(conv, wnd, current, rcvNxt);
      packets, buf := EmitHeads(st);
      ghost var heads := AckSegments(st, e.r.acks) + ProbeSegments(st, ProbeTimer(e.c));
      packets, buf, window, fast, lost := EmitData(st, packets, buf, e, heads);
      AdmitKeepsUna(e.s, st, SendWindow(ProbeTimer(e.c)), e.c.rto);
      assert S() == Transmitted(e).s;
    }

    /** The data of one flush: what the window lets in is numbered, and what is due is emitted. */
    method EmitData(st: Stamp, packets: seq<Bytes>, buf: Bytes, ghost e: Endpoint, ghost heads: seq<Segment>)
      returns (packets': seq<Bytes>, buf': Bytes, window: int, fast: nat, lost: nat)
      requires st == StampOf(e) && st.conv == conv && Stamped(st, e.c) && S() == e.s && Sized(e)
      requires sndWnd == e.c.sndWnd && rmtWnd == e.c.rmtWnd && cwnd == e.c.cwnd && nocwnd == e.c.nocwnd
      requires Packed(mtu, packets, buf, heads)
      modifies `sndQueue, `sndBuf, `sndNxt
      ensures var s := Admitted(Wrapping, e);
              && sndQueue == s.queue && sndNxt == s.nxt && sndBuf == TransmitAll(e.c, st, s.buf)
              && Packed(mtu, packets', buf', heads + Outgoing(e.c, st, s.buf))
              && fast == CountReason(e.c, s.buf, Fast) && lost == CountReason(e.c, s.buf, Timeout)
      ensures window == SendWindow(e.c)
      ensures C() == old(C()) && R() == old(R())
    {
      AdmittedSized(Wrapping, e);
      ghost var r, c := R(), C();
      window := AdmitData(st, e);
      packets', buf', fast, lost := TransmitBuffer(st, packets, buf, e.c, heads);
      assert R() == r && C() == c;
    }

    /** Works out the window and numbers what it lets in. */
    method AdmitData(st: Stamp, ghost e: Endpoint) returns (window: int)
      requires st == StampOf(e) && st.conv == conv && Stamped(st, e.c) && S() == e.s
      requires sndWnd == e.c.sndWnd && rmtWnd == e.c.rmtWnd && cwnd == e.c.cwnd && nocwnd == e.c.nocwnd
      modifies `sndQueue, `sndBuf, `sndNxt
      ensures var s := Admitted(Wrapping, e);
              sndQueue == s.queue && sndNxt == s.nxt && sndBuf == s.buf
      ensures C() == old(C()) && R() == old(R())
      ensures window == SendWindow(e.c)
    {
      window := Min(sndWnd, rmtWnd);
      if nocwnd == 0 {
        window := Min(cwnd, window);
      }
      ProbesKeepWindow(e.c);
      assert window == SendWindow(ProbeTimer(e.c));
      AdmitQueued(st, window);
    }

    /** The part of `_flush` before data: acknowledgements, the probe timer, probes. */
    method EmitHeads(st: Stamp) returns (packets: seq<Bytes>, buf: Bytes)
      modifies `acklist, `probeWait, `tsProbe, `askSend, `askTell
      ensures Packed(mtu, packets, buf, AckSegments(st, old(acklist)) + ProbeSegments(st, ProbeTimer(old(C()))))
      ensures C() == ProbeTimer(old(C())).(askSend := false, askTell := false)
      ensures R() == old(R()).(acks := [])
    {
      ghost var acks := AckSegments(st, acklist);
      packets, buf := EmitAcks(st);
      packets, buf := ProbeAndEmit(st, packets, buf, acks);
    }

    method ProbeAndEmit(st: Stamp, packets: seq<Bytes>, buf: Bytes, ghost out: seq<Segment>)
      returns (packets': seq<Bytes>, buf': Bytes)
      requires Packed(mtu, packets, buf, out)
      modifies `probeWait, `tsProbe, `askSend, `askTell
      ensures Packed(mtu, packets', buf', out + ProbeSegments(st, ProbeTimer(old(C()))))
      ensures C() == ProbeTimer(old(C())).(askSend := false, askTell := false)
      ensures R() == old(R())
    {
      ghost var c := C();
      ProbePeer();
      ghost var c1 := C();
      packets', buf' := EmitProbes(st, packets, buf, out);
      assert C() == c1.(askSend := false, askTell := false) && c1 == ProbeTimer(c);
    }

    method ProbePeer()
      modifies `probeWait, `tsProbe, `askSend
      ensures C() == ProbeTimer(old(C()))
    {
      ProbeTimerFrame(C());
      RunProbeTimer();
    }

    /** The part of `_flush` after data: handing over the datagrams, and congestion control. */
    method FinishFlush(packets: seq<Bytes>, buf: Bytes, window: int, fast: nat, lost: nat,
                       ghost e: Endpoint, ghost out: seq<Segment>)
      requires State() == e && mss == e.Mss() && Packed(mtu, packets, buf, out)
      modifies `sent, `ssthresh, `cwnd, `incr
      ensures sent == old(sent) + RawAll(Pack(e.mtu, OnWireAll(Wrapping, out)))
      ensures State() == e.(c := React(Wrapping, e.c, e.s, e.Mss(), window, fast, lost))
    {
      PackedEnd(mtu, packets, buf, out);
      var all := packets;
      if buf != [] {
        all := all + [buf];
      }
      sent := sent + all;
      assert State() == e;
      ReactToLoss(window, fast, lost);
    }
  }

  // ---------------------------------------------------------------- what the loops need

  function NewestOf(flag: bool, maxack: int, latestTs: int): Mark {
    if flag then Newest(maxack, latestTs) else NoAck
  }

  lemma ProbeTimerFrame(c: Control)
    ensures var c1 := ProbeTimer(c);
            c1 == c.(probeWait := c1.probeWait, tsProbe := c1.tsProbe, askSend := c1.askSend)
  {
  }

  /** The endpoint after a flush, congestion control aside. */
  ghost function Transmitted(e: Endpoint): Endpoint {
    var s := Admitted(Wrapping, e);
    e.(s := s.(buf := TransmitAll(e.c, StampOf(e), s.buf)),
       r := e.r.(acks := []),
       c := ProbeTimer(e.c).(askSend := false, askTell := false))
  }

  lemma FlushedInTwoSteps(e: Endpoint, window: int, fast: nat, lost: nat)
    requires window == SendWindow(e.c)
    requires var buf := Admitted(Wrapping, e).buf;
             fast == CountReason(e.c, buf, Fast) && lost == CountReason(e.c, buf, Timeout)
    ensures var e1 := Transmitted(e);
            Flushed(Wrapping, e) == e1.(c := React(Wrapping, e1.c, e1.s, e1.Mss(), window, fast, lost))
  {
    ProbesKeepWindow(e.c);
  }

  lemma ReactFrame(c: Control, s: Sender, mss: int, window: int, fast: nat, lost: nat)
    ensures var c1 := React(Wrapping, c, s, mss, window, fast, lost);
            c1 == c.(ssthresh := c1.ssthresh, cwnd := c1.cwnd, incr := c1.incr)
  {
  }

  lemma {:induction false} AdmitKeepsUna(s: Sender, st: Stamp, window: int, rto: int)
    ensures Admit(Wrapping, s, st, window, rto).una == s.una
    decreases |s.queue|
  {
    if Diff(Wrapping, s.nxt, Norm(Wrapping, s.una + window)) < 0 && s.queue != [] {
      AdmitKeepsUna(s.(queue := s.queue[1..], nxt := Norm(Wrapping, s.nxt + 1),
                       buf := s.buf + [Numbered(s.queue[0], st, s.nxt, rto)]), st, window, rto);
    }
  }

  lemma ParseDataAcks(r: Receiver, seg: Segment)
    ensures KcpModel.ParseData(Wrapping, r, seg).acks == r.acks
  {
    PromoteShape(Wrapping, r.(buf := Insert(Wrapping, r.buf, seg)));
  }

  lemma AbsorbWnd(r: Receiver, w: Wire)
    ensures ReceiverAbsorb(Wrapping, r, w).wnd == r.wnd
  {
    var noted := r.(acks := r.acks + [(w.sn, w.ts)]);
    PromoteShape(Wrapping, noted.(buf := Insert(Wrapping, noted.buf, Arrived(w))));
  }

  /** What the kind of a segment makes of the timers; every segment brings the peer's window. */
  ghost function CommandControl(c: Control, w: Wire): Control {
    if w.cmd == CMD_ACK && Itimediff(c.current, w.ts) >= 0 then KcpModel.UpdateAck(c, Itimediff(c.current, w.ts))
    else if w.cmd == CMD_WASK then c.(askTell := true)
    else c
  }

  lemma ControlAbsorbIs(c: Control, w: Wire)
    ensures ControlAbsorb(c, w) == CommandControl(c.(rmtWnd := w.wnd), w)
  {
  }

  lemma AbsorbCons(e: Endpoint, m: Mark, w: Wire, more: seq<Wire>)
    ensures AbsorbAll(Wrapping, e, [w] + more) == AbsorbAll(Wrapping, Absorb(Wrapping, e, w), more)
    ensures MarkAll(Wrapping, m, [w] + more) == MarkAll(Wrapping, MarkAbsorb(Wrapping, m, w), more)
  {
    assert ([w] + more)[1..] == more;
  }

  lemma SplitAt(s: seq<Segment>, i: nat)
    requires i < |s|
    ensures s[..i] + s[i..] == s && s[i..][1..] == s[i + 1..] && s[i..][0] == s[i]
  {
  }

  lemma StepPast(s: seq<Segment>, i: nat)
    requires i < |s|
    ensures s[..i] + s[i..] == s && s[i..] != [] && s[i..][1..] == s[i + 1..] && s[i..][0] == s[i]
    ensures forall rest: seq<Segment> :: s[..i] + ([s[i]] + rest) == s[..i + 1] + rest
  {
  }

  lemma UpdateAt(s: seq<Segment>, i: nat, x: Segment)
    requires i < |s|
    ensures s[i := x][..i + 1] == s[..i] + [x] && s[i := x][i + 1..] == s[i + 1..]
    ensures x == s[i] ==> s[i := x] == s
    ensures forall rest: seq<Segment> :: s[..i] + ([x] + rest) == s[i := x][..i + 1] + rest
  {
  }

  lemma AppendIf(a: seq<Segment>, b: seq<Segment>, quiet: bool, x: Segment)
    ensures (if quiet then a + b else a + b + [x]) == a + (b + if quiet then [] else [x])
  {
    assert b + [] == b;
  }

  lemma ChunkBounds(mss: int, data: Bytes, i: nat)
    requires mss > 0 && data != [] && i < |Fragments(mss, data)|
    ensures 0 <= i * mss <= Min((i + 1) * mss, |data|)
    ensures Chunk(mss, data, i) == data[i * mss..Min((i + 1) * mss, |data|)]
    decreases |data|
  {
    MulStep(i, mss);
    ChunkStarts(mss, data, i);
  }

  lemma {:induction false} ChunkStarts(mss: int, data: Bytes, i: nat)
    requires mss > 0 && i < |Fragments(mss, data)|
    ensures i * mss <= |data|
    decreases |data|
  {
    if i > 0 {
      ChunkStarts(mss, data[mss..], i - 1);
      MulStep(i - 1, mss);
    }
  }

  /** Once a segment is due, a longer scan still finds one due. */
  lemma {:induction false} SoonestStays(buf: seq<Segment>, t: int, k: nat)
    requires k <= |buf| && Soonest(buf[..k], t).None?
    ensures Soonest(buf, t).None?
    decreases |buf| - k
  {
    if k == |buf| {
      assert buf[..k] == buf;
    } else {
      assert buf[..k + 1][..k] == buf[..k];
      SoonestStays(buf, t, k + 1);
    }
  }

  lemma {:induction false} OutgoingSnoc(c: Control, st: Stamp, buf: seq<Segment>, i: nat)
    requires i < |buf|
    ensures Outgoing(c, st, buf[..i + 1])
            == Outgoing(c, st, buf[..i]) + if Why(c, buf[i]) == Quiet then [] else [Transmit(c, st, buf[i])]
    ensures forall why :: CountReason(c, buf[..i + 1], why)
                          == CountReason(c, buf[..i], why) + if Why(c, buf[i]) == why then 1 else 0
  {
    if i == 0 {
      assert buf[..1] == [buf[0]] && buf[..1][1..] == [];
    } else {
      assert buf[..i + 1][1..] == buf[1..][..i] && buf[..i][1..] == buf[1..][..i - 1];
      OutgoingSnoc(c, st, buf[1..], i - 1);
    }
  }
}
