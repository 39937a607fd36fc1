/** Reassembly of HEVC NAL units (nexxt/media.py:104-176). */
module Hevc {
  // From the fragmentation units of section 4.4.3 of RFC 7798.

  import opened Bytes

  const START_CODE: Bytes := [0, 0, 0, 1]
  const SHORT_START_CODE: Bytes := [0, 0, 1]
  const FU_TYPE := 49

  function NalTypeOf(b: byte): (t: int)
    ensures 0 <= t < 64
  {
    b / 2 % 64
  }

  /** The first byte of a NAL header with its type replaced; the forbidden bit and the layer's high bit stay. */
  function Retyped(b: byte, t: int): (r: byte)
    requires 0 <= t < 64
    ensures NalTypeOf(r) == t
  {
    b / 128 * 128 + b % 2 + 2 * t
  }

  lemma RetypedBack(b: byte, t: int)
    requires 0 <= t < 64
    ensures Retyped(Retyped(b, t), NalTypeOf(b)) == b
  {
    var high, low := b / 128, b % 2;
    assert b == 128 * high + 2 * NalTypeOf(b) + low;
    var r := 128 * high + 2 * t + low;
    assert Retyped(b, t) == r && r / 128 == high && r % 2 == low;
  }

  predicate IsFu(p: Bytes) { |p| >= 2 && NalTypeOf(p[0]) == FU_TYPE }

  /** A packet that holds one whole NAL. */
  predicate IsComplete(p: Bytes) { |p| >= 2 && NalTypeOf(p[0]) != FU_TYPE }

  predicate WellFormed(p: Bytes) { IsFu(p) && |p| >= 3 }

  predicate IsStart(p: Bytes) { WellFormed(p) && p[2] >= 0x80 }

  predicate IsEnd(p: Bytes) { WellFormed(p) && p[2] / 0x40 % 2 == 1 }

  function FuType(p: Bytes): (t: int)
    ensures 0 <= t < 64
  {
    if WellFormed(p) then p[2] % 64 else 0
  }

  /** The NAL header that a fragment's indicator and FU header stand for. */
  function Rebuilt(p: Bytes): Bytes
    requires WellFormed(p)
  {
    [Retyped(p[0], FuType(p)), p[1]]
  }

  /** A NAL whose last fragment has not come yet. */
  datatype Unfinished = Unfinished(kind: int, bytes: Bytes)

  datatype Assembly = Assembly(fu: Option<Unfinished>, complete: nat, reassembled: nat, anomalies: nat)

  const FRESH := Assembly(None, 0, 0, 0)

  /** One packet: what the assembler becomes, and the NALs it hands on. */
  function FeedOne(a: Assembly, p: Bytes): (Assembly, seq<Bytes>) {
    var odd := a.(anomalies := a.anomalies + 1);
    if |p| < 2 then (odd, [])
    else if !IsFu(p) then
      (Assembly(None, a.complete + 1, a.reassembled, if a.fu.Some? then a.anomalies + 1 else a.anomalies),
       [START_CODE + p])
    else if |p| < 3 then (odd, [])
    else if IsStart(p) then
      var a1 := if a.fu.Some? then odd else a;
      Extend(a1.(fu := Some(Unfinished(FuType(p), Rebuilt(p)))), p)
    else if a.fu.None? then (odd, [])
    else if FuType(p) != a.fu.value.kind then (odd.(fu := None), [])
    else Extend(a, p)
  }

  function Extend(a: Assembly, p: Bytes): (Assembly, seq<Bytes>)
    requires a.fu.Some? && WellFormed(p)
  {
    var whole := a.fu.value.bytes + p[3..];
    if IsEnd(p) then (a.(fu := None, reassembled := a.reassembled + 1), [START_CODE + whole])
    else (a.(fu := Some(a.fu.value.(bytes := whole))), [])
  }

  function FeedAll(a: Assembly, ps: seq<Bytes>): (Assembly, seq<Bytes>)
    decreases |ps|
  {
    if ps == [] then (a, [])
    else
      var (a1, out) := FeedOne(a, ps[0]);
      var (a2, rest) := FeedAll(a1, ps[1..]);
      (a2, out + rest)
  }

  lemma {:induction false} FeedAllAppend(a: Assembly, ps: seq<Bytes>, qs: seq<Bytes>)
    ensures var (a1, out) := FeedAll(a, ps);
            var (a2, more) := FeedAll(a1, qs);
            FeedAll(a, ps + qs) == (a2, out + more)
    decreases |ps|
  {
    if ps == [] {
      assert ps + qs == qs;
      assert [] + FeedAll(a, qs).1 == FeedAll(a, qs).1;
    } else {
      assert (ps + qs)[1..] == ps[1..] + qs;
      var (a1, out) := FeedOne(a, ps[0]);
      FeedAllAppend(a1, ps[1..], qs);
      var (a2, rest) := FeedAll(a1, ps[1..]);
      var (a3, more) := FeedAll(a2, qs);
      assert out + (rest + more) == out + rest + more;
    }
  }

  lemma FeedAllSnoc(a: Assembly, ps: seq<Bytes>, p: Bytes)
    ensures var (a1, out) := FeedAll(a, ps);
            FeedAll(a, ps + [p]) == (FeedOne(a1, p).0, out + FeedOne(a1, p).1)
  {
    FeedAllAppend(a, ps, [p]);
    var a1 := FeedAll(a, ps).0;
    assert [p][1..] == [];
    var (a2, out) := FeedOne(a1, p);
    assert FeedAll(a1, [p]) == (a2, out + []) && out + [] == out;
  }

  /** HevcAssembler as it is written: fields updated packet by packet. */
  class HevcAssembler {
    var fuBuffer: Option<Bytes>
    var fuType: Option<int>
    var completeNals: nat
    var reassembledFu: nat
    var anomalies: nat

    /** The buffer and its type are there together or not at all. */
    ghost predicate Valid()
      reads this
    {
      fuBuffer.Some? <==> fuType.Some?
    }

    ghost function State(): Assembly
      requires Valid()
      reads this
    {
      Assembly(if fuBuffer.Some? then Some(Unfinished(fuType.value, fuBuffer.value)) else None,
               completeNals, reassembledFu, anomalies)
    }

    constructor ()
      ensures Valid() && State() == FRESH
    {
      fuBuffer, fuType := None, None;
      completeNals, reassembledFu, anomalies := 0, 0, 0;
    }

    method Feed(data: Bytes) returns (nals: seq<Bytes>)
      requires Valid()
      modifies this
      ensures Valid() && (State(), nals) == FeedOne(old(State()), data)
    {
      if |data| < 2 {
        anomalies := anomalies + 1;
        return [];
      }
      var nalType := NalTypeOf(data[0]);
      if nalType != FU_TYPE {
        if fuBuffer.Some? {
          anomalies := anomalies + 1;
          fuBuffer, fuType := None, None;
        }
        completeNals := completeNals + 1;
        return [START_CODE + data];
      }
      if |data| < 3 {
        anomalies := anomalies + 1;
        return [];
      }
      var fuHeader := data[2];
      var start, end, kind := fuHeader >= 0x80, fuHeader / 0x40 % 2 == 1, fuHeader % 64;
      if start {
        if fuBuffer.Some? {
          anomalies := anomalies + 1;
        }
        fuBuffer := Some([Retyped(data[0], kind), data[1]] + data[3..]);
        fuType := Some(kind);
        if !end {
          return [];
        }
      } else {
        if fuBuffer.None? {
          anomalies := anomalies + 1;
          return [];
        }
        if Some(kind) != fuType {
          anomalies := anomalies + 1;
          fuBuffer, fuType := None, None;
          return [];
        }
        fuBuffer := Some(fuBuffer.value + data[3..]);
        if !end {
          return [];
        }
      }
      var complete := START_CODE + fuBuffer.value;
      fuBuffer, fuType := None, None;
      reassembledFu := reassembledFu + 1;
      return [complete];
    }
  }

  // ---------------------------------------------------------------- what a trace emits

  /** A fragment that carries on a NAL of the given type without starting or finishing one. */
  predicate Continues(p: Bytes, kind: int) { WellFormed(p) && !IsStart(p) && !IsEnd(p) && FuType(p) == kind }

  /** A packet too short to mean anything; it is counted and dropped. */
  predicate Ignored(p: Bytes) { |p| < 2 || (IsFu(p) && |p| < 3) }

  /** The packets from a START on, while its NAL is still unfinished. */
  predicate Open(tail: seq<Bytes>) {
    tail != [] && IsStart(tail[0]) && !IsEnd(tail[0])
    && forall k :: 0 < k < |tail| ==> Ignored(tail[k]) || Continues(tail[k], FuType(tail[0]))
  }

  /** The packets from a START to the END of its NAL. */
  predicate Finished(tail: seq<Bytes>) {
    var n := |tail| - 1;
    if n == 0 then IsStart(tail[0]) && IsEnd(tail[0])
    else
      && n > 0 && Open(tail[..n])
      && IsEnd(tail[n]) && !IsStart(tail[n]) && FuType(tail[n]) == FuType(tail[0])
  }

  /** The bodies of the well-formed fragments, in order. */
  function Bodies(ps: seq<Bytes>): Bytes {
    if ps == [] then [] else Bodies(ps[..|ps| - 1]) + Body(ps[|ps| - 1])
  }

  function Body(p: Bytes): Bytes { if WellFormed(p) then p[3..] else [] }

  lemma BodiesSnoc(ps: seq<Bytes>, p: Bytes)
    ensures Bodies(ps + [p]) == Bodies(ps) + Body(p)
  {
    assert (ps + [p])[..|ps|] == ps;
  }

  lemma BodiesOne(p: Bytes)
    ensures Bodies([p]) == Body(p)
  {
    BodiesSnoc([], p);
    assert [] + [p] == [p];
  }

  function Joined(tail: seq<Bytes>): Bytes
    requires tail != [] && WellFormed(tail[0])
  {
    Rebuilt(tail[0]) + Bodies(tail)
  }

  lemma OpenSnoc(tail: seq<Bytes>, p: Bytes)
    requires tail != []
    ensures Open(tail + [p]) <==> Open(tail) && (Ignored(p) || Continues(p, FuType(tail[0])))
  {
    var all := tail + [p];
    assert all[0] == tail[0];
    assert forall k :: 0 < k < |tail| ==> all[k] == tail[k];
    assert all[|tail|] == p;
    if Open(all) {
      assert forall k :: 0 < k < |tail| ==> Ignored(all[k]) || Continues(all[k], FuType(tail[0]));
    }
  }

  /** The packets fed end with an open run that begins at index j. */
  predicate RunAt(ps: seq<Bytes>, j: int) { 0 <= j < |ps| && Open(ps[j..]) }

  function HeldFrom(ps: seq<Bytes>, j: int): Unfinished
    requires RunAt(ps, j)
  {
    Unfinished(FuType(ps[j]), Joined(ps[j..]))
  }

  ghost predicate Holds(fu: Option<Unfinished>, ps: seq<Bytes>) {
    && (fu.Some? <==> exists j :: RunAt(ps, j))
    && forall j :: RunAt(ps, j) ==> fu == Some(HeldFrom(ps, j))
  }

  lemma RunAtSnoc(ps: seq<Bytes>, p: Bytes, j: int)
    requires 0 <= j < |ps|
    ensures RunAt(ps + [p], j) <==> RunAt(ps, j) && (Ignored(p) || Continues(p, FuType(ps[j])))
    ensures RunAt(ps + [p], j) ==>
              HeldFrom(ps + [p], j) == HeldFrom(ps, j).(bytes := HeldFrom(ps, j).bytes + Body(p))
  {
    assert (ps + [p])[j..] == ps[j..] + [p];
    OpenSnoc(ps[j..], p);
    BodiesSnoc(ps[j..], p);
  }

  lemma RunAtLast(ps: seq<Bytes>, p: Bytes)
    ensures RunAt(ps + [p], |ps|) <==> IsStart(p) && !IsEnd(p)
    ensures RunAt(ps + [p], |ps|) ==> HeldFrom(ps + [p], |ps|) == Unfinished(FuType(p), Rebuilt(p) + Body(p))
  {
    assert (ps + [p])[|ps|..] == [p];
    BodiesOne(p);
  }

  lemma HoldsStep(a: Assembly, ps: seq<Bytes>, p: Bytes)
    requires Holds(a.fu, ps)
    ensures Holds(FeedOne(a, p).0.fu, ps + [p])
  {
    var fu, all := FeedOne(a, p).0.fu, ps + [p];
    RunAtLast(ps, p);
    forall j | RunAt(all, j)
      ensures fu == Some(HeldFrom(all, j))
    {
      if j < |ps| {
        RunAtSnoc(ps, p, j);
        assert RunAt(ps, j);
        assert HeldFrom(ps, j).bytes + [] == HeldFrom(ps, j).bytes;
      }
    }
    if fu.Some? && !RunAt(all, |ps|) {
      var j :| RunAt(ps, j);
      RunAtSnoc(ps, p, j);
      assert RunAt(all, j);
    }
  }

  /** The assembler holds an unfinished NAL exactly when the packets fed end with an open run, and holds that run. */
  lemma {:induction false} HoldsOpenRun(ps: seq<Bytes>)
    ensures Holds(FeedAll(FRESH, ps).0.fu, ps)
    decreases |ps|
  {
    if ps != [] {
      var before, p := ps[..|ps| - 1], ps[|ps| - 1];
      assert ps == before + [p];
      HoldsOpenRun(before);
      HoldsStep(FeedAll(FRESH, before).0, before, p);
      FeedAllSnoc(FRESH, before, p);
    }
  }

  /** The packets fed end with the run, begun at index j, of a NAL that the last of them finishes. */
  predicate EndsRun(ps: seq<Bytes>, j: int) { 0 <= j < |ps| && Finished(ps[j..]) }

  lemma EndsRunSnoc(ps: seq<Bytes>, p: Bytes, j: int)
    requires 0 <= j < |ps|
    ensures EndsRun(ps + [p], j)
            <==> RunAt(ps, j) && IsEnd(p) && !IsStart(p) && FuType(p) == FuType(ps[j])
    ensures EndsRun(ps + [p], j) ==> Joined((ps + [p])[j..]) == HeldFrom(ps, j).bytes + Body(p)
  {
    assert (ps + [p])[j..] == ps[j..] + [p];
    assert (ps[j..] + [p])[..|ps| - j] == ps[j..];
    BodiesSnoc(ps[j..], p);
  }

  lemma EndsRunLast(ps: seq<Bytes>, p: Bytes)
    ensures EndsRun(ps + [p], |ps|) <==> IsStart(p) && IsEnd(p)
    ensures EndsRun(ps + [p], |ps|) ==> Joined((ps + [p])[|ps|..]) == Rebuilt(p) + Body(p)
  {
    assert (ps + [p])[|ps|..] == [p];
    BodiesOne(p);
  }

  /**
   What one more packet makes the assembler emit: a complete NAL as it is, or, when the packet ends a run that began
   with a START, the rebuilt header and the bodies of that run; nothing otherwise.
   */
  lemma EmitsExactly(ps: seq<Bytes>, p: Bytes)
    ensures var all, out := ps + [p], FeedOne(FeedAll(FRESH, ps).0, p).1;
            && (IsComplete(p) ==> out == [START_CODE + p])
            && (!IsComplete(p) ==> (out != [] <==> exists j :: EndsRun(all, j)))
            && (forall j :: EndsRun(all, j) ==> out == [START_CODE + Joined(all[j..])])
  {
    var all, a := ps + [p], FeedAll(FRESH, ps).0;
    var out := FeedOne(a, p).1;
    HoldsOpenRun(ps);
    EndsRunLast(ps, p);
    forall j | EndsRun(all, j)
      ensures out == [START_CODE + Joined(all[j..])]
    {
      if j < |ps| {
        EndsRunSnoc(ps, p, j);
        assert RunAt(ps, j);
      }
    }
    if !IsComplete(p) && out != [] && !EndsRun(all, |ps|) {
      var j :| RunAt(ps, j);
      EndsRunSnoc(ps, p, j);
      assert EndsRun(all, j);
    }
  }

  /** There is an open run, and, in the second case, one of this type. */
  predicate AnyRun(ps: seq<Bytes>) { exists j :: 0 <= j < |ps| && RunAt(ps, j) }

  predicate RunOf(ps: seq<Bytes>, kind: int) { exists j :: 0 <= j < |ps| && RunAt(ps, j) && FuType(ps[j]) == kind }

  lemma HeldType(ps: seq<Bytes>)
    ensures var fu := FeedAll(FRESH, ps).0.fu;
            && (fu.Some? <==> AnyRun(ps))
            && forall kind :: RunOf(ps, kind) <==> fu.Some? && fu.value.kind == kind
  {
    HoldsOpenRun(ps);
    if AnyRun(ps) {
      var j :| 0 <= j < |ps| && RunAt(ps, j);
      assert FeedAll(FRESH, ps).0.fu == Some(HeldFrom(ps, j));
    }
  }

  /**
   What counts as an anomaly: a packet too short, a NAL or START that interrupts an open run, and a fragment that
   carries on no open run of its type; nothing else.
   */
  lemma AnomaliesExactly(ps: seq<Bytes>, p: Bytes)
    ensures var a := FeedAll(FRESH, ps).0;
            var odd :=
              || Ignored(p)
              || ((IsComplete(p) || IsStart(p)) && AnyRun(ps))
              || (WellFormed(p) && !IsStart(p) && !RunOf(ps, FuType(p)));
            FeedOne(a, p).0.anomalies == a.anomalies + if odd then 1 else 0
  {
    HeldType(ps);
  }

  /** The counters tell complete NALs and finished runs apart. */
  lemma CountsExactly(ps: seq<Bytes>, p: Bytes)
    ensures var a := FeedAll(FRESH, ps).0;
            var a' := FeedOne(a, p).0;
            && a'.complete == a.complete + (if IsComplete(p) then 1 else 0)
            && a'.reassembled == a.reassembled + if exists j :: EndsRun(ps + [p], j) then 1 else 0
  {
    EmitsExactly(ps, p);
  }

  /** Every NAL handed on has been counted, once. */
  lemma {:induction false} CountsWhatItEmits(a: Assembly, ps: seq<Bytes>)
    ensures var (a', out) := FeedAll(a, ps);
            a'.complete + a'.reassembled == a.complete + a.reassembled + |out|
    decreases |ps|
  {
    if ps != [] {
      CountsWhatItEmits(FeedOne(a, ps[0]).0, ps[1..]);
    }
  }
}
