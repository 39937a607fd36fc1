/** STUN messages (nexxt_lan.py:796-799, nexxt/udp_protocol.py:105-210). */
module Stun {
  // The printer and the parser, after sections 6 and 15 of RFC 5389.

  import opened Bytes

  const COOKIE: Bytes := [0x21, 0x12, 0xA4, 0x42]

  datatype Attribute = Attribute(kind: int, value: Bytes)

  datatype Reason =
    ShortHeader | BadCookie | LengthMismatch | Unaligned | TruncatedHeader | TruncatedValue | PaddingExceeds

  datatype Result<T> = Ok(value: T) | Failed(reason: Reason)

  datatype Message = Message(kind: int, txid: Bytes, attributes: seq<Attribute>)

  function PadLength(length: nat): (k: nat)
    ensures k < 4 && (length + k) % 4 == 0
  {
    (4 - length % 4) % 4
  }

  // ---------------------------------------------------------------- printing

  predicate Fits(a: Attribute) { 0 <= a.kind < 0x1_0000 && |a.value| < 0x1_0000 }

  /** An attribute with the given bytes as padding. */
  function Padded(a: Attribute, pad: Bytes): Bytes
    requires Fits(a)
  {
    Be(2, a.kind) + Be(2, |a.value|) + (a.value + pad)
  }

  function Zeros(k: nat): (z: Bytes)
    ensures |z| == k
  {
    seq(k, _ => 0)
  }

  /** `stun_attr`. */
  function EncodeAttribute(a: Attribute): (b: Bytes)
    requires Fits(a)
    ensures |b| == 4 + |a.value| + PadLength(|a.value|) && |b| % 4 == 0
  {
    Padded(a, Zeros(PadLength(|a.value|)))
  }

  predicate AllFit(attrs: seq<Attribute>) { forall a <- attrs :: Fits(a) }

  function EncodeAttributes(attrs: seq<Attribute>): (b: Bytes)
    requires AllFit(attrs)
    ensures |b| % 4 == 0
  {
    if attrs == [] then [] else EncodeAttribute(attrs[0]) + EncodeAttributes(attrs[1..])
  }

  function Header(kind: int, length: int, txid: Bytes): Bytes
    requires 0 <= kind && 0 <= length
  {
    Be(2, kind) + Be(2, length) + COOKIE + txid
  }

  // ---------------------------------------------------------------- parsing

  function ParseAttributes(b: Bytes): Result<seq<Attribute>>
    decreases |b|
  {
    if b == [] then Ok([])
    else if |b| < 4 then Failed(TruncatedHeader)
    else
      var length := FromBe(b[2..4]);
      var next := 4 + length + PadLength(length);
      if 4 + length > |b| then Failed(TruncatedValue)
      else if next > |b| then Failed(PaddingExceeds)
      else
        match ParseAttributes(b[next..])
        case Failed(reason) => Failed(reason)
        case Ok(more) => Ok([Attribute(FromBe(b[..2]), b[4..4 + length])] + more)
  }

  function ParseStun(data: Bytes): Result<Message> {
    if |data| < 20 then Failed(ShortHeader)
    else if data[4..8] != COOKIE then Failed(BadCookie)
    else if 20 + FromBe(data[2..4]) != |data| then Failed(LengthMismatch)
    else if FromBe(data[2..4]) % 4 != 0 then Failed(Unaligned)
    else
      match ParseAttributes(data[20..])
      case Failed(reason) => Failed(reason)
      case Ok(attrs) => Ok(Message(FromBe(data[..2]), data[8..20], attrs))
  }

  /** `parse_stun` as it is written. */
  method Parse(data: Bytes) returns (result: Result<Message>)
    ensures result == ParseStun(data)
  {
    if |data| < 20 {
      return Failed(ShortHeader);
    }
    var msgLen := FromBe(data[2..4]);
    if data[4..8] != COOKIE {
      return Failed(BadCookie);
    }
    var expected := 20 + msgLen;
    if expected != |data| {
      return Failed(LengthMismatch);
    }
    if msgLen % 4 != 0 {
      return Failed(Unaligned);
    }
    var attrs: seq<Attribute> := [];
    var pos := 20;
    ghost var all := ParseAttributes(data[20..]);
    AfterNothing(all);
    while pos < expected
      invariant 20 <= pos <= expected
      invariant all == After(attrs, ParseAttributes(data[pos..]))
      decreases expected - pos
    {
      ghost var before := attrs;
      Slices(data, pos);
      if pos + 4 > expected {
        return Failed(TruncatedHeader);
      }
      var kind, length := FromBe(data[pos..pos + 2]), FromBe(data[pos + 2..pos + 4]);
      pos := pos + 4;
      var end := pos + length;
      if end > expected {
        return Failed(TruncatedValue);
      }
      var attr := Attribute(kind, data[pos..end]);
      attrs := attrs + [attr];
      pos := pos + (length + 3) / 4 * 4;
      PadIsRoundUp(length);
      if pos > expected {
        return Failed(PaddingExceeds);
      }
      AfterStep(before, attr, ParseAttributes(data[pos..]));
    }
    assert data[pos..] == [];
    assert attrs + [] == attrs;
    return Ok(Message(FromBe(data[..2]), data[8..20], attrs));
  }

  /** Attributes already read in front of whatever the rest parses to. */
  function After(attrs: seq<Attribute>, rest: Result<seq<Attribute>>): Result<seq<Attribute>> {
    match rest
    case Failed(reason) => Failed(reason)
    case Ok(more) => Ok(attrs + more)
  }

  lemma AfterNothing(rest: Result<seq<Attribute>>)
    ensures After([], rest) == rest
  {
    if rest.Ok? {
      assert [] + rest.value == rest.value;
    }
  }

  lemma AfterStep(attrs: seq<Attribute>, a: Attribute, rest: Result<seq<Attribute>>)
    ensures After(attrs, After([a], rest)) == After(attrs + [a], rest)
  {
    if rest.Ok? {
      assert attrs + ([a] + rest.value) == attrs + [a] + rest.value;
    }
  }

  lemma PadIsRoundUp(length: nat)
    ensures (length + 3) / 4 * 4 == length + PadLength(length)
  {
  }

  /** Slices of a suffix are slices of the whole. */
  lemma Slices(data: Bytes, pos: nat)
    requires pos <= |data|
    ensures |data[pos..]| == |data| - pos
    ensures forall i, j :: 0 <= i <= j <= |data| - pos ==> data[pos..][i..j] == data[pos + i..pos + j]
    ensures forall i :: 0 <= i <= |data| - pos ==> data[pos..][i..] == data[pos + i..]
    ensures pos + 2 <= |data| ==> data[pos..][..2] == data[pos..pos + 2]
  {
  }

  // ---------------------------------------------------------------- which bytes, and which reason

  lemma BeOne(width: nat, v: int)
    requires 0 <= v
    ensures Be(width + 1, v) == Be(width, v / 0x100) + [v % 0x100]
  {
    assert Le(width + 1, v) == [v % 0x100] + Le(width, v / 0x100);
  }

  /** Two bytes, most significant first. */
  lemma Be2Bytes(v: int)
    requires 0 <= v < 0x1_0000
    ensures Be(2, v) == [v / 0x100, v % 0x100]
  {
    BeOne(1, v);
    BeOne(0, v / 0x100);
  }

  lemma Be4Bytes(v: int)
    requires 0 <= v < 0x1_0000_0000
    ensures Be(4, v) == [v / 0x100_0000, v / 0x1_0000 % 0x100, v / 0x100 % 0x100, v % 0x100]
  {
    BeOne(3, v);
    BeOne(2, v / 0x100);
    Be2Bytes(v / 0x1_0000);
    assert v / 0x100 / 0x100 == v / 0x1_0000 && v / 0x1_0000 / 0x100 == v / 0x100_0000;
  }

  /** Where the fields of a message and of an attribute stand (sections 6 and 15 of RFC 5389). */
  lemma MessageLayout(kind: int, length: int, txid: Bytes, a: Attribute)
    requires 0 <= kind < 0x1_0000 && 0 <= length < 0x1_0000 && |txid| == 12 && Fits(a)
    ensures Header(kind, length, txid)
            == [kind / 0x100, kind % 0x100, length / 0x100, length % 0x100, 0x21, 0x12, 0xA4, 0x42] + txid
    ensures var n := |a.value|;
            && EncodeAttribute(a)[..4] == [a.kind / 0x100, a.kind % 0x100, n / 0x100, n % 0x100]
            && EncodeAttribute(a)[4..4 + n] == a.value && |EncodeAttribute(a)| < 8 + n
            && |EncodeAttribute(a)| % 4 == 0
            && forall i :: 4 + n <= i < |EncodeAttribute(a)| ==> EncodeAttribute(a)[i] == 0
  {
    Be2Bytes(kind);
    Be2Bytes(length);
    Be2Bytes(a.kind);
    Be2Bytes(|a.value|);
  }

  /** The length field of a header. */
  function LengthField(data: Bytes): int
    requires |data| >= 20
  {
    0x100 * (data[2] as int) + data[3] as int
  }

  predicate HasCookie(data: Bytes) { |data| >= 20 && data[4..8] == [0x21, 0x12, 0xA4, 0x42] }

  /** Why a datagram is refused, by its first 20 bytes; anything else that is wrong is a value that does not fit. */
  lemma ReasonsAre(data: Bytes)
    ensures var r := ParseStun(data);
            && (r == Failed(ShortHeader) <==> |data| < 20)
            && (r == Failed(BadCookie) <==> |data| >= 20 && !HasCookie(data))
            && (r == Failed(LengthMismatch) <==> HasCookie(data) && LengthField(data) != |data| - 20)
            && (r == Failed(Unaligned) <==> HasCookie(data) && LengthField(data) == |data| - 20 && |data| % 4 != 0)
            && (HasCookie(data) && LengthField(data) == |data| - 20 && |data| % 4 == 0 ==>
                  r.Ok? || r == Failed(TruncatedValue))
  {
    if |data| >= 20 {
      FromBe2(data[2], data[3]);
      assert data[2..4] == [data[2], data[3]];
      if FromBe(data[2..4]) == |data| - 20 && FromBe(data[2..4]) % 4 == 0 {
        AlignedFailsOnlyInValues(data[20..]);
      }
      NotTheseReasons(data[20..]);
    }
  }

  lemma FromBe2(a: byte, b: byte)
    ensures FromBe([a, b]) == 0x100 * (a as int) + b as int
  {
    var v := 0x100 * (a as int) + b as int;
    Pow256Values();
    Be2Bytes(v);
    BeRoundTrip(2, v);
  }

  /** The attribute loop never fails for a reason of the header's. */
  lemma {:induction false} NotTheseReasons(b: Bytes)
    ensures var r := ParseAttributes(b);
            r.Failed? ==> r.reason == TruncatedHeader || r.reason == TruncatedValue || r.reason == PaddingExceeds
    decreases |b|
  {
    if |b| >= 4 {
      var length := FromBe(b[2..4]);
      var next := 4 + length + PadLength(length);
      if next <= |b| {
        NotTheseReasons(b[next..]);
      }
    }
  }

  // ---------------------------------------------------------------- round trip

  /** An attribute behind any padding is read back, whatever follows. */
  lemma PaddedRoundTrip(a: Attribute, pad: Bytes, rest: Bytes)
    requires Fits(a) && |pad| == PadLength(|a.value|)
    ensures ParseAttributes(Padded(a, pad) + rest) == After([a], ParseAttributes(rest))
  {
    var b := Padded(a, pad) + rest;
    Pow256Values();
    BeRoundTrip(2, a.kind);
    BeRoundTrip(2, |a.value|);
    PaddedSlices(Be(2, a.kind), Be(2, |a.value|), a.value, pad, rest);
    ReadOne(b, a.kind, |a.value|);
  }

  /** One step of the parser, from the two header fields. */
  lemma ReadOne(b: Bytes, kind: int, length: nat)
    requires |b| >= 4 + length + PadLength(length) && FromBe(b[..2]) == kind && FromBe(b[2..4]) == length
    ensures ParseAttributes(b)
            == After([Attribute(kind, b[4..4 + length])], ParseAttributes(b[4 + length + PadLength(length)..]))
  {
  }

  lemma PaddedSlices(kind: Bytes, length: Bytes, value: Bytes, pad: Bytes, rest: Bytes)
    requires |kind| == 2 && |length| == 2
    ensures var b := kind + length + (value + pad) + rest;
            && b[..2] == kind && b[2..4] == length && b[4..4 + |value|] == value
            && b[4 + |value| + |pad|..] == rest
  {
  }

  /** The encodings of some attributes, each with its own padding bytes. */
  function PaddedAll(attrs: seq<Attribute>, pads: seq<Bytes>): Bytes
    requires AllFit(attrs) && |pads| == |attrs|
  {
    if attrs == [] then [] else Padded(attrs[0], pads[0]) + PaddedAll(attrs[1..], pads[1..])
  }

  predicate PadsFit(attrs: seq<Attribute>, pads: seq<Bytes>) {
    |pads| == |attrs| && forall i :: 0 <= i < |attrs| ==> |pads[i]| == PadLength(|attrs[i].value|)
  }

  lemma {:induction false} PaddedAllRoundTrip(attrs: seq<Attribute>, pads: seq<Bytes>)
    requires AllFit(attrs) && PadsFit(attrs, pads)
    ensures ParseAttributes(PaddedAll(attrs, pads)) == Ok(attrs)
  {
    if attrs != [] {
      PaddedRoundTrip(attrs[0], pads[0], PaddedAll(attrs[1..], pads[1..]));
      PaddedAllRoundTrip(attrs[1..], pads[1..]);
      assert attrs == [attrs[0]] + attrs[1..];
    }
  }

  lemma {:induction false} PaddedAllAligned(attrs: seq<Attribute>, pads: seq<Bytes>)
    requires AllFit(attrs) && PadsFit(attrs, pads)
    ensures |PaddedAll(attrs, pads)| % 4 == 0
  {
    if attrs != [] {
      PaddedAllAligned(attrs[1..], pads[1..]);
      PaddedAligned(attrs[0], pads[0]);
      SumAligned(|Padded(attrs[0], pads[0])|, |PaddedAll(attrs[1..], pads[1..])|);
    }
  }

  lemma SumAligned(a: nat, b: nat)
    requires a % 4 == 0 && b % 4 == 0
    ensures (a + b) % 4 == 0
  {
  }

  lemma PaddedAligned(a: Attribute, pad: Bytes)
    requires Fits(a) && |pad| == PadLength(|a.value|)
    ensures |Padded(a, pad)| % 4 == 0
  {
    assert |Padded(a, pad)| == 4 + (|a.value| + |pad|);
  }

  /** And every byte string that parses is such an encoding. */
  lemma {:induction false} ParsedIsPadded(b: Bytes) returns (pads: seq<Bytes>)
    requires ParseAttributes(b).Ok?
    ensures var attrs := ParseAttributes(b).value;
            AllFit(attrs) && PadsFit(attrs, pads) && b == PaddedAll(attrs, pads)
    decreases |b|
  {
    if b == [] {
      pads := [];
    } else {
      var kind, length := FromBe(b[..2]), FromBe(b[2..4]);
      var next := 4 + length + PadLength(length);
      var a := Attribute(kind, b[4..4 + length]);
      var more := ParsedIsPadded(b[next..]);
      FieldsBack(b);
      pads := [b[4 + length..next]] + more;
      var attrs := ParseAttributes(b).value;
      assert attrs[0] == a && attrs[1..] == ParseAttributes(b[next..]).value && pads[1..] == more;
      Reassemble(b, length, next);
    }
  }

  lemma FieldsBack(b: Bytes)
    requires |b| >= 4
    ensures FromBe(b[..2]) < 0x1_0000 && Be(2, FromBe(b[..2])) == b[..2]
    ensures FromBe(b[2..4]) < 0x1_0000 && Be(2, FromBe(b[2..4])) == b[2..4]
  {
    Pow256Values();
    BeFromBe(b[..2]);
    BeFromBe(b[2..4]);
    FromLeBound(Reverse(b[..2]));
    FromLeBound(Reverse(b[2..4]));
  }

  lemma Reassemble(b: Bytes, length: nat, next: nat)
    requires 4 + length <= next <= |b|
    ensures b == b[..2] + b[2..4] + (b[4..4 + length] + b[4 + length..next]) + b[next..]
  {
  }

  // ---------------------------------------------------------------- messages

  /** A message as the parser accepts it. */
  predicate Framed(data: Bytes, m: Message, pads: seq<Bytes>) {
    && 0 <= m.kind < 0x1_0000 && |m.txid| == 12 && AllFit(m.attributes) && PadsFit(m.attributes, pads)
    && |PaddedAll(m.attributes, pads)| < 0x1_0000
    && data == Header(m.kind, |PaddedAll(m.attributes, pads)|, m.txid) + PaddedAll(m.attributes, pads)
  }

  lemma HeaderFields(kind: int, length: int, txid: Bytes, body: Bytes)
    requires 0 <= kind < 0x1_0000 && 0 <= length < 0x1_0000 && |txid| == 12
    ensures var data := Header(kind, length, txid) + body;
            && |data| == 20 + |body|
            && FromBe(data[..2]) == kind && FromBe(data[2..4]) == length
            && data[4..8] == COOKIE && data[8..20] == txid && data[20..] == body
  {
    Pow256Values();
    BeRoundTrip(2, kind);
    BeRoundTrip(2, length);
    HeaderSlices(Be(2, kind), Be(2, length), COOKIE, txid, body);
  }

  lemma HeaderSlices(kind: Bytes, length: Bytes, cookie: Bytes, txid: Bytes, body: Bytes)
    requires |kind| == 2 && |length| == 2 && |cookie| == 4 && |txid| == 12
    ensures var data := kind + length + cookie + txid + body;
            && data[..2] == kind && data[2..4] == length && data[4..8] == cookie
            && data[8..20] == txid && data[20..] == body
  {
  }

  /** The parser accepts every framed message and returns exactly its contents. */
  lemma FramedParses(data: Bytes, m: Message, pads: seq<Bytes>)
    requires Framed(data, m, pads)
    ensures ParseStun(data) == Ok(m)
  {
    var body := PaddedAll(m.attributes, pads);
    HeaderFields(m.kind, |body|, m.txid, body);
    PaddedAllRoundTrip(m.attributes, pads);
    PaddedAllAligned(m.attributes, pads);
  }

  /** And it accepts nothing else. */
  lemma ParsesOnlyFramed(data: Bytes) returns (pads: seq<Bytes>)
    requires ParseStun(data).Ok?
    ensures Framed(data, ParseStun(data).value, pads)
  {
    pads := ParsedIsPadded(data[20..]);
    FieldsBack(data);
    Unsliced(data);
  }

  lemma Unsliced(data: Bytes)
    requires |data| >= 20
    ensures data == data[..2] + data[2..4] + data[4..8] + data[8..20] + data[20..]
  {
  }

  /** The messages the parser accepts, both ways. */
  lemma ParseIff(data: Bytes, m: Message)
    ensures ParseStun(data) == Ok(m) <==> exists pads :: Framed(data, m, pads)
  {
    if ParseStun(data) == Ok(m) {
      var pads := ParsesOnlyFramed(data);
    }
    forall pads | Framed(data, m, pads) ensures ParseStun(data) == Ok(m) {
      FramedParses(data, m, pads);
    }
  }

  /** The printer's messages: zero padding is padding. */
  lemma {:induction false} EncodedIsPadded(attrs: seq<Attribute>) returns (pads: seq<Bytes>)
    requires AllFit(attrs)
    ensures PadsFit(attrs, pads) && PaddedAll(attrs, pads) == EncodeAttributes(attrs)
  {
    if attrs == [] {
      pads := [];
    } else {
      var more := EncodedIsPadded(attrs[1..]);
      pads := [Zeros(PadLength(|attrs[0].value|))] + more;
      assert pads[1..] == more;
    }
  }

  /** Round trip: every attribute list whose encoding fits the 16-bit length field comes back as it was. */
  lemma StunRoundTrip(kind: int, txid: Bytes, attrs: seq<Attribute>)
    requires 0 <= kind < 0x1_0000 && |txid| == 12 && AllFit(attrs) && |EncodeAttributes(attrs)| < 0x1_0000
    ensures ParseStun(Header(kind, |EncodeAttributes(attrs)|, txid) + EncodeAttributes(attrs))
            == Ok(Message(kind, txid, attrs))
  {
    var pads := EncodedIsPadded(attrs);
    FramedParses(Header(kind, |EncodeAttributes(attrs)|, txid) + EncodeAttributes(attrs),
                 Message(kind, txid, attrs), pads);
  }

  /** A body of aligned length never ends inside an attribute header or inside padding: two error branches are dead. */
  lemma {:induction false} AlignedFailsOnlyInValues(b: Bytes)
    requires |b| % 4 == 0
    ensures ParseAttributes(b).Failed? ==> ParseAttributes(b).reason == TruncatedValue
    decreases |b|
  {
    if b != [] {
      var length := FromBe(b[2..4]);
      var next := 4 + length + PadLength(length);
      if next <= |b| {
        AlignedFailsOnlyInValues(b[next..]);
      } else if 4 + length <= |b| {
        NoRoomBetween(length, |b|);
      }
    }
  }

  lemma NoRoomBetween(length: nat, size: nat)
    requires size % 4 == 0 && 4 + length <= size
    ensures 4 + length + PadLength(length) <= size
  {
    var end := 4 + length + PadLength(length);
    assert end % 4 == 0 && end - size < 4;
  }

  lemma DeadErrors(data: Bytes)
    ensures ParseStun(data) != Failed(TruncatedHeader) && ParseStun(data) != Failed(PaddingExceeds)
  {
    if |data| >= 20 && 20 + FromBe(data[2..4]) == |data| && FromBe(data[2..4]) % 4 == 0 {
      AlignedFailsOnlyInValues(data[20..]);
    }
  }

  // ---------------------------------------------------------------- looking attributes up

  predicate HasAttribute(m: Message, kind: int) { exists a <- m.attributes :: a.kind == kind }

  method GetAttribute(m: Message, kind: int) returns (a: Option<Attribute>)
    ensures a.Some? <==> HasAttribute(m, kind)
    ensures a.Some? ==>
              exists i :: 0 <= i < |m.attributes| && a.value == m.attributes[i] && a.value.kind == kind
                          && forall j :: 0 <= j < i ==> m.attributes[j].kind != kind
  {
    for i := 0 to |m.attributes|
      invariant forall j :: 0 <= j < i ==> m.attributes[j].kind != kind
    {
      if m.attributes[i].kind == kind {
        return Some(m.attributes[i]);
      }
    }
    return None;
  }
}
