/** The STUN messages the client sends (nexxt_lan.py:802-948). */
module StunBuild {
  // The keyed digest and the checksum are functions the messages are built with; what is proved is which bytes they
  // are taken over, and that a reader following sections 15.4 and 15.5 of RFC 5389 finds them there.

  import opened Bytes
  import opened Serial
  import opened Stun

  const REQUEST := 0x0001
  const SUCCESS := 0x0101
  const MESSAGE_INTEGRITY := 0x0008
  const FINGERPRINT := 0x8028

  type Digest = d: Bytes | |d| == 20 witness seq(20, _ => 0)

  type Mac = (Bytes, Bytes) -> Digest

  type Checksum = Bytes -> int

  // ---------------------------------------------------------------- exclusive or

  /** Bitwise exclusive or of two numbers of the given width. */
  function Xor(bits: nat, a: int, b: int): int {
    if bits == 0 then 0 else (a % 2 + b % 2) % 2 + 2 * Xor(bits - 1, a / 2, b / 2)
  }

  lemma {:induction false} XorBound(bits: nat, a: int, b: int)
    ensures 0 <= Xor(bits, a, b) < Pow2(bits)
  {
    if bits > 0 {
      XorBound(bits - 1, a / 2, b / 2);
    }
  }

  lemma {:induction false} XorTwice(bits: nat, a: int, b: int)
    requires 0 <= a < Pow2(bits)
    ensures Xor(bits, Xor(bits, a, b), b) == a
  {
    if bits > 0 {
      var rest := Xor(bits - 1, a / 2, b / 2);
      var bit := (a % 2 + b % 2) % 2;
      SplitBit(bit, rest);
      BitTwice(a % 2, b % 2);
      HalfBelow(bits, a);
      XorTwice(bits - 1, a / 2, b / 2);
      assert Xor(bits, a, b) == bit + 2 * rest;
      assert Xor(bits, bit + 2 * rest, b) == (bit + b % 2) % 2 + 2 * Xor(bits - 1, rest, b / 2);
    }
  }

  predicate Bit(v: int, k: nat) { v / Pow2(k) % 2 == 1 }

  /** Exclusive or, bit by bit: a bit is set when just one of the two is. */
  lemma {:induction false} XorBit(bits: nat, a: int, b: int, k: nat)
    requires k < bits && 0 <= a && 0 <= b
    ensures Bit(Xor(bits, a, b), k) <==> Bit(a, k) != Bit(b, k)
    decreases k
  {
    var bit, rest := (a % 2 + b % 2) % 2, Xor(bits - 1, a / 2, b / 2);
    XorBound(bits - 1, a / 2, b / 2);
    SplitBit(bit, rest);
    if k == 0 {
      assert Pow2(0) == 1;
    } else {
      XorBit(bits - 1, a / 2, b / 2, k - 1);
      ShiftBit(a, k);
      ShiftBit(b, k);
      ShiftBit(bit + 2 * rest, k);
    }
  }

  lemma ShiftBit(v: int, k: nat)
    requires k > 0 && v >= 0
    ensures Bit(v, k) == Bit(v / 2, k - 1)
  {
    HalfThen(v, Pow2(k - 1));
  }

  lemma HalfThen(v: int, p: int)
    requires v >= 0 && p > 0
    ensures v / (2 * p) == v / 2 / p
  {
    var h := v / 2;
    var q := h / p;
    assert h == q * p + h % p;
    assert v == 2 * h + v % 2;
    assert v == q * (2 * p) + (2 * (h % p) + v % 2);
    DivIs(v, 2 * p, q, 2 * (h % p) + v % 2);
  }

  lemma SplitBit(bit: int, rest: int)
    requires 0 <= bit < 2
    ensures (bit + 2 * rest) % 2 == bit && (bit + 2 * rest) / 2 == rest
  {
  }

  lemma BitTwice(x: int, y: int)
    requires 0 <= x < 2 && 0 <= y < 2
    ensures ((x + y) % 2 + y) % 2 == x
  {
  }

  lemma HalfBelow(bits: nat, a: int)
    requires bits > 0 && 0 <= a < Pow2(bits)
    ensures 0 <= a / 2 < Pow2(bits - 1)
  {
  }

  lemma Pow2Values()
    ensures Pow2(8) == 0x100 && Pow2(16) == 0x1_0000 && Pow2(32) == M32
  {
    assert Pow2(4) == 16;
    Pow2Adds(4, 4);
    Pow2Adds(8, 8);
    Pow2Adds(16, 16);
  }

  lemma {:induction false} Pow2Adds(a: nat, b: nat)
    ensures Pow2(a + b) == Pow2(a) * Pow2(b)
  {
    if a > 0 {
      Pow2Adds(a - 1, b);
    }
  }

  function XorByte(a: byte, b: byte): (r: byte) {
    XorBound(8, a, b);
    Pow2Values();
    Xor(8, a, b)
  }

  function XorBytes(a: Bytes, b: Bytes): (r: Bytes)
    requires |a| == |b|
    ensures |r| == |a|
  {
    seq(|a|, i requires 0 <= i < |a| => XorByte(a[i], b[i]))
  }

  lemma XorBytesTwice(a: Bytes, b: Bytes)
    requires |a| == |b|
    ensures XorBytes(XorBytes(a, b), b) == a
  {
    Pow2Values();
    forall i | 0 <= i < |a|
      ensures XorByte(XorByte(a[i], b[i]), b[i]) == a[i]
    {
      XorTwice(8, a[i], b[i]);
    }
  }

  // ---------------------------------------------------------------- sealing a message

  function Mark(crc: Checksum, data: Bytes): (m: int)
    ensures 0 <= m < M32
  {
    XorBound(32, crc(data) % M32, 0x5354554E);
    Pow2Values();
    Xor(32, crc(data) % M32, 0x5354554E)
  }

  /** A number is a checksum of 32 bits with the bits of "STUN" turned over. */
  predicate Marked(mark: int, sum: int) {
    0 <= mark < M32 && forall k :: 0 <= k < 32 ==> (Bit(mark, k) <==> Bit(sum % M32, k) != Bit(0x5354554E, k))
  }

  lemma MarkIs(crc: Checksum, data: Bytes)
    ensures Marked(Mark(crc, data), crc(data))
  {
    forall k | 0 <= k < 32
      ensures Bit(Mark(crc, data), k) <==> Bit(crc(data) % M32, k) != Bit(0x5354554E, k)
    {
      XorBit(32, crc(data) % M32, 0x5354554E, k);
    }
  }

  predicate Sealable(kind: int, txid: Bytes, attrs: seq<Attribute>) {
    0 <= kind < 0x1_0000 && |txid| == 12 && AllFit(attrs) && |EncodeAttributes(attrs)| + 32 < 0x1_0000
  }

  /** The digest over the message up to MESSAGE-INTEGRITY, under a header whose length ends with it. */
  function IntegrityOf(kind: int, txid: Bytes, attrs: seq<Attribute>, key: Bytes, mac: Mac): Attribute
    requires Sealable(kind, txid, attrs)
  {
    var before := EncodeAttributes(attrs);
    Attribute(MESSAGE_INTEGRITY, mac(key, Header(kind, |before| + 24, txid) + before))
  }

  /** The message before its fingerprint; its header already counts it. */
  function Unmarked(kind: int, txid: Bytes, attrs: seq<Attribute>, key: Bytes, mac: Mac): Bytes
    requires Sealable(kind, txid, attrs)
  {
    var body := EncodeAttributes(attrs) + EncodeAttribute(IntegrityOf(kind, txid, attrs, key, mac));
    Header(kind, |body| + 8, txid) + body
  }

  function Seal(kind: int, txid: Bytes, attrs: seq<Attribute>, key: Bytes, mac: Mac, crc: Checksum): Bytes
    requires Sealable(kind, txid, attrs)
  {
    var unmarked := Unmarked(kind, txid, attrs, key, mac);
    unmarked + (Be(2, FINGERPRINT) + Be(2, 4) + Be(4, Mark(crc, unmarked)))
  }

  /** All the attributes of a sealed message. */
  function SealedAttributes(kind: int, txid: Bytes, attrs: seq<Attribute>, key: Bytes, mac: Mac, crc: Checksum)
    : seq<Attribute>
    requires Sealable(kind, txid, attrs)
  {
    attrs + [IntegrityOf(kind, txid, attrs, key, mac),
             Attribute(FINGERPRINT, Be(4, Mark(crc, Unmarked(kind, txid, attrs, key, mac))))]
  }

  lemma {:induction false} EncodeAppend(a: seq<Attribute>, b: seq<Attribute>)
    requires AllFit(a) && AllFit(b)
    ensures EncodeAttributes(a + b) == EncodeAttributes(a) + EncodeAttributes(b)
  {
    if a == [] {
      assert a + b == b;
    } else {
      assert (a + b)[1..] == a[1..] + b;
      EncodeAppend(a[1..], b);
    }
  }

  lemma EncodeTwo(a: Attribute, b: Attribute)
    requires Fits(a) && Fits(b)
    ensures EncodeAttributes([a, b]) == EncodeAttribute(a) + EncodeAttribute(b)
  {
    assert [a, b][1..] == [b] && [b][1..] == [];
    assert EncodeAttributes([b]) == EncodeAttribute(b) + [];
  }

  lemma AlignedNeedsNoPad(a: Attribute)
    requires Fits(a) && |a.value| % 4 == 0
    ensures EncodeAttribute(a) == Be(2, a.kind) + Be(2, |a.value|) + a.value
    ensures |EncodeAttribute(a)| == 4 + |a.value|
  {
    assert a.value + Zeros(0) == a.value;
  }

  /** A sealed message is its header and the encodings of all its attributes. */
  lemma SealedIsEncoded(kind: int, txid: Bytes, attrs: seq<Attribute>, key: Bytes, mac: Mac, crc: Checksum)
    requires Sealable(kind, txid, attrs)
    ensures var all := SealedAttributes(kind, txid, attrs, key, mac, crc);
            && AllFit(all) && |EncodeAttributes(all)| == |EncodeAttributes(attrs)| + 32
            && Seal(kind, txid, attrs, key, mac, crc)
               == Header(kind, |EncodeAttributes(all)|, txid) + EncodeAttributes(all)
  {
    var unmarked := Unmarked(kind, txid, attrs, key, mac);
    var integrity := IntegrityOf(kind, txid, attrs, key, mac);
    var mark := Attribute(FINGERPRINT, Be(4, Mark(crc, unmarked)));
    AlignedNeedsNoPad(integrity);
    AlignedNeedsNoPad(mark);
    EncodeAppend(attrs, [integrity, mark]);
    EncodeTwo(integrity, mark);
    Joined(Header(kind, |EncodeAttributes(attrs)| + 32, txid),
           EncodeAttributes(attrs), EncodeAttribute(integrity), EncodeAttribute(mark));
  }

  lemma Joined(a: Bytes, b: Bytes, c: Bytes, d: Bytes)
    ensures a + (b + c) + d == a + (b + (c + d))
  {
  }

  /** It parses back to its own kind, transaction and attributes. */
  lemma SealedParses(kind: int, txid: Bytes, attrs: seq<Attribute>, key: Bytes, mac: Mac, crc: Checksum)
    requires Sealable(kind, txid, attrs)
    ensures ParseStun(Seal(kind, txid, attrs, key, mac, crc))
            == Ok(Message(kind, txid, SealedAttributes(kind, txid, attrs, key, mac, crc)))
  {
    SealedIsEncoded(kind, txid, attrs, key, mac, crc);
    StunRoundTrip(kind, txid, SealedAttributes(kind, txid, attrs, key, mac, crc));
  }

  // ---------------------------------------------------------------- what a reader checks

  /**
   Section 15.4: the first MESSAGE-INTEGRITY begins at p, and holds the digest of everything before it with the
   header's length set to end with it.
   */
  predicate IntegrityAt(data: Bytes, p: nat, key: Bytes, mac: Mac) {
    && 20 <= p && p + 24 <= |data|
    && (match ParseAttributes(data[20..p])
        case Ok(attrs) => forall a <- attrs :: a.kind != MESSAGE_INTEGRITY
        case Failed(_) => false)
    && data[p..p + 4] == [0, 8, 0, 20]
    && data[p + 4..p + 24] == mac(key, data[..2] + [(p + 4) / 0x100 % 0x100, (p + 4) % 0x100] + data[4..p])
  }

  /**
   Section 15.5: the last attribute is the fingerprint, taken over everything before it, and the header's length
   covers it.
   */
  predicate FingerprintHolds(data: Bytes, crc: Checksum) {
    var n := |data|;
    && n >= 28 && FromBe(data[2..4]) == n - 20
    && data[n - 8..n - 4] == [0x80, 0x28, 0, 4]
    && Marked(FromBe(data[n - 4..]), crc(data[..n - 8]))
  }

  /** The first four bytes of the two attributes. */
  lemma Heads()
    ensures Be(2, FINGERPRINT) + Be(2, 4) == [0x80, 0x28, 0, 4]
    ensures Be(2, MESSAGE_INTEGRITY) + Be(2, 20) == [0, 8, 0, 20]
  {
    Be2Bytes(FINGERPRINT);
    Be2Bytes(4);
    Be2Bytes(MESSAGE_INTEGRITY);
    Be2Bytes(20);
  }

  lemma LengthBytes(v: int)
    requires 0 <= v < 0x1_0000
    ensures Be(2, v) == [v / 0x100 % 0x100, v % 0x100]
  {
    Be2Bytes(v);
  }

  lemma SealedHasFingerprint(kind: int, txid: Bytes, attrs: seq<Attribute>, key: Bytes, mac: Mac, crc: Checksum)
    requires Sealable(kind, txid, attrs)
    ensures FingerprintHolds(Seal(kind, txid, attrs, key, mac, crc), crc)
  {
    var unmarked := Unmarked(kind, txid, attrs, key, mac);
    var mark := Mark(crc, unmarked);
    SealedIsEncoded(kind, txid, attrs, key, mac, crc);
    var all := SealedAttributes(kind, txid, attrs, key, mac, crc);
    HeaderFields(kind, |EncodeAttributes(all)|, txid, EncodeAttributes(all));
    Pow256Values();
    BeRoundTrip(4, mark);
    MarkIs(crc, unmarked);
    Heads();
    TailSlices(unmarked, Be(2, FINGERPRINT) + Be(2, 4), Be(4, mark));
  }

  lemma TailSlices(a: Bytes, b: Bytes, c: Bytes)
    requires |b| == 4 && |c| == 4
    ensures var data := a + (b + c);
            var n := |data|;
            n >= 8 && data[n - 8..n - 4] == b && data[n - 4..] == c && data[..n - 8] == a
  {
  }

  lemma SealedHasIntegrity(kind: int, txid: Bytes, attrs: seq<Attribute>, key: Bytes, mac: Mac, crc: Checksum)
    requires Sealable(kind, txid, attrs) && forall a <- attrs :: a.kind != MESSAGE_INTEGRITY
    ensures IntegrityAt(Seal(kind, txid, attrs, key, mac, crc), 20 + |EncodeAttributes(attrs)|, key, mac)
  {
    var before := EncodeAttributes(attrs);
    var integrity := IntegrityOf(kind, txid, attrs, key, mac);
    var unmarked := Unmarked(kind, txid, attrs, key, mac);
    var tail := Be(2, FINGERPRINT) + Be(2, 4) + Be(4, Mark(crc, unmarked));
    AlignedNeedsNoPad(integrity);
    MiddleSlices(Be(2, kind), Be(2, |before| + 32), COOKIE, txid, before,
                 Be(2, MESSAGE_INTEGRITY) + Be(2, 20), integrity.value, tail);
    var pads := EncodedIsPadded(attrs);
    PaddedAllRoundTrip(attrs, pads);
    SameHeader(Be(2, kind), Be(2, |before| + 24), COOKIE, txid, before);
    Heads();
    LengthBytes(|before| + 24);
  }

  lemma SealedIsSound(kind: int, txid: Bytes, attrs: seq<Attribute>, key: Bytes, mac: Mac, crc: Checksum)
    requires Sealable(kind, txid, attrs) && forall a <- attrs :: a.kind != MESSAGE_INTEGRITY
    ensures var data := Seal(kind, txid, attrs, key, mac, crc);
            && ParseStun(data) == Ok(Message(kind, txid, SealedAttributes(kind, txid, attrs, key, mac, crc)))
            && IntegrityAt(data, 20 + |EncodeAttributes(attrs)|, key, mac)
            && FingerprintHolds(data, crc)
  {
    SealedParses(kind, txid, attrs, key, mac, crc);
    SealedHasIntegrity(kind, txid, attrs, key, mac, crc);
    SealedHasFingerprint(kind, txid, attrs, key, mac, crc);
  }

  lemma MiddleSlices(kind: Bytes, length: Bytes, cookie: Bytes, txid: Bytes, before: Bytes, head: Bytes, value: Bytes,
                     tail: Bytes)
    requires |kind| == 2 && |length| == 2 && |cookie| == 4 && |txid| == 12 && |head| == 4 && |value| == 20
    ensures var data := kind + length + cookie + txid + (before + (head + value)) + tail;
            var p := 20 + |before|;
            && |data| == p + 24 + |tail|
            && data[..2] == kind && data[4..p] == cookie + txid + before && data[20..p] == before
            && data[p..p + 4] == head && data[p + 4..p + 24] == value
  {
  }

  lemma SameHeader(kind: Bytes, length: Bytes, cookie: Bytes, txid: Bytes, before: Bytes)
    ensures kind + length + (cookie + txid + before) == kind + length + cookie + txid + before
  {
  }

  // ---------------------------------------------------------------- the two messages

  const SOFTWARE: Bytes := [51, 46, 53, 46, 53, 0, 0, 0]

  function RequestAttributes(remote: Bytes, local: Bytes, tie: Bytes): seq<Attribute> {
    [Attribute(0x0024, Be(4, 1845501695)), Attribute(0x8029, tie), Attribute(0x8022, SOFTWARE),
     Attribute(0x0006, remote + [58] + local)]
  }

  /**
   `make_stun_binding_request`; the transaction and the tie-breaker are its random bytes. There is no message when a
   length does not fit its 16-bit field.
   */
  function BindingRequest(remote: Bytes, local: Bytes, password: Bytes, txid: Bytes, tie: Bytes,
                          mac: Mac, crc: Checksum): Option<Bytes>
    requires |txid| == 12 && |tie| == 8
  {
    var attrs := RequestAttributes(remote, local, tie);
    if Sealable(REQUEST, txid, attrs) then Some(Seal(REQUEST, txid, attrs, password, mac, crc)) else None
  }

  lemma RequestSize(remote: Bytes, local: Bytes, tie: Bytes)
    requires |tie| == 8 && |remote| + 1 + |local| < 0x1_0000
    ensures var attrs, user := RequestAttributes(remote, local, tie), |remote| + 1 + |local|;
            AllFit(attrs) && |EncodeAttributes(attrs)| == 36 + user + PadLength(user)
  {
    var attrs := RequestAttributes(remote, local, tie);
    EncodeAppend(attrs[..2], attrs[2..]);
    assert attrs[..2] + attrs[2..] == attrs;
    EncodeTwo(attrs[0], attrs[1]);
    EncodeTwo(attrs[2], attrs[3]);
    assert attrs[..2] == [attrs[0], attrs[1]] && attrs[2..] == [attrs[2], attrs[3]];
  }

  /** Exactly the user names of at most 65464 bytes fit. */
  lemma RequestFits(remote: Bytes, local: Bytes, txid: Bytes, tie: Bytes)
    requires |txid| == 12 && |tie| == 8
    ensures Sealable(REQUEST, txid, RequestAttributes(remote, local, tie)) <==> |remote| + 1 + |local| <= 65464
  {
    var user := |remote| + 1 + |local|;
    if user < 0x1_0000 {
      RequestSize(remote, local, tie);
      PadCeiling(user);
    } else {
      assert !Fits(RequestAttributes(remote, local, tie)[3]);
    }
  }

  lemma PadCeiling(length: nat)
    ensures length + PadLength(length) <= 65464 <==> length <= 65464
    ensures length + PadLength(length) < 65468 <==> length <= 65464
  {
  }

  /**
   Every binding request that can be built parses back to the priority 1845501695, the tie-breaker, the software "3.5.5"
   and the user name, remote part first, in that order, and then MESSAGE-INTEGRITY and FINGERPRINT, which verify.
   */
  lemma BindingRequestIsSound(remote: Bytes, local: Bytes, password: Bytes, txid: Bytes, tie: Bytes,
                              mac: Mac, crc: Checksum)
    requires |txid| == 12 && |tie| == 8
    ensures var r := BindingRequest(remote, local, password, txid, tie, mac, crc);
            && (r.Some? <==> |remote| + 1 + |local| <= 65464)
            && (r.Some? ==>
                  var m := ParseStun(r.value);
                  && m.Ok? && m.value.kind == 1 && m.value.txid == txid && |m.value.attributes| == 6
                  && m.value.attributes[..4]
                     == [Attribute(0x0024, [0x6E, 0x00, 0x1E, 0xFF]), Attribute(0x8029, tie),
                         Attribute(0x8022, [51, 46, 53, 46, 53, 0, 0, 0]), Attribute(0x0006, remote + [58] + local)]
                  && m.value.attributes[4].kind == 0x0008 && m.value.attributes[5].kind == 0x8028
                  && IntegrityAt(r.value, |r.value| - 32, password, mac)
                  && FingerprintHolds(r.value, crc))
  {
    var attrs := RequestAttributes(remote, local, tie);
    RequestFits(remote, local, txid, tie);
    if Sealable(REQUEST, txid, attrs) {
      RequestHasNoIntegrity(remote, local, tie);
      SealedIsSound(REQUEST, txid, attrs, password, mac, crc);
      SealedIsEncoded(REQUEST, txid, attrs, password, mac, crc);
      PriorityBytes();
      assert SealedAttributes(REQUEST, txid, attrs, password, mac, crc)[..4] == attrs;
    }
  }

  lemma PriorityBytes()
    ensures Be(4, 1845501695) == [0x6E, 0x00, 0x1E, 0xFF]
  {
    Be4Bytes(1845501695);
  }

  lemma RequestHasNoIntegrity(remote: Bytes, local: Bytes, tie: Bytes)
    ensures forall a <- RequestAttributes(remote, local, tie) :: a.kind != MESSAGE_INTEGRITY
  {
  }

  /** XOR-MAPPED-ADDRESS for an IPv4 address (section 15.2). */
  function XorMapped(ip: Bytes, port: int): (a: Attribute)
    requires |ip| == 4
    ensures Fits(a) && |a.value| == 8
  {
    XorBound(16, port, 0x2112);
    Attribute(0x0020, [0, 1] + Be(2, Xor(16, port, 0x2112)) + XorBytes(ip, COOKIE))
  }

  /** What the peer reads out of it. */
  function MappedAddress(a: Attribute): (Bytes, int)
    requires |a.value| == 8
  {
    (XorBytes(a.value[4..8], COOKIE), Xor(16, FromBe(a.value[2..4]), 0x2112))
  }

  lemma MappedRoundTrip(ip: Bytes, port: int)
    requires |ip| == 4 && 0 <= port < 0x1_0000
    ensures MappedAddress(XorMapped(ip, port)) == (ip, port)
  {
    var v := XorMapped(ip, port).value;
    Pow2Values();
    Pow256Values();
    XorBound(16, port, 0x2112);
    BeRoundTrip(2, Xor(16, port, 0x2112));
    XorTwice(16, port, 0x2112);
    XorBytesTwice(ip, COOKIE);
    assert v[2..4] == Be(2, Xor(16, port, 0x2112)) && v[4..8] == XorBytes(ip, COOKIE);
  }

  function SuccessAttributes(ip: Bytes, port: int): seq<Attribute>
    requires |ip| == 4
  {
    [XorMapped(ip, port), Attribute(0x8022, SOFTWARE)]
  }

  lemma SuccessSize(ip: Bytes, port: int)
    requires |ip| == 4
    ensures AllFit(SuccessAttributes(ip, port)) && |EncodeAttributes(SuccessAttributes(ip, port))| == 24
  {
    var attrs := SuccessAttributes(ip, port);
    EncodeTwo(attrs[0], attrs[1]);
    AlignedNeedsNoPad(attrs[0]);
    AlignedNeedsNoPad(attrs[1]);
  }

  /** `stun_success`: the answer to a binding request, or nothing for any other datagram. */
  function SuccessResponse(request: Bytes, ip: Bytes, port: int, password: Bytes, mac: Mac, crc: Checksum)
    : Option<Bytes>
    requires |ip| == 4 && 0 <= port < 0x1_0000
  {
    if |request| < 20 || FromBe(request[..2]) != REQUEST || request[4..8] != COOKIE then None
    else
      SuccessSize(ip, port);
      Some(Seal(SUCCESS, request[8..20], SuccessAttributes(ip, port), password, mac, crc))
  }

  /** The value of XOR-MAPPED-ADDRESS for an IPv4 address: port and address exclusive or the cookie, bit by bit. */
  predicate Maps(v: Bytes, ip: Bytes, port: int)
    requires |ip| == 4
  {
    && |v| == 8 && v[..2] == [0, 1]
    && (forall k :: 0 <= k < 16 ==> (Bit(FromBe(v[2..4]), k) <==> Bit(port, k) != Bit(0x2112, k)))
    && (forall i, k {:trigger Bit(v[4 + i], k)} :: 0 <= i < 4 && 0 <= k < 8 ==>
          (Bit(v[4 + i], k) <==> Bit(ip[i], k) != Bit([0x21, 0x12, 0xA4, 0x42][i], k)))
  }

  lemma XorMapsTo(ip: Bytes, port: int)
    requires |ip| == 4 && 0 <= port < 0x1_0000
    ensures Maps(XorMapped(ip, port).value, ip, port)
  {
    var v := XorMapped(ip, port).value;
    XorBound(16, port, 0x2112);
    Pow2Values();
    Pow256Values();
    BeRoundTrip(2, Xor(16, port, 0x2112));
    assert v[2..4] == Be(2, Xor(16, port, 0x2112)) && v[4..8] == XorBytes(ip, COOKIE);
    forall k | 0 <= k < 16
      ensures Bit(FromBe(v[2..4]), k) <==> Bit(port, k) != Bit(0x2112, k)
    {
      XorBit(16, port, 0x2112, k);
    }
    forall i, k | 0 <= i < 4 && 0 <= k < 8
      ensures Bit(v[4 + i], k) <==> Bit(ip[i], k) != Bit([0x21, 0x12, 0xA4, 0x42][i], k)
    {
      assert v[4 + i] == v[4..8][i] == Xor(8, ip[i], COOKIE[i]);
      XorBit(8, ip[i], COOKIE[i], k);
    }
  }

  /**
   Every answer is 76 bytes and carries the request's transaction, the peer's own address and the software "3.5.5", and
   verifies; the peer gets its address back out of it.
   */
  lemma SuccessResponseIsSound(request: Bytes, ip: Bytes, port: int, password: Bytes, mac: Mac, crc: Checksum)
    requires |ip| == 4 && 0 <= port < 0x1_0000
    ensures var r := SuccessResponse(request, ip, port, password, mac, crc);
            && (r.Some? <==> |request| >= 20 && request[..2] == [0, 1] && request[4..8] == [0x21, 0x12, 0xA4, 0x42])
            && (r.Some? ==>
                  var m := ParseStun(r.value);
                  && |r.value| == 76 && m.Ok? && m.value.kind == 0x0101 && m.value.txid == request[8..20]
                  && |m.value.attributes| == 4 && m.value.attributes[0].kind == 0x0020
                  && Maps(m.value.attributes[0].value, ip, port) && MappedAddress(m.value.attributes[0]) == (ip, port)
                  && m.value.attributes[1] == Attribute(0x8022, [51, 46, 53, 46, 53, 0, 0, 0])
                  && m.value.attributes[2].kind == 0x0008 && m.value.attributes[3].kind == 0x8028
                  && IntegrityAt(r.value, 44, password, mac)
                  && FingerprintHolds(r.value, crc))
  {
    if |request| >= 20 {
      RequestKind(request);
    }
    if SuccessResponse(request, ip, port, password, mac, crc).Some? {
      var attrs, txid := SuccessAttributes(ip, port), request[8..20];
      SuccessSize(ip, port);
      SealedIsEncoded(SUCCESS, txid, attrs, password, mac, crc);
      SealedIsSound(SUCCESS, txid, attrs, password, mac, crc);
      MappedRoundTrip(ip, port);
      XorMapsTo(ip, port);
      assert SealedAttributes(SUCCESS, txid, attrs, password, mac, crc)[..2] == attrs;
    }
  }

  lemma RequestKind(request: Bytes)
    requires |request| >= 20
    ensures FromBe(request[..2]) == REQUEST <==> request[..2] == [0, 1]
  {
    FieldsBack(request);
    assert Le(2, 1) == [1] + Le(1, 0);
    assert Be(2, 1) == [0, 1] by {
      ReverseAppend([1], [0]);
      assert Le(1, 0) == [0] + Le(0, 0);
      assert Le(2, 1) == [1] + [0];
      assert Reverse([0]) == [0] && Reverse([1]) == [1];
    }
    Pow256Values();
    BeRoundTrip(2, 1);
  }
}
