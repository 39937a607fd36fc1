/** The variable-length envelope around each media message (nexxt/media.py:80-101). */
module MediaRecord {
  import opened Bytes

  datatype Record = Record(extension: Bytes, payload: Bytes)

  datatype Rejection = TooShort | ExtensionExceeds | LengthMismatch

  datatype Result = Parsed(record: Record) | Rejected(why: Rejection)

  function ParseRecord(message: Bytes): Result {
    if |message| < 28 then Rejected(TooShort)
    else
      var extLen := FromLe(message[16..24]);
      if extLen > |message| - 28 then Rejected(ExtensionExceeds)
      else
        var lenOff := 24 + extLen;
        var payloadLen := FromLe(message[lenOff..lenOff + 4]);
        var payloadOff := lenOff + 4;
        if payloadOff + payloadLen != |message| then Rejected(LengthMismatch)
        else Parsed(Record(message[24..lenOff], message[payloadOff..payloadOff + payloadLen]))
  }

  /** A record behind its sixteen bytes of prefix. */
  function Envelope(prefix: Bytes, r: Record): Bytes {
    prefix + Le(8, |r.extension|) + r.extension + Le(4, |r.payload|) + r.payload
  }

  lemma EnvelopeSlices(prefix: Bytes, a: Bytes, ext: Bytes, b: Bytes, payload: Bytes)
    requires |prefix| == 16 && |a| == 8 && |b| == 4
    ensures var m, off := prefix + a + ext + b + payload, 24 + |ext|;
            && |m| == off + 4 + |payload| && m[16..24] == a && m[24..off] == ext
            && m[off..off + 4] == b && m[off + 4..off + 4 + |payload|] == payload
  {
  }

  lemma Rejoin(m: Bytes, off: nat)
    requires 24 <= off && off + 4 <= |m|
    ensures m == m[..16] + m[16..24] + m[24..off] + m[off..off + 4] + m[off + 4..|m|]
  {
  }

  /** The parser accepts exactly the envelopes and returns what is in them: nothing skipped, nothing left over. */
  lemma ParseIff(message: Bytes, r: Record)
    ensures ParseRecord(message) == Parsed(r)
            <==> |r.payload| < Pow256(4) && |r.extension| < Pow256(8)
                 && exists prefix: Bytes :: |prefix| == 16 && message == Envelope(prefix, r)
  {
    if ParseRecord(message) == Parsed(r) {
      var off := 24 + |r.extension|;
      FromLeBound(message[16..24]);
      FromLeBound(message[off..off + 4]);
      LeFromLe(message[16..24]);
      LeFromLe(message[off..off + 4]);
      Rejoin(message, off);
      assert message == Envelope(message[..16], r);
    }
    forall prefix: Bytes | |r.payload| < Pow256(4) && |r.extension| < Pow256(8) && |prefix| == 16
                           && message == Envelope(prefix, r)
      ensures ParseRecord(message) == Parsed(r)
    {
      EnvelopeParses(prefix, r);
    }
  }

  lemma EnvelopeParses(prefix: Bytes, r: Record)
    requires |prefix| == 16 && |r.payload| < Pow256(4) && |r.extension| < Pow256(8)
    ensures ParseRecord(Envelope(prefix, r)) == Parsed(r)
  {
    LeRoundTrip(8, |r.extension|);
    LeRoundTrip(4, |r.payload|);
    EnvelopeSlices(prefix, Le(8, |r.extension|), r.extension, Le(4, |r.payload|), r.payload);
    ReadRecord(Envelope(prefix, r), |r.extension|, |r.payload|);
  }

  /** And why it refuses any other. */
  lemma ReasonsAre(message: Bytes)
    ensures ParseRecord(message) == Rejected(TooShort) <==> |message| < 28
    ensures ParseRecord(message) == Rejected(ExtensionExceeds)
            <==> |message| >= 28 && FromLe(message[16..24]) > |message| - 28
    ensures ParseRecord(message) == Rejected(LengthMismatch)
            <==> |message| >= 28 && FromLe(message[16..24]) <= |message| - 28
                 && (var at := 24 + FromLe(message[16..24]);
                     at + 4 + FromLe(message[at..at + 4]) != |message|)
  {
  }

  /** What the parser does once both lengths are known. */
  lemma ReadRecord(m: Bytes, ext: nat, size: nat)
    requires |m| == 28 + ext + size
    requires FromLe(m[16..24]) == ext && FromLe(m[24 + ext..28 + ext]) == size
    ensures ParseRecord(m) == Parsed(Record(m[24..24 + ext], m[28 + ext..28 + ext + size]))
  {
  }
}
