/**
 Messages as a stream of fragments: cutting and reassembly (tuya_p2p/_kcp_python.py:184-239).
 */
module KcpStream {
  import opened Bytes
  import opened KcpModel

  /** The fragments of a list of messages, in order. */
  function Stream(mss: int, msgs: seq<Bytes>): seq<Piece>
    requires mss > 0
  {
    if msgs == [] then [] else Fragments(mss, msgs[0]) + Stream(mss, msgs[1..])
  }

  lemma {:induction false} StreamAppend(mss: int, a: seq<Bytes>, b: seq<Bytes>)
    requires mss > 0
    ensures Stream(mss, a + b) == Stream(mss, a) + Stream(mss, b)
  {
    if a == [] {
      assert a + b == b;
    } else {
      assert (a + b)[1..] == a[1..] + b;
      StreamAppend(mss, a[1..], b);
    }
  }

  lemma StreamSnoc(mss: int, a: seq<Bytes>, m: Bytes)
    requires mss > 0
    ensures Stream(mss, a + [m]) == Stream(mss, a) + Fragments(mss, m)
  {
    StreamAppend(mss, a, [m]);
    assert Stream(mss, [m]) == Fragments(mss, m) + Stream(mss, []);
  }

  /** After a prefix of the messages the stream goes on with the fragments of the next one. */
  lemma StreamAt(mss: int, msgs: seq<Bytes>, k: nat)
    requires mss > 0 && k <= |msgs|
    ensures Stream(mss, msgs) == Stream(mss, msgs[..k]) + Stream(mss, msgs[k..])
    ensures k < |msgs| ==> Stream(mss, msgs[..k + 1]) == Stream(mss, msgs[..k]) + Fragments(mss, msgs[k])
    ensures k < |msgs| ==> Fragments(mss, msgs[k]) <= Stream(mss, msgs[k..])
  {
    assert msgs == msgs[..k] + msgs[k..];
    StreamAppend(mss, msgs[..k], msgs[k..]);
    if k < |msgs| {
      assert msgs[..k + 1] == msgs[..k] + [msgs[k]];
      StreamSnoc(mss, msgs[..k], msgs[k]);
    }
  }

  lemma DivStep(a: int, m: int)
    requires 0 <= a && m > 0
    ensures (a + m) / m == a / m + 1
  {
    var q := a / m;
    assert a == q * m + a % m;
    assert a + m == (q + 1) * m + a % m;
    DivIs(a + m, m, q + 1, a % m);
  }

  lemma {:induction false} FragmentsCount(mss: int, data: Bytes)
    requires mss > 0 && data != []
    ensures |Fragments(mss, data)| == FragmentCount(mss, |data|)
    decreases |data|
  {
    if |data| <= mss {
      DivIs(|data| + mss - 1, mss, 1, |data| - 1);
    } else {
      FragmentsCount(mss, data[mss..]);
      DivStep(|data| - mss + mss - 1, mss);
    }
  }

  /** A message is accepted exactly when it has a byte and fits 127 fragments. */
  lemma SendAccepts(mss: int, data: Bytes)
    requires mss > 0
    ensures SendStatus(mss, data) == 0 <==> 1 <= |data| <= 127 * mss
    ensures SendStatus(mss, data) == -1 <==> data == []
    ensures SendStatus(mss, data) == -2 <==> |data| > 127 * mss
  {
    var count := FragmentCount(mss, |data|);
    var rest := (|data| + mss - 1) % mss;
    assert |data| + mss - 1 == count * mss + rest;
    MulAtLeast(count - 128, mss);
    MulAtLeast(count - 127, mss);
  }

  /** The bytes that the source's index arithmetic puts in fragment i. */
  function Chunk(mss: int, data: Bytes, i: nat): Bytes
    requires mss > 0
  {
    var from, to := Min(i * mss, |data|), Min((i + 1) * mss, |data|);
    MulAtLeast(i, mss);
    MulStep(i, mss);
    data[from..to]
  }

  lemma MulStep(i: nat, mss: int)
    requires mss > 0
    ensures 0 <= i * mss && i * mss + mss == (i + 1) * mss
  {
  }

  /** The recursive cutting makes exactly the pieces that the source's index arithmetic makes. */
  lemma {:induction false} FragmentAt(mss: int, data: Bytes, i: nat)
    requires mss > 0 && i < |Fragments(mss, data)|
    ensures Fragments(mss, data)[i] == Piece(|Fragments(mss, data)| - i - 1, Chunk(mss, data, i))
    decreases |data|
  {
    MulStep(i, mss);
    if i > 0 {
      var tail := data[mss..];
      FragmentAt(mss, tail, i - 1);
      MulStep(i - 1, mss);
      assert Chunk(mss, tail, i - 1) == Chunk(mss, data, i);
    }
  }

  lemma {:induction false} FragmentsSmall(mss: int, data: Bytes)
    requires mss > 0
    ensures forall i :: 0 <= i < |Fragments(mss, data)| ==>
      |Fragments(mss, data)[i].data| <= mss && Fragments(mss, data)[i].frg == |Fragments(mss, data)| - i - 1
    decreases |data|
  {
    if |data| > mss {
      FragmentsSmall(mss, data[mss..]);
    }
  }

  /** The queue starts with the given fragments. */
  predicate Carries(q: seq<Segment>, p: seq<Piece>) {
    |p| <= |q| && forall i :: 0 <= i < |p| ==> q[i].Content() == p[i]
  }

  /** Reassembly undoes cutting: a queue that starts with a message's fragments yields exactly that message. */
  lemma {:induction false} ReadsBack(mss: int, data: Bytes, q: seq<Segment>)
    requires mss > 0 && Carries(q, Fragments(mss, data))
    ensures MessageSpan(q) == |Fragments(mss, data)| && MessageData(q) == data
    decreases |data|
  {
    var p := Fragments(mss, data);
    assert q[0].Content() == p[0];
    if |data| > mss {
      var rest := Fragments(mss, data[mss..]);
      forall i | 0 <= i < |rest|
        ensures q[1..][i].Content() == rest[i]
      {
        assert q[i + 1].Content() == p[i + 1];
      }
      ReadsBack(mss, data[mss..], q[1..]);
      assert data == data[..mss] + data[mss..];
    }
  }

  /** `recv` finds a message exactly when all fragments of the first one are in the queue. */
  lemma PeekIff(mss: int, data: Bytes, q: seq<Segment>)
    requires mss > 0
    requires forall i :: 0 <= i < |q| && i < |Fragments(mss, data)| ==> q[i].Content() == Fragments(mss, data)[i]
    ensures PeekSize(q) >= 0 <==> |q| >= |Fragments(mss, data)|
  {
    var p := Fragments(mss, data);
    FragmentsSmall(mss, data);
    if q != [] {
      assert q[0].Content() == p[0];
      assert p[0].frg == |p| - 1;
    }
  }
}
