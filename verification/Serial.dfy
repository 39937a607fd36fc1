/** Numbers that wrap at 2^32 (tuya_p2p/_kcp_python.py:55-63). */
module Serial {
  // The transport's code is read here in two arithmetics: the wrapping one it really uses, and an unbounded one in
  // which a sequence number is simply how many segments came before.

  const M32: int := 0x1_0000_0000
  const HALF: int := 0x8000_0000

  function U32(v: int): (r: int)
    ensures 0 <= r < M32
  {
    v % M32
  }

  function Itimediff(later: int, earlier: int): (d: int)
    ensures -HALF <= d < HALF
  {
    var v := U32(later - earlier);
    if v >= HALF then v - M32 else v
  }

  /** Two integers with the same remainder that are less than a whole cycle apart are equal. */
  lemma SameResidue(a: int, b: int)
    requires U32(a) == U32(b)
    requires -M32 < a - b < M32
    ensures a == b
  {
  }

  /** How many whole cycles `_itimediff` has taken off. */
  function Cycles(later: int, earlier: int): (k: int)
    ensures later - earlier == Itimediff(later, earlier) + M32 * k
  {
    (later - earlier) / M32 + if U32(later - earlier) >= HALF then 1 else 0
  }

  /**
   `_itimediff` of two counters cut to 32 bits gives their true difference exactly when that difference is within
   half a cycle.
   */
  lemma ItimediffExact(later: int, earlier: int)
    ensures Itimediff(U32(later), U32(earlier)) == later - earlier <==> -HALF <= later - earlier < HALF
    ensures Itimediff(U32(later), U32(earlier)) == Itimediff(later, earlier)
  {
    assert U32(U32(later) - U32(earlier)) == U32(later - earlier) by {
      var i, j := later / M32, earlier / M32;
      assert later == U32(later) + M32 * i && earlier == U32(earlier) + M32 * j;
      ShiftResidue(U32(later) - U32(earlier), i - j);
    }
    if -HALF <= later - earlier < 0 {
      ShiftResidue(later - earlier, 1);
    }
  }

  lemma ShiftResidue(v: int, k: int)
    ensures U32(v + M32 * k) == U32(v)
  {
    var q := v / M32;
    assert v + M32 * k == v % M32 + M32 * (q + k);
    DivUnique(v + M32 * k, q + k, v % M32);
  }

  lemma DivUnique(v: int, q: int, r: int)
    requires v == r + M32 * q && 0 <= r < M32
    ensures v % M32 == r && v / M32 == q
  {
  }

  datatype Numbering = Wrapping | Unbounded

  /** The signed distance between two sequence numbers. */
  function Diff(n: Numbering, later: int, earlier: int): int {
    if n.Wrapping? then Itimediff(later, earlier) else later - earlier
  }

  /** A computed sequence number as the transport stores it. */
  function Norm(n: Numbering, v: int): int {
    if n.Wrapping? then U32(v) else v
  }

  /** A sequence number the transport can hold. */
  predicate Storable(n: Numbering, v: int) {
    n.Wrapping? ==> 0 <= v < M32
  }

  lemma NormHolds(n: Numbering, v: int)
    ensures Storable(n, Norm(n, v))
    ensures Storable(n, v) ==> Norm(n, v) == v
  {
  }

  lemma DiffNorm(n: Numbering, a: int, b: int)
    ensures Diff(n, Norm(n, a), b) == Diff(n, a, b)
    ensures Diff(n, a, Norm(n, b)) == Diff(n, a, b)
  {
    if n.Wrapping? {
      ItimediffExact(a, b);
      ItimediffExact(U32(a), b);
      ItimediffExact(a, U32(b));
    }
  }

  /** Distances add up, as long as the sum is one the transport can see. */
  lemma DiffChain(n: Numbering, a: int, b: int, c: int)
    requires n.Wrapping? ==> -HALF <= Diff(n, a, b) + Diff(n, b, c) < HALF
    ensures Diff(n, a, c) == Diff(n, a, b) + Diff(n, b, c)
  {
    if n.Wrapping? {
      var i, j := Cycles(a, b), Cycles(b, c);
      var s := Diff(n, a, b) + Diff(n, b, c);
      assert a - c == s + M32 * (i + j);
      ItimediffExact(s, 0);
      ShiftResidue(s, i + j);
      assert U32(a - c) == U32(s);
    }
  }

  lemma DiffPlus(n: Numbering, a: int, b: int, k: int)
    requires n.Wrapping? ==> -HALF <= Diff(n, a, b) + k < HALF
    ensures Diff(n, a + k, b) == Diff(n, a, b) + k
    ensures Diff(n, Norm(n, a + k), b) == Diff(n, a, b) + k
  {
    DiffNorm(n, a + k, b);
    if n.Wrapping? {
      var i := Cycles(a, b);
      var s := Diff(n, a, b) + k;
      assert a + k - b == s + M32 * i;
      ShiftResidue(s, i);
      ItimediffExact(s, 0);
    }
  }

  lemma DiffMinus(n: Numbering, a: int, b: int, k: int)
    requires n.Wrapping? ==> -HALF <= Diff(n, a, b) - k < HALF
    ensures Diff(n, a, b + k) == Diff(n, a, b) - k
    ensures Diff(n, a, Norm(n, b + k)) == Diff(n, a, b) - k
  {
    DiffNorm(n, a, b + k);
    DiffPlus(n, a, b, -k);
    assert a - k - b == a - (b + k);
  }

  /** Swapping the arguments negates a distance, except for the one that has no negative. */
  lemma DiffSwap(n: Numbering, a: int, b: int)
    requires n.Wrapping? ==> Diff(n, a, b) != -HALF
    ensures Diff(n, b, a) == -Diff(n, a, b)
  {
    if n.Wrapping? {
      var i := Cycles(a, b);
      assert b - a == -Diff(n, a, b) + M32 * (-i);
      ShiftResidue(-Diff(n, a, b), -i);
      ItimediffExact(-Diff(n, a, b), 0);
    }
  }

  /** Distance zero is equality. */
  lemma DiffZero(n: Numbering, a: int, b: int)
    requires Storable(n, a) && Storable(n, b)
    ensures Diff(n, a, b) == 0 <==> a == b
  {
    if n.Wrapping? && Diff(n, a, b) == 0 {
      var i := Cycles(a, b);
    }
  }
}
