/** Byte strings and the fixed-width integer fields that the wire formats are built from. */
module Bytes {
  type byte = b: int | 0 <= b < 0x100

  type Bytes = seq<byte>

  datatype Option<+T> = None | Some(value: T)

  function Min(a: int, b: int): int { if a <= b then a else b }

  function Max(a: int, b: int): int { if a >= b then a else b }

  function Pow2(k: nat): (p: int)
    ensures p >= 1
  {
    if k == 0 then 1 else 2 * Pow2(k - 1)
  }

  lemma MulAtLeast(d: int, m: int)
    requires m > 0
    ensures d >= 1 ==> d * m >= m
    ensures d <= -1 ==> d * m <= -m
  {
  }

  lemma DivIs(a: int, m: int, q: int, r: int)
    requires m > 0 && 0 <= r < m && a == q * m + r
    ensures a / m == q
  {
    var d := a / m - q;
    assert a == (a / m) * m + a % m;
    assert d * m == r - a % m;
    MulAtLeast(d, m);
  }

  // Fixed-width fields, least significant byte first, as struct packs them under "<".

  function Pow256(width: nat): (p: int)
    ensures p > 0
  {
    if width == 0 then 1 else 0x100 * Pow256(width - 1)
  }

  function Le(width: nat, v: int): (b: Bytes)
    requires 0 <= v
    ensures |b| == width
  {
    if width == 0 then [] else [v % 0x100] + Le(width - 1, v / 0x100)
  }

  function FromLe(b: Bytes): (v: int)
    ensures 0 <= v
  {
    if b == [] then 0 else b[0] as int + 0x100 * FromLe(b[1..])
  }

  lemma {:induction false} LeRoundTrip(width: nat, v: int)
    requires 0 <= v < Pow256(width)
    ensures FromLe(Le(width, v)) == v
  {
    if width > 0 {
      LeRoundTrip(width - 1, v / 0x100);
      assert Le(width, v)[1..] == Le(width - 1, v / 0x100);
    }
  }

  lemma {:induction false} FromLeBound(b: Bytes)
    ensures FromLe(b) < Pow256(|b|)
  {
    if b != [] {
      FromLeBound(b[1..]);
    }
  }

  lemma Pow256Values()
    ensures Pow256(1) == 0x100 && Pow256(2) == 0x1_0000 && Pow256(4) == 0x1_0000_0000
  {
    assert Pow256(0) == 1;
    assert Pow256(1) == 0x100;
    assert Pow256(2) == 0x1_0000;
    assert Pow256(3) == 0x100_0000;
  }

  // Most significant byte first, as struct packs them under ">".

  function Reverse(b: Bytes): (r: Bytes)
    ensures |r| == |b|
  {
    if b == [] then [] else Reverse(b[1..]) + [b[0]]
  }

  lemma {:induction false} ReverseAppend(a: Bytes, b: Bytes)
    ensures Reverse(a + b) == Reverse(b) + Reverse(a)
  {
    if a == [] {
      assert a + b == b;
    } else {
      assert (a + b)[1..] == a[1..] + b;
      ReverseAppend(a[1..], b);
    }
  }

  lemma {:induction false} ReverseTwice(b: Bytes)
    ensures Reverse(Reverse(b)) == b
  {
    if b != [] {
      ReverseTwice(b[1..]);
      ReverseAppend(Reverse(b[1..]), [b[0]]);
      assert Reverse([b[0]]) == [b[0]];
    }
  }

  function Be(width: nat, v: int): (b: Bytes)
    requires 0 <= v
    ensures |b| == width
  {
    Reverse(Le(width, v))
  }

  function FromBe(b: Bytes): (v: int)
    ensures 0 <= v
  {
    FromLe(Reverse(b))
  }

  lemma BeRoundTrip(width: nat, v: int)
    requires 0 <= v < Pow256(width)
    ensures FromBe(Be(width, v)) == v
  {
    ReverseTwice(Le(width, v));
    LeRoundTrip(width, v);
  }

  lemma {:induction false} LeFromLe(b: Bytes)
    ensures Le(|b|, FromLe(b)) == b
  {
    if b != [] {
      LeFromLe(b[1..]);
      assert FromLe(b) / 0x100 == FromLe(b[1..]);
    }
  }

  lemma BeFromBe(b: Bytes)
    ensures Be(|b|, FromBe(b)) == b
  {
    LeFromLe(Reverse(b));
    ReverseTwice(b);
  }

  /** The concatenation of a list of byte strings. */
  function Flatten(parts: seq<Bytes>): Bytes {
    if parts == [] then [] else parts[0] + Flatten(parts[1..])
  }

  lemma {:induction false} FlattenAppend(a: seq<Bytes>, b: seq<Bytes>)
    ensures Flatten(a + b) == Flatten(a) + Flatten(b)
  {
    if a == [] {
      assert a + b == b;
    } else {
      assert (a + b)[1..] == a[1..] + b;
      FlattenAppend(a[1..], b);
    }
  }
}
