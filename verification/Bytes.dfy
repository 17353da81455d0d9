/** Bytes and the little helpers every other module shares. */
module Bytes {
  type byte = n: int | 0 <= n < 256

  datatype Option<+T> = None | Some(value: T)

  const TWO32: nat := 0x1_0000_0000
  const TWO64: nat := 0x1_0000_0000_0000_0000
  const KB64: nat := 65536

  type u32 = n: int | 0 <= n < TWO32

  /** The 16-bit little-endian number in two bytes. */
  function Le16(lo: byte, hi: byte): (n: nat)
    ensures n < 65536
  {
    var l: int, h: int := lo, hi;
    l + 256 * h
  }

  function Min(a: int, b: int): int { if a < b then a else b }

  function Max(a: int, b: int): int { if a < b then b else a }

  lemma Assoc<T>(a: seq<T>, b: seq<T>, c: seq<T>)
    ensures (a + b) + c == a + (b + c)
  {
  }

  lemma SplitSame<T>(a: seq<T>, s: seq<T>, b: seq<T>, t: seq<T>)
    requires a + s == b + t && |a| == |b|
    ensures a == b && s == t
  {
    assert a == (a + s)[..|a|] && b == (b + t)[..|b|];
    assert s == (a + s)[|a|..] && t == (b + t)[|b|..];
  }

  /** A string stands at a place of another. */
  predicate Holds(data: seq<byte>, p: nat, a: seq<byte>)
    ensures Holds(data, p, a) ==> p + |a| <= |data|
    decreases |a|
  {
    if a == [] then p <= |data| else p < |data| && data[p] == a[0] && Holds(data, p + 1, a[1..])
  }

  lemma {:induction false} HoldsSlice(data: seq<byte>, p: nat, a: seq<byte>)
    ensures Holds(data, p, a) <==> p + |a| <= |data| && data[p..p + |a|] == a
    decreases |a|
  {
    if a != [] && p < |data| {
      HoldsSlice(data, p + 1, a[1..]);
      if p + |a| <= |data| {
        assert data[p..p + |a|] == [data[p]] + data[p + 1..p + |a|];
        assert a == [a[0]] + a[1..];
      }
    }
  }

  lemma HoldsSplit(data: seq<byte>, p: nat, a: seq<byte>, b: seq<byte>)
    ensures Holds(data, p, a + b) <==> Holds(data, p, a) && Holds(data, p + |a|, b)
  {
    HoldsSlice(data, p, a + b);
    HoldsSlice(data, p, a);
    HoldsSlice(data, p + |a|, b);
    if p + |a| + |b| <= |data| {
      var x, y := data[p..p + |a|], data[p + |a|..p + |a| + |b|];
      assert data[p..p + |a + b|] == x + y;
      if x + y == a + b {
        SplitSame(x, y, a, b);
      }
    }
  }

  lemma HoldsPrefix(data: seq<byte>, a: seq<byte>)
    requires a <= data
    ensures Holds(data, 0, a)
  {
    HoldsSlice(data, 0, a);
  }

  /** The first number that does not fit some bytes. */
  function Power(size: nat): (p: nat)
    ensures p > 0
  {
    if size == 0 then 1 else 256 * Power(size - 1)
  }
}
