/**
 The copy primitives of the LZ4 codec: plain and "wild" memcpy, which rounds its length
 up to whole strides, and the routines that repeat a short pattern. Every one says which
 bytes it may touch, so overshooting is bounded by its contract.
 */
module Lz4Copy {
  import opened Bytes

  // ---- from a read-only source into dst ----

  method CopyIn(dst: array<byte>, d: nat, src: seq<byte>, s: nat, n: nat)
    requires d + n <= dst.Length && s + n <= |src|
    modifies dst
    ensures forall i :: d <= i < d + n ==> dst[i] == src[i - d + s]
    ensures forall i :: 0 <= i < d || d + n <= i < dst.Length ==> dst[i] == old(dst[i])
  {
    forall j | 0 <= j < n {
      dst[d + j] := src[s + j];
    }
  }

  /** Copies at least up to `e` in strides of 8: up to 7 bytes too many, or 8 when there is
      nothing to copy. */
  method WildCopy8In(dst: array<byte>, d0: nat, src: seq<byte>, s0: nat, e: nat)
    requires Max(d0 + 1, e) + 7 <= dst.Length && s0 + Max(1, e - d0) + 7 <= |src|
    modifies dst
    ensures forall i :: d0 <= i < e ==> dst[i] == src[i - d0 + s0]
    ensures forall i :: 0 <= i < d0 || Max(d0 + 1, e) + 7 <= i < dst.Length ==> dst[i] == old(dst[i])
  {
    var d, s := d0, s0;
    CopyIn(dst, d, src, s, 8);
    d, s := d + 8, s + 8;
    while d < e
      invariant d0 + 8 <= d <= Max(d0 + 1, e) + 7 && d - d0 == s - s0
      invariant forall i :: d0 <= i < d ==> dst[i] == src[i - d0 + s0]
      invariant forall i :: 0 <= i < d0 || d <= i < dst.Length ==> dst[i] == old(dst[i])
    {
      CopyIn(dst, d, src, s, 8);
      d, s := d + 8, s + 8;
    }
  }

  /** As above, in strides of 32. */
  method WildCopy32In(dst: array<byte>, d0: nat, src: seq<byte>, s0: nat, e: nat)
    requires Max(d0 + 1, e) + 31 <= dst.Length && s0 + Max(1, e - d0) + 31 <= |src|
    modifies dst
    ensures forall i :: d0 <= i < e ==> dst[i] == src[i - d0 + s0]
    ensures forall i :: 0 <= i < d0 || Max(d0 + 1, e) + 31 <= i < dst.Length ==> dst[i] == old(dst[i])
  {
    var d, s := d0, s0;
    CopyIn(dst, d, src, s, 16);
    CopyIn(dst, d + 16, src, s + 16, 16);
    d, s := d + 32, s + 32;
    while d < e
      invariant d0 + 32 <= d <= Max(d0 + 1, e) + 31 && d - d0 == s - s0
      invariant forall i :: d0 <= i < d ==> dst[i] == src[i - d0 + s0]
      invariant forall i :: 0 <= i < d0 || d <= i < dst.Length ==> dst[i] == old(dst[i])
    {
      CopyIn(dst, d, src, s, 16);
      CopyIn(dst, d + 16, src, s + 16, 16);
      d, s := d + 32, s + 32;
    }
  }

  // ---- within dst ----

  /** memcpy inside one buffer: the two ranges must not overlap. */
  method CopyWithin(dst: array<byte>, d: nat, s: nat, n: nat)
    requires s + n <= d && d + n <= dst.Length
    modifies dst
    ensures forall i :: d <= i < d + n ==> dst[i] == old(dst[i - (d - s)])
    ensures forall i :: 0 <= i < d || d + n <= i < dst.Length ==> dst[i] == old(dst[i])
  {
    forall j | 0 <= j < n {
      dst[d + j] := dst[s + j];
    }
  }

  method WildCopy8Within(dst: array<byte>, d0: nat, s0: nat, e: nat)
    requires s0 + 8 <= d0 && Max(d0 + 1, e) + 7 <= dst.Length
    modifies dst
    ensures forall i :: d0 <= i < Max(d0 + 8, e) ==> dst[i] == dst[i - (d0 - s0)]
    ensures forall i :: 0 <= i < d0 || Max(d0 + 1, e) + 7 <= i < dst.Length ==> dst[i] == old(dst[i])
  {
    var d, s := d0, s0;
    CopyWithin(dst, d, s, 8);
    d, s := d + 8, s + 8;
    while d < e
      invariant d0 + 8 <= d <= Max(d0 + 1, e) + 7 && d - d0 == s - s0
      invariant forall i :: d0 <= i < d ==> dst[i] == dst[i - (d0 - s0)]
      invariant forall i :: 0 <= i < d0 || d <= i < dst.Length ==> dst[i] == old(dst[i])
    {
      CopyWithin(dst, d, s, 8);
      d, s := d + 8, s + 8;
    }
  }

  method WildCopy32Within(dst: array<byte>, d0: nat, s0: nat, e: nat)
    requires s0 + 16 <= d0 && Max(d0 + 1, e) + 31 <= dst.Length
    modifies dst
    ensures forall i :: d0 <= i < e ==> dst[i] == dst[i - (d0 - s0)]
    ensures forall i :: 0 <= i < d0 || Max(d0 + 1, e) + 31 <= i < dst.Length ==> dst[i] == old(dst[i])
  {
    var d, s := d0, s0;
    CopyWithin(dst, d, s, 16);
    CopyWithin(dst, d + 16, s + 16, 16);
    d, s := d + 32, s + 32;
    while d < e
      invariant d0 + 32 <= d <= Max(d0 + 1, e) + 31 && d - d0 == s - s0
      invariant forall i :: d0 <= i < d ==> dst[i] == dst[i - (d0 - s0)]
      invariant forall i :: 0 <= i < d0 || d <= i < dst.Length ==> dst[i] == old(dst[i])
    {
      CopyWithin(dst, d, s, 16);
      CopyWithin(dst, d + 16, s + 16, 16);
      d, s := d + 32, s + 32;
    }
  }

  // ---- short offsets ----

  const INC32TABLE: seq<nat> := [0, 1, 2, 1, 0, 4, 4, 4]
  const DEC64TABLE: seq<int> := [0, 0, 0, -1, -4, 1, 2, 3]

  /** How many times a short offset fits in the distance the tables turn it into. */
  const FACTOR: seq<nat> := [0, 8, 4, 3, 2, 2, 2, 2]

  function Distance(offset: nat): (dist: nat)
    requires offset < 8
    ensures 8 <= dist <= 8 + offset
  {
    if offset == 0 then 8 else FACTOR[offset] * offset
  }

  /** Every position of [lo, hi) holds the byte `offset` back, or 0 for offset 0. */
  ghost predicate Repeats(x: seq<byte>, lo: nat, hi: nat, offset: nat) {
    offset <= lo <= hi <= |x| &&
    forall i :: lo <= i < hi ==> x[i] == if offset == 0 then 0 else x[i - offset]
  }

  /** In a stretch that repeats with period `offset`, going back any number of periods
      finds the same byte. */
  lemma {:induction false} BackPeriods(x: seq<byte>, lo: nat, hi: nat, offset: nat, k: nat, i: nat)
    requires Repeats(x, lo, hi, offset) && offset > 0
    requires lo <= i < hi && (k == 0 || i - (k - 1) * offset >= lo)
    ensures 0 <= i - k * offset
    ensures x[i] == x[i - k * offset]
    decreases k
  {
    if k > 1 {
      assert (k - 1) * offset == (k - 2) * offset + offset;
      assert k * offset == (k - 1) * offset + offset;
      BackPeriods(x, lo, hi, offset, k - 1, i);
    }
  }

  /** A stretch of the pattern, followed by copies from k periods back: all of it repeats
      with the original offset. */
  lemma {:induction false} StretchRepeats(x: seq<byte>, lo: nat, mid: nat, hi: nat, offset: nat, k: nat)
    requires Repeats(x, lo, mid, offset) && mid <= hi <= |x|
    requires var dist := if offset == 0 then k else k * offset;
             0 < k && dist <= mid - lo + offset && forall i :: mid <= i < hi ==> x[i] == x[i - dist]
    ensures Repeats(x, lo, hi, offset)
    decreases hi
  {
    if hi > mid {
      StretchRepeats(x, lo, mid, hi - 1, offset, k);
      var i := hi - 1;
      if offset > 0 {
        assert (k - 1) * offset == k * offset - offset;
        if k > 1 {
          assert (k - 2) * offset == (k - 1) * offset - offset;
          BackPeriods(x, lo, hi - 1, offset, k - 1, i - offset);
        }
      } else {
        assert x[i] == x[i - k];
      }
    }
  }

  function SecondFactor(offset: nat): nat {
    if offset <= 1 then 4 else if offset <= 4 then 2 else 1
  }

  /** What the tables are for: the four bytes at the moved cursor precede the ones to be
      written, continue the pattern, and leave the cursor at the stretched distance. */
  lemma TableFacts(offset: nat)
    requires offset < 8
    ensures INC32TABLE[offset] <= offset
    ensures INC32TABLE[offset] - DEC64TABLE[offset] == 8 + offset - Distance(offset)
    ensures 4 + offset - INC32TABLE[offset] == if offset == 0 then 4 else SecondFactor(offset) * offset
  {
    if
    case offset == 0 =>
    case offset == 1 =>
    case offset == 2 =>
    case offset == 3 =>
    case offset == 4 =>
    case offset == 5 =>
    case offset == 6 =>
    case offset == 7 =>
  }

  method FirstFour(dst: array<byte>, d: nat, offset: nat)
    requires offset < 8 && offset <= d && d + 8 <= dst.Length
    modifies dst
    ensures Repeats(dst[..], d, d + 4, offset)
    ensures forall i :: 0 <= i < d || d + 4 <= i < dst.Length ==> dst[i] == old(dst[i])
  {
    var match_ := d - offset;
    dst[d], dst[d + 1], dst[d + 2], dst[d + 3] := 0, 0, 0, 0;
    dst[d] := dst[match_];
    dst[d + 1] := dst[match_ + 1];
    dst[d + 2] := dst[match_ + 2];
    dst[d + 3] := dst[match_ + 3];
  }

  /** The first 8 bytes of a match at offset below 8, and where copying goes on from. */
  method SpreadFirst8(dst: array<byte>, d: nat, offset: nat) returns (match_: nat)
    requires offset < 8 && offset <= d && d + 8 <= dst.Length
    modifies dst
    ensures match_ == d + 8 - Distance(offset)
    ensures Repeats(dst[..], d, d + 8, offset)
    ensures forall i :: 0 <= i < d || d + 8 <= i < dst.Length ==> dst[i] == old(dst[i])
  {
    TableFacts(offset);
    FirstFour(dst, d, offset);
    ghost var x0 := dst[..];
    match_ := d - offset + INC32TABLE[offset];
    CopyWithin(dst, d + 4, match_, 4);
    ghost var x := dst[..];
    assert x[..d + 4] == x0[..d + 4];
    StretchRepeats(x, d, d + 4, d + 8, offset, SecondFactor(offset));
    match_ := match_ - DEC64TABLE[offset];
  }

  method MemcpyUsingOffsetBase(dst: array<byte>, d: nat, e: nat, offset: nat)
    requires offset <= d && d + 4 <= e && Max(e, d + 9) + 7 <= dst.Length
    modifies dst
    ensures Repeats(dst[..], d, e, offset)
    ensures forall i :: 0 <= i < d || Max(e, d + 9) + 7 <= i < dst.Length ==> dst[i] == old(dst[i])
  {
    var s := d - offset;
    if offset < 8 {
      s := SpreadFirst8(dst, d, offset);
      ghost var x0 := dst[..];
      WildCopy8Within(dst, d + 8, s, e);
      assert dst[..d + 8] == x0[..d + 8];
      StretchRepeats(dst[..], d, d + 8, Max(d + 8, e), offset, if offset == 0 then 8 else FACTOR[offset]);
    } else {
      CopyWithin(dst, d, s, 8);
      ghost var x0 := dst[..];
      WildCopy8Within(dst, d + 8, s + 8, e);
      assert dst[..d + 8] == x0[..d + 8];
    }
  }

  /** Eight bytes written over and over. */
  method FillEights(dst: array<byte>, d0: nat, e: nat, v: seq<byte>)
    requires d0 + 4 <= e && Max(e, d0 + 9) + 7 <= dst.Length && |v| == 8
    modifies dst
    ensures dst[d0..d0 + 8] == v
    ensures forall i :: d0 + 8 <= i < e ==> dst[i] == dst[i - 8]
    ensures forall i :: 0 <= i < d0 || Max(e, d0 + 9) + 7 <= i < dst.Length ==> dst[i] == old(dst[i])
  {
    var d := d0;
    CopyIn(dst, d, v, 0, 8);
    d := d + 8;
    while d < e
      invariant d0 + 8 <= d <= Max(e, d0 + 9) + 7
      invariant dst[d0..d0 + 8] == v
      invariant forall i :: d - 8 <= i < d ==> dst[i] == v[i - (d - 8)]
      invariant forall i :: d0 + 8 <= i < d ==> dst[i] == dst[i - 8]
      invariant forall i :: 0 <= i < d0 || d <= i < dst.Length ==> dst[i] == old(dst[i])
    {
      CopyIn(dst, d, v, 0, 8);
      d := d + 8;
    }
  }

  lemma {:induction false} EightsRepeat(x: seq<byte>, d: nat, e: nat, v: seq<byte>, offset: nat)
    requires offset <= d && d + 4 <= e && Max(e, d + 8) <= |x| && offset in {1, 2, 4}
    requires |v| == 8 && x[d..d + 8] == v
    requires v == x[d - offset..d] + v[..8 - offset]
    requires forall i :: d + 8 <= i < e ==> x[i] == x[i - 8]
    ensures Repeats(x, d, e, offset)
  {
    forall i | d <= i < d + 8
      ensures x[i] == x[i - offset]
    {
      assert x[i] == v[i - d];
      if i - offset >= d {
        assert v[i - d] == v[i - d - offset];
      }
    }
    StretchRepeats(x, d, d + 8, Max(d + 8, e), offset, 8 / offset);
  }

  /** A match of offset below 16 in the fast loop. */
  method MemcpyUsingOffset(dst: array<byte>, d: nat, e: nat, offset: nat)
    requires offset <= d && d + 4 <= e && Max(e, d + 9) + 7 <= dst.Length
    modifies dst
    ensures Repeats(dst[..], d, e, offset)
    ensures forall i :: 0 <= i < d || Max(e, d + 9) + 7 <= i < dst.Length ==> dst[i] == old(dst[i])
  {
    var s := d - offset;
    match offset {
      case 1 =>
        var b := dst[s];
        FillEights(dst, d, e, [b, b, b, b, b, b, b, b]);
        EightsRepeat(dst[..], d, e, [b, b, b, b, b, b, b, b], 1);
      case 2 =>
        var v := [dst[s], dst[s + 1], dst[s], dst[s + 1]];
        FillEights(dst, d, e, v + v);
        EightsRepeat(dst[..], d, e, v + v, 2);
      case 4 =>
        var v := [dst[s], dst[s + 1], dst[s + 2], dst[s + 3]];
        FillEights(dst, d, e, v + v);
        EightsRepeat(dst[..], d, e, v + v, 4);
      case _ =>
        MemcpyUsingOffsetBase(dst, d, e, offset);
    }
  }

  /** The two 8-byte copies and the 2-byte copy that cover any match of length up to 18. */
  method Copy18(dst: array<byte>, op: nat, offset: nat)
    requires 8 <= offset <= op && op + 18 <= dst.Length
    modifies dst
    ensures Repeats(dst[..], op, op + 18, offset)
    ensures forall i :: 0 <= i < op || op + 18 <= i < dst.Length ==> dst[i] == old(dst[i])
  {
    var match_ := op - offset;
    CopyWithin(dst, op, match_, 8);
    CopyWithin(dst, op + 8, match_ + 8, 8);
    CopyWithin(dst, op + 16, match_ + 16, 2);
  }
}
