/**
 Adler-32 (section 2.2 of RFC 1950): the checksum with deferred reduction, and the formula
 that combines the checksums of two pieces.
 */
module Adler32 {
  import opened Bytes

  const BASE: nat := 65521
  const NMAX: nat := 5552

  // Quantities of type u32 are kept in 32 bits: every assignment to one is checked not to overflow.

  // ---- the definition, byte by byte ----

  datatype Sums = Sums(a: nat, b: nat)

  function Step(s: Sums, x: byte): Sums {
    Sums((s.a + x) % BASE, (s.b + (s.a + x) % BASE) % BASE)
  }

  /** The two running sums, reduced after every byte. */
  function Checksum(s: Sums, bytes: seq<byte>): (r: Sums)
    ensures bytes != [] ==> r.a < BASE && r.b < BASE
  {
    if bytes == [] then s
    else Step(Checksum(s, bytes[..|bytes| - 1]), bytes[|bytes| - 1])
  }

  predicate Canonical(s: Sums) {
    s.a < BASE && s.b < BASE
  }

  /** The 32-bit word of the two sums. */
  function Word(s: Sums): nat {
    s.a + 65536 * s.b
  }

  function Parts(adler: u32): (s: Sums)
    ensures s.a < 65536 && s.b < 65536 && Word(s) == adler
  {
    Sums(adler % 65536, adler / 65536)
  }

  lemma {:induction false} ChecksumConcat(s: Sums, x: seq<byte>, y: seq<byte>)
    ensures Checksum(s, x + y) == Checksum(Checksum(s, x), y)
    decreases |y|
  {
    if y == [] {
      assert x + y == x;
    } else {
      var y' := y[..|y| - 1];
      assert (x + y)[..|x + y| - 1] == x + y';
      ChecksumConcat(s, x, y');
    }
  }

  // ---- sums without reduction ----

  function Raw(s: Sums, bytes: seq<byte>): Sums {
    if bytes == [] then s
    else
      var r := Raw(s, bytes[..|bytes| - 1]);
      var x: int := bytes[|bytes| - 1];
      Sums(r.a + x, r.b + r.a + x)
  }

  function Reduce(s: Sums): (r: Sums)
    ensures Canonical(r)
  {
    Sums(s.a % BASE, s.b % BASE)
  }

  lemma ModAdd(x: nat, y: nat)
    ensures (x + y) % BASE == (x % BASE + y) % BASE
    ensures (x + y) % BASE == (x % BASE + y % BASE) % BASE
  {
    var q, r := x / BASE, y / BASE;
    assert x + y == BASE * q + (x % BASE + y);
    assert x + y == BASE * (q + r) + (x % BASE + y % BASE);
  }

  /** Reducing once at the end, or after every byte, comes to the same. */
  lemma {:induction false} ReduceRaw(s: Sums, bytes: seq<byte>)
    ensures Reduce(Raw(s, bytes)) == Checksum(Reduce(s), bytes)
    decreases |bytes|
  {
    if bytes != [] {
      var front := bytes[..|bytes| - 1];
      var x: int := bytes[|bytes| - 1];
      ReduceRaw(s, front);
      var r := Raw(s, front);
      ModAdd(r.a, x);
      ModAdd(r.b, r.a + x);
    }
  }

  /** The sum of the first `i` bytes. */
  function Total(bytes: seq<byte>, i: nat): nat
    requires i <= |bytes|
  {
    if i == 0 then 0 else Total(bytes, i - 1) + bytes[i - 1] as nat
  }

  /** The sum of the first `i` bytes, the first of them taken `n` times, the next once less, and so on. */
  function Weighted(bytes: seq<byte>, n: nat, i: nat): nat
    requires i <= |bytes| && i <= n
  {
    if i == 0 then 0 else Weighted(bytes, n, i - 1) + (n - i + 1) * bytes[i - 1] as nat
  }

  /** The sums in closed form: one and the sum of the bytes; the number of bytes and the sum of the
      bytes, each as often as there are bytes from it on (section 2.2 of RFC 1950). */
  lemma {:induction false} ClosedSums(bytes: seq<byte>)
    ensures var n := |bytes|;
      && Checksum(Sums(1, 0), bytes).a == (1 + Total(bytes, n)) % 65521
      && Checksum(Sums(1, 0), bytes).b == (n + Weighted(bytes, n, n)) % 65521
  {
    RawClosed(bytes);
    ReduceRaw(Sums(1, 0), bytes);
  }

  lemma {:induction false} RawClosed(bytes: seq<byte>)
    ensures Raw(Sums(1, 0), bytes) == Sums(1 + Total(bytes, |bytes|), |bytes| + Weighted(bytes, |bytes|, |bytes|))
    decreases |bytes|
  {
    if bytes != [] {
      var n := |bytes|;
      var front := bytes[..n - 1];
      RawClosed(front);
      TotalFront(bytes, n - 1);
      WeightedMore(bytes, n - 1, n - 1);
    }
  }

  lemma {:induction false} TotalFront(bytes: seq<byte>, i: nat)
    requires i < |bytes|
    ensures Total(bytes[..|bytes| - 1], i) == Total(bytes, i)
    decreases i
  {
    if i > 0 {
      TotalFront(bytes, i - 1);
    }
  }

  lemma {:induction false} WeightedMore(bytes: seq<byte>, n: nat, i: nat)
    requires i < |bytes| && i <= n
    ensures Weighted(bytes, n + 1, i) == Weighted(bytes[..|bytes| - 1], n, i) + Total(bytes, i)
    decreases i
  {
    if i > 0 {
      WeightedMore(bytes, n, i - 1);
      var b := bytes[i - 1] as nat;
      assert (n + 1 - i + 1) * b == (n - i + 1) * b + b;
    }
  }

  /** The checksums of nothing and of "abc". */
  lemma KnownChecksums()
    ensures Word(Checksum(Sums(1, 0), [])) == 1
    ensures Word(Checksum(Sums(1, 0), [97, 98, 99])) == 0x024D_0127
  {
    assert [97, 98, 99][..2] == [97, 98] && [97, 98][..1] == [97] && [97][..0] == [];
    assert Checksum(Sums(1, 0), [97]) == Sums(98, 98);
    assert Checksum(Sums(1, 0), [97, 98]) == Sums(196, 294);
  }

  /** A bound on the sums of n bytes from sums (a, b): what NMAX is chosen for. */
  function Bound(s: Sums, n: nat): nat {
    s.b + n * s.a + 255 * (n * (n + 1) / 2)
  }

  lemma {:induction false} RawBound(s: Sums, bytes: seq<byte>)
    ensures Raw(s, bytes).a <= s.a + 255 * |bytes|
    ensures Raw(s, bytes).b <= Bound(s, |bytes|)
    decreases |bytes|
  {
    if bytes != [] {
      var n := |bytes|;
      RawBound(s, bytes[..n - 1]);
      assert n * (n + 1) / 2 == (n - 1) * n / 2 + n by {
        assert n * (n + 1) == (n - 1) * n + 2 * n;
      }
      assert n * s.a == (n - 1) * s.a + s.a;
    }
  }

  lemma MulMono(a: nat, b: nat, c: nat, d: nat)
    requires a <= c && b <= d
    ensures a * b <= c * d
  {
    assert a * b <= a * d;
    assert a * d <= c * d;
  }

  /** NMAX is small enough: no sum of up to NMAX bytes leaves 32 bits. */
  lemma BoundFits(s: Sums, n: nat)
    requires Canonical(s) && n <= NMAX
    ensures s.a + 255 * n < TWO32 && Bound(s, n) < TWO32
  {
    MulMono(n, n + 1, NMAX, NMAX + 1);
    MulMono(n, s.a, NMAX, BASE - 1);
  }

  /** NMAX is the largest such number: with one byte more the worst case overflows. */
  lemma NmaxIsLargest()
    ensures Bound(Sums(BASE - 1, BASE - 1), NMAX) < TWO32 <= Bound(Sums(BASE - 1, BASE - 1), NMAX + 1)
  {
  }

  // ---- reduction without division ----

  function Chop(a: nat): nat {
    var tmp := a / 65536;
    a % 65536 + (tmp * 16 - tmp)
  }

  function Mod28(a: nat): nat {
    var c := Chop(a);
    if c >= BASE then c - BASE else c
  }

  function ModNoDivide(a: nat): nat {
    Mod28(Chop(a))
  }

  function Mod63(a: nat): nat {
    var tmp := a / TWO32;
    var a1 := a % TWO32 + (tmp * 256 - tmp * 32 + tmp);
    var a3 := Chop(Chop(a1));
    if a3 >= BASE then a3 - BASE else a3
  }

  /** One round of folding keeps the remainder: 65536 is 15 modulo BASE. */
  lemma ChopKeeps(a: nat)
    ensures Chop(a) % BASE == a % BASE
    ensures Chop(a) <= 65535 + 15 * (a / 65536)
  {
    var t := a / 65536;
    assert a == Chop(a) + BASE * t;
    ModMultiple(Chop(a), t);
  }

  lemma ModMultiple(x: nat, q: nat)
    ensures (x + BASE * q) % BASE == x % BASE
  {
    var k := x / BASE;
    assert x + BASE * q == BASE * (k + q) + x % BASE;
  }

  lemma Mod28Exact(a: nat)
    requires a < 0x1000_0000
    ensures Mod28(a) == a % BASE
  {
    ChopKeeps(a);
    ModSmall(Chop(a));
  }

  lemma ModSmall(c: nat)
    requires c < 2 * BASE
    ensures c % BASE == if c >= BASE then c - BASE else c
  {
  }

  lemma ModNoDivideExact(a: nat)
    requires a < TWO32
    ensures ModNoDivide(a) == a % BASE
  {
    ChopKeeps(a);
    Mod28Exact(Chop(a));
  }

  lemma Mod63Exact(a: nat)
    requires a < 0x8000_0000_0000_0000
    ensures Mod63(a) == a % BASE
  {
    var t := a / TWO32;
    var a1 := a % TWO32 + (t * 256 - t * 32 + t);
    assert a == a1 + BASE * (65551 * t);
    ModMultiple(a1, 65551 * t);
    ChopKeeps(a1);
    ChopKeeps(Chop(a1));
    ModSmall(Chop(Chop(a1)));
  }

  /** The macro MOD, with or without NO_DIVIDE. */
  function MOD(noDivide: bool, a: u32): (r: nat)
    ensures r == a % BASE
  {
    ModNoDivideExact(a);
    if noDivide then ModNoDivide(a) else a % BASE
  }

  // ---- adler32_z ----

  /** What the running sums are after the bytes [from, i) of the buffer. */
  ghost predicate Running(buf: seq<byte>, s: Sums, start: nat, i: nat, adler: nat, sum2: nat) {
    start <= i <= |buf| && Sums(adler, sum2) == Raw(s, buf[start..i])
  }

  method Do1(buf: seq<byte>, ghost s: Sums, ghost start: nat, i: nat, adler0: u32, sum20: u32) returns (adler: u32, sum2: u32)
    requires start <= i < |buf| && Running(buf, s, start, i, adler0, sum20)
    requires Canonical(s) && i + 1 - start <= NMAX
    ensures Running(buf, s, start, i + 1, adler, sum2)
  {
    RawBound(s, buf[start..i + 1]);
    BoundFits(s, i + 1 - start);
    assert buf[start..i + 1][..i - start] == buf[start..i];
    adler := adler0 + buf[i];
    sum2 := sum20 + adler;
  }

  method Do16(buf: seq<byte>, ghost s: Sums, ghost start: nat, i: nat, adler0: u32, sum20: u32) returns (adler: u32, sum2: u32)
    requires start <= i && i + 16 <= |buf| && Running(buf, s, start, i, adler0, sum20)
    requires Canonical(s) && i + 16 - start <= NMAX
    ensures Running(buf, s, start, i + 16, adler, sum2)
  {
    adler, sum2 := adler0, sum20;
    for k := 0 to 16
      invariant Running(buf, s, start, i + k, adler, sum2)
    {
      adler, sum2 := Do1(buf, s, start, i + k, adler, sum2);
    }
  }

  /** Up to NMAX bytes, 16 at a time and then one at a time, from sums that are reduced. */
  method SumUp(buf: seq<byte>, start: nat, end: nat, adler0: u32, sum20: u32) returns (adler: u32, sum2: u32)
    requires start <= end <= |buf| && end - start <= NMAX && Canonical(Sums(adler0, sum20))
    ensures Sums(adler, sum2) == Raw(Sums(adler0, sum20), buf[start..end])
  {
    ghost var s := Sums(adler0, sum20);
    adler, sum2 := adler0, sum20;
    var i := start;
    while end - i >= 16
      invariant start <= i <= end && Running(buf, s, start, i, adler, sum2)
    {
      adler, sum2 := Do16(buf, s, start, i, adler, sum2);
      i := i + 16;
    }
    while i < end
      invariant start <= i <= end && Running(buf, s, start, i, adler, sum2)
    {
      adler, sum2 := Do1(buf, s, start, i, adler, sum2);
      i := i + 1;
    }
  }

  /** Sums of up to NMAX bytes, reduced: the checksum of those bytes. */
  method SumUpReduced(buf: seq<byte>, start: nat, end: nat, adler0: u32, sum20: u32, noDivide: bool) returns (adler: u32, sum2: u32)
    requires start <= end <= |buf| && end - start <= NMAX && Canonical(Sums(adler0, sum20))
    ensures Sums(adler, sum2) == Checksum(Sums(adler0, sum20), buf[start..end])
    ensures Canonical(Sums(adler, sum2))
  {
    adler, sum2 := SumUp(buf, start, end, adler0, sum20);
    ReduceRaw(Sums(adler0, sum20), buf[start..end]);
    assert Reduce(Sums(adler0, sum20)) == Sums(adler0, sum20);
    adler, sum2 := MOD(noDivide, adler), MOD(noDivide, sum2);
  }

  /** Fewer than 16 bytes: one subtraction is enough for the first sum. */
  method ShortInput(buf: seq<byte>, adler0: u32, sum20: u32, noDivide: bool) returns (adler: u32, sum2: u32)
    requires |buf| < 16 && Canonical(Sums(adler0, sum20))
    ensures Sums(adler, sum2) == Checksum(Sums(adler0, sum20), buf)
  {
    adler, sum2 := adler0, sum20;
    ghost var s := Sums(adler0, sum20);
    var i := 0;
    while i < |buf|
      invariant 0 <= i <= |buf| && Running(buf, s, 0, i, adler, sum2)
    {
      adler, sum2 := Do1(buf, s, 0, i, adler, sum2);
      i := i + 1;
    }
    assert buf[0..|buf|] == buf;
    ShortReduce(s, buf);
    adler := if adler >= BASE then adler - BASE else adler;
    sum2 := if noDivide then Mod28(sum2) else sum2 % BASE;
  }

  lemma ShortBound(s: Sums, bytes: seq<byte>)
    requires Canonical(s) && |bytes| < 16
    ensures Raw(s, bytes).a < 2 * BASE && Raw(s, bytes).b < 0x1000_0000
  {
    RawBound(s, bytes);
    MulMono(|bytes|, |bytes| + 1, 15, 16);
    MulMono(|bytes|, s.a, 15, BASE - 1);
  }

  lemma ShortReduce(s: Sums, bytes: seq<byte>)
    requires Canonical(s) && |bytes| < 16
    ensures var r := Raw(s, bytes);
            && Sums(if r.a >= BASE then r.a - BASE else r.a, r.b % BASE) == Checksum(s, bytes)
            && Mod28(r.b) == r.b % BASE
  {
    hide Mod28, Raw, Checksum, Reduce;
    ShortBound(s, bytes);
    ReduceRaw(s, bytes);
    CanonicalIsReduced(s);
    ReduceSmall(Raw(s, bytes));
    Mod28Exact(Raw(s, bytes).b);
  }

  lemma CanonicalIsReduced(s: Sums)
    requires Canonical(s)
    ensures Reduce(s) == s
  {
  }

  /** One subtraction reduces the first sum when it is small. */
  lemma ReduceSmall(r: Sums)
    requires r.a < 2 * BASE
    ensures Reduce(r) == Sums(if r.a >= BASE then r.a - BASE else r.a, r.b % BASE)
  {
    ModSmall(r.a);
  }

  /** A single byte: one subtraction is enough for each sum. */
  method OneByte(x: byte, adler0: u32, sum20: u32) returns (adler: u32, sum2: u32)
    requires Canonical(Sums(adler0, sum20))
    ensures Sums(adler, sum2) == Step(Sums(adler0, sum20), x)
  {
    adler, sum2 := adler0 + x, sum20;
    if adler >= BASE {
      adler := adler - BASE;
    }
    sum2 := sum2 + adler;
    if sum2 >= BASE {
      sum2 := sum2 - BASE;
    }
  }

  /** NMAX bytes between reductions, as long as there are that many, and then the rest. */
  method Blocks(buf: seq<byte>, adler0: u32, sum20: u32, noDivide: bool) returns (adler: u32, sum2: u32)
    requires Canonical(Sums(adler0, sum20))
    ensures Sums(adler, sum2) == Checksum(Sums(adler0, sum20), buf)
  {
    adler, sum2 := adler0, sum20;
    ghost var s := Sums(adler0, sum20);
    var i := 0;
    while |buf| - i >= NMAX
      invariant 0 <= i <= |buf|
      invariant Canonical(Sums(adler, sum2)) && Sums(adler, sum2) == Checksum(s, buf[..i])
    {
      adler, sum2 := SumUpReduced(buf, i, i + NMAX, adler, sum2, noDivide);
      ChecksumConcat(s, buf[..i], buf[i..i + NMAX]);
      assert buf[..i] + buf[i..i + NMAX] == buf[..i + NMAX];
      i := i + NMAX;
    }
    if i < |buf| {
      adler, sum2 := SumUpReduced(buf, i, |buf|, adler, sum2, noDivide);
      ChecksumConcat(s, buf[..i], buf[i..|buf|]);
      assert buf[..i] + buf[i..|buf|] == buf;
    } else {
      assert buf[..i] == buf;
    }
  }

  /** adler32_z: the word of the sums defined byte by byte. */
  method Adler32Z(adler: u32, buf: seq<byte>, noDivide: bool) returns (r: u32)
    requires Canonical(Parts(adler))
    ensures r == Word(Checksum(Parts(adler), buf))
    ensures Canonical(Parts(r)) && Parts(r) == Checksum(Parts(adler), buf)
  {
    var s := Parts(adler);
    var a: u32, b: u32;
    if |buf| == 1 {
      a, b := OneByte(buf[0], s.a, s.b);
      assert buf[..0] == [] && Checksum(s, buf[..0]) == s;
    } else if |buf| < 16 {
      a, b := ShortInput(buf, s.a, s.b, noDivide);
    } else {
      a, b := Blocks(buf, s.a, s.b, noDivide);
    }
    CanonicalWord(Sums(a, b));
    r := a + 65536 * b;
  }

  lemma CanonicalWord(s: Sums)
    requires Canonical(s)
    ensures Word(s) < TWO32 && Parts(Word(s)) == s
  {
  }

  // ---- combining ----

  const INITIAL: Sums := Sums(1, 0)

  /** Starting from other sums moves the result by amounts that depend only on the length. */
  lemma {:induction false} RawShift(s: Sums, bytes: seq<byte>)
    requires s.a >= 1
    ensures Raw(s, bytes).a == Raw(INITIAL, bytes).a + (s.a - 1)
    ensures Raw(s, bytes).b == Raw(INITIAL, bytes).b + s.b + |bytes| * (s.a - 1)
    decreases |bytes|
  {
    if bytes != [] {
      RawShift(s, bytes[..|bytes| - 1]);
      assert |bytes| * (s.a - 1) == (|bytes| - 1) * (s.a - 1) + (s.a - 1);
    }
  }

  /** The sums of a concatenation from the sums of its parts. */
  function Combined(s1: Sums, s2: Sums, rem: nat): Sums
    requires rem < BASE
  {
    Sums((s1.a + s2.a + BASE - 1) % BASE, (s1.b + s2.b + rem * s1.a + BASE - rem) % BASE)
  }

  /** Adding multiples of BASE and reducing summands does not change a remainder. */
  lemma CombineMod(b1: nat, w: nat, n: nat, a1: nat)
    requires a1 >= 1
    ensures (b1 + w + n * (a1 - 1)) % BASE
            == (b1 + w % BASE + (n % BASE) * a1 + BASE - n % BASE) % BASE
  {
    var q, r := n / BASE, n % BASE;
    assert n * (a1 - 1) == BASE * (q * (a1 - 1)) + r * (a1 - 1) by {
      assert (BASE * q + r) * (a1 - 1) == BASE * q * (a1 - 1) + r * (a1 - 1);
    }
    assert r * (a1 - 1) == r * a1 - r;
    var base := b1 + w % BASE + r * a1 + BASE - r;
    var k := w / BASE + q * (a1 - 1);
    assert b1 + w + n * (a1 - 1) + BASE == base + BASE * k;
    ModMultiple(base, k);
    ModMultiple(b1 + w + n * (a1 - 1), 1);
  }

  /** The checksum of a concatenation is the combination of the checksums. */
  lemma CombineLaw(x: seq<byte>, y: seq<byte>)
    ensures Checksum(INITIAL, x + y) == Combined(Checksum(INITIAL, x), Checksum(INITIAL, y), |y| % BASE)
  {
    var r1 := Raw(INITIAL, x);
    ChecksumConcat(INITIAL, x, y);
    RawAtLeastOne(x);
    ReduceRaw(INITIAL, x);
    ReduceRaw(INITIAL, y);
    assert Reduce(INITIAL) == INITIAL;
    ReduceRaw(r1, y);
    ShiftedSums(r1, y);
  }

  /** Checksumming from unreduced sums is combining. */
  lemma ShiftedSums(r1: Sums, y: seq<byte>)
    requires r1.a >= 1
    ensures Reduce(Raw(r1, y)) == Combined(Reduce(r1), Reduce(Raw(INITIAL, y)), |y| % BASE)
  {
    hide Combined, Reduce, Raw;
    RawShift(r1, y);
    ShiftedParts(r1, Raw(INITIAL, y), |y|);
  }

  lemma ShiftedParts(r1: Sums, r2: Sums, n: nat)
    requires r1.a >= 1
    ensures Reduce(Sums(r2.a + (r1.a - 1), r2.b + r1.b + n * (r1.a - 1)))
            == Combined(Reduce(r1), Reduce(r2), n % BASE)
  {
    CombineFirst(r1.a, r2.a);
    CombineBoth(r1.b, r2.b, n, r1.a);
  }

  lemma CombineBoth(b1: nat, b2: nat, n: nat, a1: nat)
    requires a1 >= 1
    ensures (b2 + b1 + n * (a1 - 1)) % BASE
            == (b1 % BASE + b2 % BASE + (n % BASE) * (a1 % BASE) + BASE - n % BASE) % BASE
  {
    CombineMod(b1, b2, n, a1);
    CombineSecond(b1, b2, n % BASE, a1);
  }

  lemma {:induction false} RawAtLeastOne(x: seq<byte>)
    ensures Raw(INITIAL, x).a >= 1
    decreases |x|
  {
    if x != [] {
      RawAtLeastOne(x[..|x| - 1]);
    }
  }

  lemma CombineFirst(a1: nat, a2: nat)
    requires a1 >= 1
    ensures (a2 + (a1 - 1)) % BASE == (a1 % BASE + a2 % BASE + BASE - 1) % BASE
  {
    var base := a1 % BASE + a2 % BASE + BASE - 1;
    var k := a1 / BASE + a2 / BASE;
    assert a2 + (a1 - 1) + BASE == base + BASE * k;
    ModMultiple(base, k);
    ModMultiple(a2 + (a1 - 1), 1);
  }

  lemma CombineSecond(b1: nat, b2: nat, r: nat, a1: nat)
    requires r < BASE
    ensures (b1 + b2 % BASE + r * a1 + BASE - r) % BASE
            == (b1 % BASE + b2 % BASE + r * (a1 % BASE) + BASE - r) % BASE
  {
    var base := b1 % BASE + b2 % BASE + r * (a1 % BASE) + BASE - r;
    var k := b1 / BASE + r * (a1 / BASE);
    assert r * a1 == r * (a1 % BASE) + BASE * (r * (a1 / BASE)) by {
      assert a1 == a1 % BASE + BASE * (a1 / BASE);
      assert r * (a1 % BASE + BASE * (a1 / BASE)) == r * (a1 % BASE) + r * (BASE * (a1 / BASE));
    }
    assert b1 + b2 % BASE + r * a1 + BASE - r == base + BASE * k;
    ModMultiple(base, k);
  }

  /** adler32_combine_: the conditional subtractions are enough, and nothing leaves 32 bits. */
  method Adler32Combine(adler1: u32, adler2: u32, len2: int, noDivide: bool) returns (r: u32)
    requires Canonical(Parts(adler1)) && Canonical(Parts(adler2)) && len2 < 0x8000_0000_0000_0000
    ensures len2 < 0 ==> r == 0xFFFF_FFFF
    ensures len2 >= 0 ==> Parts(r) == Combined(Parts(adler1), Parts(adler2), len2 % BASE)
    ensures len2 >= 0 ==> Canonical(Parts(r))
  {
    hide Mod63, Combined;
    if len2 < 0 {
      return 0xFFFF_FFFF;
    }
    Mod63Exact(len2);
    var rem := if noDivide then Mod63(len2) else len2 % BASE;
    var s := CombineSums(Parts(adler1), Parts(adler2), rem, noDivide);
    CanonicalWord(s);
    r := s.a + 65536 * s.b;
  }

  /** The two sums of the whole, from those of its pieces. */
  method CombineSums(s1: Sums, s2: Sums, rem: nat, noDivide: bool) returns (s: Sums)
    requires Canonical(s1) && Canonical(s2) && rem < BASE
    ensures Canonical(s) && s == Combined(s1, s2, rem)
  {
    hide Combined, MOD;
    var sum2 := ScaledSum(rem, s1.a, noDivide);
    FinalMods(s1, s2, rem, sum2);
    var a, b := Normalise(s1.a + s2.a + BASE - 1, sum2 + s1.b + s2.b + BASE - rem);
    Reduced(s1.a + s2.a + BASE - 1, sum2 + s1.b + s2.b + BASE - rem);
    s := Sums(a, b);
  }

  lemma Reduced(a: nat, b: nat)
    ensures Canonical(Sums(a % BASE, b % BASE))
  {
  }

  /** The product of the remainder and the first sum fits 32 bits. */
  method ScaledSum(rem: nat, a: nat, noDivide: bool) returns (sum2: u32)
    requires rem < BASE && a < BASE
    ensures sum2 == rem * a % BASE
  {
    MulMono(rem, a, BASE - 1, BASE - 1);
    sum2 := MOD(noDivide, rem * a);
  }

  /** The conditional subtractions at the end of adler32_combine_. */
  method Normalise(sum10: u32, sum20: u32) returns (sum1: u32, sum2: u32)
    requires sum10 < 3 * BASE && sum20 < 4 * BASE
    ensures sum1 == sum10 % BASE && sum2 == sum20 % BASE
  {
    sum1 := if sum10 >= BASE then sum10 - BASE else sum10;
    sum1 := if sum1 >= BASE then sum1 - BASE else sum1;
    sum2 := if sum20 >= 2 * BASE then sum20 - 2 * BASE else sum20;
    sum2 := if sum2 >= BASE then sum2 - BASE else sum2;
  }

  lemma FinalMods(s1: Sums, s2: Sums, rem: nat, sum2: nat)
    requires Canonical(s1) && Canonical(s2) && rem < BASE
    requires sum2 == rem * s1.a % BASE
    ensures Combined(s1, s2, rem) == Sums((s1.a + s2.a + BASE - 1) % BASE, (sum2 + s1.b + s2.b + BASE - rem) % BASE)
  {
    ReduceSummand(rem * s1.a, s1.b + s2.b + BASE - rem);
  }

  lemma ReduceSummand(p: nat, c: nat)
    ensures (c + p) % BASE == (p % BASE + c) % BASE
  {
    assert c + p == p % BASE + c + BASE * (p / BASE);
    ModMultiple(p % BASE + c, p / BASE);
  }
}
