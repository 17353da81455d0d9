/**
 The blobs the cache keeps in memcached: four buffers in one value, and values too big for
 memcached cut into chunks that are found again through an index.
 */
module MemcachedBlob {
  import opened Bytes
  import opened Decimals

  type Key = seq<char>

  /** What MD4 makes of a string. Which function it is does not matter here. */
  type Digest = s: seq<byte> | |s| == 16 witness [0, 0, 0, 0, 0, 0, 0, 0, 0, 0, 0, 0, 0, 0, 0, 0]
  type Md = seq<byte> -> Digest

  const MAX_VALUE_SIZE: nat := 1024000
  const SPLIT_VALUE_SIZE: nat := 1024000

  /** "CCH1" and "CCBM". */
  const MAGIC: seq<byte> := [67, 67, 72, 49]
  const BIG: seq<byte> := [67, 67, 66, 77]

  // ---- numbers ----

  /** htonl: the low 32 bits of a number, high-order byte first. */
  function Be4(n: nat): (r: seq<byte>)
    ensures |r| == 4
  {
    [n / 16777216 % 256, n / 65536 % 256, n / 256 % 256, n % 256]
  }

  /** ntohl, of the four bytes at a place. */
  function Read4(b: seq<byte>, p: nat): (n: nat)
    requires p + 4 <= |b|
    ensures n < TWO32
  {
    var x: int, y: int, z: int, w: int := b[p], b[p + 1], b[p + 2], b[p + 3];
    x * 16777216 + y * 65536 + z * 256 + w
  }

  lemma Be4Read(n: nat)
    requires n < TWO32
    ensures Read4(Be4(n), 0) == n
  {
    var h, l := n / 65536, n % 65536;
    assert n / 16777216 == h / 256 && h / 256 < 256;
    assert n / 256 % 256 == l / 256 && n % 256 == l % 256;
  }

  lemma ReadBe4(b: seq<byte>)
    requires |b| == 4
    ensures Be4(Read4(b, 0)) == b
  {
    var x: int, y: int, z: int, w: int := b[0], b[1], b[2], b[3];
    HighDigits(x, y, z, w);
    LowDigits(x, y, z, w);
    assert b == [x, y, z, w];
  }

  lemma HighDigits(x: int, y: int, z: int, w: int)
    requires 0 <= x < 256 && 0 <= y < 256 && 0 <= z < 256 && 0 <= w < 256
    ensures var n := x * 16777216 + y * 65536 + z * 256 + w;
            n / 16777216 == x && n / 65536 == 256 * x + y
  {
  }

  lemma LowDigits(x: int, y: int, z: int, w: int)
    requires 0 <= x < 256 && 0 <= y < 256 && 0 <= z < 256 && 0 <= w < 256
    ensures var n := x * 16777216 + y * 65536 + z * 256 + w;
            n / 256 == 65536 * x + 256 * y + z && n % 256 == w
  {
  }

  // ---- the four buffers ----

  /** The object file, the compiler's messages, the diagnostics and the dependencies. */
  type Buffers = s: seq<seq<byte>> | |s| == 4 witness [[], [], [], []]

  function Part(x: seq<byte>): seq<byte> { Be4(|x|) + x }

  function AllParts(xs: seq<seq<byte>>): seq<byte> {
    if xs == [] then [] else Part(xs[0]) + AllParts(xs[1..])
  }

  function Encode(xs: Buffers): seq<byte> { MAGIC + AllParts(xs) }

  predicate Short(xs: seq<seq<byte>>) {
    forall i :: 0 <= i < |xs| ==> |xs[i]| < TWO32
  }

  /** One buffer at a place: it and where it ends. */
  function ReadPart(v: seq<byte>, p: nat): (r: Option<(seq<byte>, nat)>)
    requires p <= |v|
    ensures r.Some? ==> p < r.value.1 <= |v|
  {
    if |v| - p < 4 then None
    else if |v| - p - 4 < Read4(v, p) then None
    else Some((v[p + 4..p + 4 + Read4(v, p)], p + 4 + Read4(v, p)))
  }

  /** Some buffers, one behind the other. */
  function ReadParts(v: seq<byte>, p: nat, count: nat): (r: Option<seq<seq<byte>>>)
    requires p <= |v|
    ensures r.Some? ==> |r.value| == count
    decreases count
  {
    if count == 0 then Some([])
    else
      var first := ReadPart(v, p);
      if first == None then None
      else
        var rest := ReadParts(v, first.value.1, count - 1);
        if rest == None then None else Some([first.value.0] + rest.value)
  }

  function Decode(v: seq<byte>): Option<Buffers> {
    if |v| < 20 || v[..4] != MAGIC then None else ReadParts(v, 4, 4)
  }

  /** A buffer is read at a place exactly when it was written there. */
  lemma ReadPartExact(v: seq<byte>, p: nat, x: seq<byte>)
    requires p <= |v| && |x| < TWO32
    ensures ReadPart(v, p) == Some((x, p + 4 + |x|)) <==> p + 4 + |x| <= |v| && v[p..p + 4 + |x|] == Part(x)
  {
    if p + 4 <= |v| {
      var head := v[p..p + 4];
      assert Read4(v, p) == Read4(head, 0);
      ReadBe4(head);
      Be4Read(|x|);
      if p + 4 + |x| <= |v| {
        assert v[p..p + 4 + |x|] == head + v[p + 4..p + 4 + |x|];
        SplitEqual(head, v[p + 4..p + 4 + |x|], Be4(|x|), x);
      }
    }
  }

  lemma SplitEqual(a: seq<byte>, b: seq<byte>, c: seq<byte>, d: seq<byte>)
    requires |a| == |c|
    ensures a + b == c + d <==> a == c && b == d
  {
    assert (a + b)[..|a|] == a && (a + b)[|a|..] == b;
    assert (c + d)[..|c|] == c && (c + d)[|c|..] == d;
  }

  /** Reading a buffer, told by what stands at the place. */
  lemma ReadPartHolds(v: seq<byte>, p: nat, x: seq<byte>)
    requires p <= |v| && |x| < TWO32
    ensures ReadPart(v, p) == Some((x, p + |Part(x)|)) <==> Holds(v, p, Part(x))
    ensures ReadPart(v, p).Some? && ReadPart(v, p).value.0 == x ==> ReadPart(v, p).value.1 == p + |Part(x)|
  {
    ReadPartExact(v, p, x);
    HoldsSlice(v, p, Part(x));
  }

  lemma {:induction false} ReadPartsHolds(v: seq<byte>, p: nat, xs: seq<seq<byte>>)
    requires p <= |v| && Short(xs)
    ensures ReadParts(v, p, |xs|) == Some(xs) <==> Holds(v, p, AllParts(xs))
    decreases |xs|
  {
    if xs != [] {
      var x, rest := xs[0], xs[1..];
      assert xs == [x] + rest;
      ReadPartHolds(v, p, x);
      HoldsSplit(v, p, Part(x), AllParts(rest));
      if Holds(v, p, Part(x)) {
        ReadPartsHolds(v, p + |Part(x)|, rest);
      }
    }
  }

  lemma {:induction false} AllPartsLength(xs: seq<seq<byte>>)
    ensures |AllParts(xs)| >= 4 * |xs|
    decreases |xs|
  {
    if xs != [] {
      AllPartsLength(xs[1..]);
    }
  }

  /** A value is decoded to four buffers exactly when it begins with their encoding. */
  lemma DecodeExact(v: seq<byte>, xs: Buffers)
    requires Short(xs)
    ensures Decode(v) == Some(xs) <==> Holds(v, 0, Encode(xs))
  {
    HoldsSplit(v, 0, MAGIC, AllParts(xs));
    HoldsSlice(v, 0, MAGIC);
    AllPartsLength(xs);
    if |v| >= 4 {
      ReadPartsHolds(v, 4, xs);
    }
  }

  /** The bytes of a blob: the letters "CCH1", and each buffer behind its length, high-order byte
      first. */
  lemma BlobBytes(a: seq<byte>, b: seq<byte>, c: seq<byte>, d: seq<byte>)
    ensures Encode([a, b, c, d]) == [67, 67, 72, 49] + (Be4(|a|) + a + (Be4(|b|) + b + (Be4(|c|) + c + (Be4(|d|) + d))))
    ensures Be4(0x0102_0304) == [1, 2, 3, 4]
  {
    hide Be4;
    LastPart(d);
    assert [c, d][1..] == [d] && [b, c, d][1..] == [c, d] && [a, b, c, d][1..] == [b, c, d];
    assert AllParts([c, d]) == Part(c) + AllParts([d]);
    assert AllParts([b, c, d]) == Part(b) + AllParts([c, d]);
    assert AllParts([a, b, c, d]) == Part(a) + AllParts([b, c, d]);
    KnownBe4();
  }

  lemma LastPart(d: seq<byte>)
    ensures AllParts([d]) == Be4(|d|) + d
  {
    assert [d][1..] == [] && AllParts([]) == [];
    assert Part(d) + [] == Part(d);
  }

  lemma KnownBe4()
    ensures Be4(0x0102_0304) == [1, 2, 3, 4]
  {
  }

  // ---- chunk keys ----

  function Hex(bytes: seq<byte>): (s: Key)
    ensures |s| == 2 * |bytes|
  {
    if bytes == [] then []
    else Hex(bytes[..|bytes| - 1]) + [Digit(bytes[|bytes| - 1] / 16), Digit(bytes[|bytes| - 1] % 16)]
  }

  /** format_hash_as_string: the digest in hexadecimal and the size. */
  function KeyString(digest: seq<byte>, size: nat): Key {
    Hex(digest) + ['-'] + Decimal(size)
  }

  lemma {:induction false} HexInjective(a: seq<byte>, b: seq<byte>)
    requires Hex(a) == Hex(b)
    ensures a == b
    decreases |a|
  {
    assert |a| == |b|;
    if a != [] {
      var x, y := Hex(a), Hex(b);
      var i, j := a[|a| - 1], b[|b| - 1];
      assert x[|x| - 2] == Digit(i / 16) && x[|x| - 1] == Digit(i % 16);
      assert y[|y| - 2] == Digit(j / 16) && y[|y| - 1] == Digit(j % 16);
      assert i == j;
      assert x[..|x| - 2] == Hex(a[..|a| - 1]) && y[..|y| - 2] == Hex(b[..|b| - 1]);
      HexInjective(a[..|a| - 1], b[..|b| - 1]);
    }
  }

  /** A key known by heart. */
  lemma KnownKey()
    ensures KeyString([10, 255], 12) == ['0', 'a', 'f', 'f', '-', '1', '2']
  {
    assert [10, 255][..1] == [10] && [10][..0] == [];
    assert Hex([10]) == ['0', 'a'];
    assert Decimal(1) == ['1'];
  }

  /** Different digests or sizes have different keys. */
  lemma KeyInjective(a: seq<byte>, m: nat, b: seq<byte>, n: nat)
    requires |a| == |b|
    ensures KeyString(a, m) == KeyString(b, n) <==> a == b && m == n
  {
    if KeyString(a, m) == KeyString(b, n) {
      var x, y := KeyString(a, m), KeyString(b, n);
      assert x[..2 * |a|] == Hex(a) && y[..2 * |b|] == Hex(b);
      HexInjective(a, b);
      assert x[2 * |a| + 1..] == Decimal(m) && y[2 * |b| + 1..] == Decimal(n);
      DecimalInjective(m, n);
    }
  }

  // ---- chunks ----

  /** How many chunks a length takes. */
  function NumKeys(length: nat): nat { (length + SPLIT_VALUE_SIZE - 1) / SPLIT_VALUE_SIZE }

  /** The chunks cover the value: all but the last are full, and the last is not empty. */
  lemma NumKeysExact(length: nat, i: nat)
    ensures i < NumKeys(length) <==> i * SPLIT_VALUE_SIZE < length
  {
  }

  function ChunkEnd(length: nat, i: nat): (e: nat)
    ensures e <= length
  {
    if (i + 1) * SPLIT_VALUE_SIZE < length then (i + 1) * SPLIT_VALUE_SIZE else length
  }

  function Chunk(v: seq<byte>, i: nat): seq<byte>
    requires i * SPLIT_VALUE_SIZE < |v|
  {
    v[i * SPLIT_VALUE_SIZE..ChunkEnd(|v|, i)]
  }

  function ChunkKey(md: Md, v: seq<byte>, i: nat): Key
    requires i * SPLIT_VALUE_SIZE < |v|
  {
    KeyString(md(Chunk(v, i)), |Chunk(v, i)|)
  }

  predicate Distinct(keys: seq<Key>) {
    forall i, j :: 0 <= i < j < |keys| ==> keys[i] != keys[j]
  }

  // ---- putting chunks together ----

  /** Where a chunk goes: behind all before it. */
  function Offset(lens: seq<nat>, i: nat): nat
    requires i <= |lens|
  {
    if i == 0 then 0 else Offset(lens, i - 1) + lens[i - 1]
  }

  lemma {:induction false} OffsetMono(lens: seq<nat>, i: nat, j: nat)
    requires i <= j <= |lens|
    ensures Offset(lens, i) <= Offset(lens, j)
    decreases j
  {
    if i < j {
      OffsetMono(lens, i, j - 1);
    }
  }

  predicate Answered(results: seq<(Key, seq<byte>)>, k: Key) {
    exists j :: 0 <= j < |results| && results[j].0 == k
  }

  /** The answers of the server are one for each key, with the length expected of it. */
  predicate Complete(keys: seq<Key>, lens: seq<nat>, results: seq<(Key, seq<byte>)>)
    requires |keys| == |lens|
  {
    && Distinct(keys)
    && (forall i, j :: 0 <= i < j < |results| ==> results[i].0 != results[j].0)
    && (forall j :: 0 <= j < |results| ==> results[j].0 in keys)
    && (forall i :: 0 <= i < |keys| ==> Answered(results, keys[i]))
    && forall i, j :: 0 <= i < |keys| && 0 <= j < |results| && results[j].0 == keys[i] ==> |results[j].1| == lens[i]
  }

  /** A string stands in a buffer. */
  predicate At(buf: seq<byte>, p: nat, x: seq<byte>) {
    p + |x| <= |buf| && forall q :: p <= q < p + |x| ==> buf[q] == x[q - p]
  }

  /** The first key that is the one returned. */
  method FindKey(keys: seq<Key>, k: Key) returns (i: nat)
    ensures i <= |keys| && forall a :: 0 <= a < i ==> keys[a] != k
    ensures i < |keys| ==> keys[i] == k
  {
    i := 0;
    while i < |keys|
      invariant i <= |keys| && forall a :: 0 <= a < i ==> keys[a] != k
    {
      if |k| == |keys[i]| && k == keys[i] {
        return;
      }
      i := i + 1;
    }
  }

  /** No earlier key is the same. */
  predicate First(keys: seq<Key>, i: nat)
    requires i < |keys|
  {
    forall b :: 0 <= b < i ==> keys[b] != keys[i]
  }

  /** One answer stands where its key says. */
  ghost predicate PlacedOne(keys: seq<Key>, lens: seq<nat>, results: seq<(Key, seq<byte>)>,
                            idx: seq<nat>, who: seq<int>, buf: seq<byte>, a: nat)
    requires |keys| == |lens| == |who| && a < |results| && a < |idx|
  {
    && idx[a] < |keys| && keys[idx[a]] == results[a].0 && First(keys, idx[a])
    && who[idx[a]] == a
    && |results[a].1| == lens[idx[a]] && At(buf, Offset(lens, idx[a]), results[a].1)
  }

  /** The first `j` answers have been taken: `idx` says for which key, `who` which key has one. */
  ghost predicate Placed(keys: seq<Key>, lens: seq<nat>, results: seq<(Key, seq<byte>)>, j: nat,
                         idx: seq<nat>, who: seq<int>, buf: seq<byte>)
    requires |keys| == |lens| && j <= |results|
  {
    && |idx| == j && |who| == |keys|
    && (forall a :: 0 <= a < j ==> PlacedOne(keys, lens, results, idx, who, buf, a))
    && (forall i :: 0 <= i < |who| ==> who[i] < j && (who[i] >= 0 ==> idx[who[i]] == i))
  }

  lemma PlaceNext(keys: seq<Key>, lens: seq<nat>, results: seq<(Key, seq<byte>)>, j: nat, idx: seq<nat>, who: seq<int>,
                  buf: seq<byte>, i: nat, buf': seq<byte>)
    requires |keys| == |lens| && j < |results| && Placed(keys, lens, results, j, idx, who, buf)
    requires i < |keys| && keys[i] == results[j].0 && First(keys, i) && who[i] < 0 && |results[j].1| == lens[i]
    requires At(buf', Offset(lens, i), results[j].1) && |buf'| == |buf|
    requires forall q :: 0 <= q < |buf| && !(Offset(lens, i) <= q < Offset(lens, i) + lens[i]) ==> buf'[q] == buf[q]
    ensures Placed(keys, lens, results, j + 1, idx + [i], who[i := j], buf')
  {
    var idx', who' := idx + [i], who[i := j];
    forall a | 0 <= a < |idx'| ensures PlacedOne(keys, lens, results, idx', who', buf', a) {
      if a < j {
        assert PlacedOne(keys, lens, results, idx, who, buf, a);
        Apart(lens, idx[a], i);
      }
    }
  }

  /** Different chunks do not overlap. */
  lemma Apart(lens: seq<nat>, i: nat, j: nat)
    requires i < |lens| && j < |lens| && i != j
    ensures Offset(lens, i) + lens[i] <= Offset(lens, j) || Offset(lens, j) + lens[j] <= Offset(lens, i)
  {
    if i < j {
      OffsetMono(lens, i + 1, j);
    } else {
      OffsetMono(lens, j + 1, i);
    }
  }

  /** A second answer for a key spoils the whole. */
  lemma SeenTwice(keys: seq<Key>, lens: seq<nat>, results: seq<(Key, seq<byte>)>, j: nat, idx: seq<nat>, who: seq<int>,
                  buf: seq<byte>, i: nat)
    requires |keys| == |lens| && j < |results| && Placed(keys, lens, results, j, idx, who, buf)
    requires i < |keys| && keys[i] == results[j].0 && who[i] >= 0
    ensures !Complete(keys, lens, results)
  {
    assert PlacedOne(keys, lens, results, idx, who, buf, who[i]);
  }

  /** So does a key without an answer. */
  lemma NotSeen(keys: seq<Key>, lens: seq<nat>, results: seq<(Key, seq<byte>)>, idx: seq<nat>, who: seq<int>,
                buf: seq<byte>, i: nat)
    requires |keys| == |lens| && Placed(keys, lens, results, |results|, idx, who, buf)
    requires i < |keys| && who[i] < 0
    ensures !Complete(keys, lens, results)
  {
    forall a | 0 <= a < |results| ensures results[a].0 == keys[i] ==> !Distinct(keys) {
      assert PlacedOne(keys, lens, results, idx, who, buf, a);
      if results[a].0 == keys[i] {
        SameKey(keys, idx[a], i);
      }
    }
    assert Answered(results, keys[i]) ==> !Distinct(keys);
  }

  lemma SameKey(keys: seq<Key>, x: nat, y: nat)
    requires x < |keys| && y < |keys| && x != y && keys[x] == keys[y]
    ensures !Distinct(keys)
  {
    if x < y {
      assert keys[x] == keys[y];
    } else {
      assert keys[y] == keys[x];
    }
  }

  lemma AllSeen(keys: seq<Key>, lens: seq<nat>, results: seq<(Key, seq<byte>)>, idx: seq<nat>, who: seq<int>, buf: seq<byte>)
    requires |keys| == |lens| && Placed(keys, lens, results, |results|, idx, who, buf)
    requires forall i :: 0 <= i < |who| ==> who[i] >= 0
    ensures Complete(keys, lens, results)
    ensures forall i, j :: 0 <= i < |keys| && 0 <= j < |results| && results[j].0 == keys[i] ==>
              At(buf, Offset(lens, i), results[j].1)
  {
    KeysDistinct(keys, lens, results, idx, who, buf);
    forall i, j | 0 <= i < |keys| && 0 <= j < |results| && results[j].0 == keys[i]
      ensures |results[j].1| == lens[i] && At(buf, Offset(lens, i), results[j].1)
    {
      ForItsKey(keys, lens, results, idx, who, buf, i, j);
    }
    ResultsDistinct(keys, lens, results, idx, who, buf);
  }

  lemma ResultsDistinct(keys: seq<Key>, lens: seq<nat>, results: seq<(Key, seq<byte>)>, idx: seq<nat>, who: seq<int>, buf: seq<byte>)
    requires |keys| == |lens| && Placed(keys, lens, results, |results|, idx, who, buf) && Distinct(keys)
    ensures forall j :: 0 <= j < |results| ==> results[j].0 in keys
    ensures forall i, j :: 0 <= i < j < |results| ==> results[i].0 != results[j].0
  {
    forall j | 0 <= j < |results| ensures results[j].0 in keys {
      assert PlacedOne(keys, lens, results, idx, who, buf, j);
    }
    forall i, j | 0 <= i < j < |results| ensures results[i].0 != results[j].0 {
      assert PlacedOne(keys, lens, results, idx, who, buf, j);
      if results[i].0 == results[j].0 {
        ForItsKey(keys, lens, results, idx, who, buf, idx[j], i);
      }
    }
  }

  lemma KeysDistinct(keys: seq<Key>, lens: seq<nat>, results: seq<(Key, seq<byte>)>, idx: seq<nat>, who: seq<int>, buf: seq<byte>)
    requires |keys| == |lens| && Placed(keys, lens, results, |results|, idx, who, buf)
    requires forall i :: 0 <= i < |who| ==> who[i] >= 0
    ensures Distinct(keys)
    ensures forall i :: 0 <= i < |keys| ==> Answered(results, keys[i])
  {
    forall i | 0 <= i < |keys| ensures First(keys, i) {
      assert PlacedOne(keys, lens, results, idx, who, buf, who[i]);
    }
    forall i | 0 <= i < |keys| ensures Answered(results, keys[i]) {
      assert PlacedOne(keys, lens, results, idx, who, buf, who[i]);
      assert results[who[i]].0 == keys[i];
    }
    forall i, j | 0 <= i < j < |keys| ensures keys[i] != keys[j] {
      assert First(keys, j);
    }
  }

  lemma ForItsKey(keys: seq<Key>, lens: seq<nat>, results: seq<(Key, seq<byte>)>, idx: seq<nat>, who: seq<int>, buf: seq<byte>,
                  i: nat, j: nat)
    requires |keys| == |lens| && Placed(keys, lens, results, |results|, idx, who, buf) && Distinct(keys)
    requires i < |keys| && j < |results| && results[j].0 == keys[i]
    ensures |results[j].1| == lens[i] && At(buf, Offset(lens, i), results[j].1) && who[i] == j
  {
    assert PlacedOne(keys, lens, results, idx, who, buf, j);
    assert idx[j] == i;
  }

  /** The loop of memccached_big_get over what the server returns, in whatever order: it puts
      the value together exactly when the answers are complete. */
  method Assemble(keys: seq<Key>, lens: seq<nat>, offsets: seq<nat>, total: nat, results: seq<(Key, seq<byte>)>)
    returns (r: Option<seq<byte>>)
    requires |keys| == |lens| == |offsets| && total == Offset(lens, |lens|)
    requires forall i :: 0 <= i < |lens| ==> offsets[i] == Offset(lens, i)
    ensures r.Some? <==> Complete(keys, lens, results)
    ensures r.Some? ==> |r.value| == total
    ensures r.Some? ==> forall i, j :: 0 <= i < |keys| && 0 <= j < |results| && results[j].0 == keys[i] ==>
                          At(r.value, Offset(lens, i), results[j].1)
  {
    var buf := new byte[total];
    var seen := seq(|keys|, _ => false);
    ghost var idx: seq<nat>, who: seq<int> := [], seq(|keys|, _ => -1);
    var j := 0;
    while j < |results|
      invariant j <= |results| && |seen| == |keys|
      invariant Placed(keys, lens, results, j, idx, who, buf[..])
      invariant forall i :: 0 <= i < |keys| ==> seen[i] == (who[i] >= 0)
    {
      var i := FindKey(keys, results[j].0);
      if i == |keys| {
        return None;
      }
      if seen[i] {
        SeenTwice(keys, lens, results, j, idx, who, buf[..], i);
        return None;
      }
      seen := seen[i := true];
      if |results[j].1| != lens[i] {
        return None;
      }
      ghost var before := buf[..];
      OffsetMono(lens, i + 1, |lens|);
      Copy(buf, offsets[i], results[j].1);
      PlaceNext(keys, lens, results, j, idx, who, before, i, buf[..]);
      idx, who := idx + [i], who[i := j];
      j := j + 1;
    }
    var i := 0;
    while i < |keys|
      invariant i <= |keys| && forall a :: 0 <= a < i ==> seen[a]
    {
      if !seen[i] {
        NotSeen(keys, lens, results, idx, who, buf[..], i);
        return None;
      }
      i := i + 1;
    }
    AllSeen(keys, lens, results, idx, who, buf[..]);
    r := Some(buf[..]);
  }

  /** memcpy into a buffer. */
  method Copy(buf: array<byte>, p: nat, x: seq<byte>)
    requires p + |x| <= buf.Length
    modifies buf
    ensures At(buf[..], p, x)
    ensures forall q :: 0 <= q < buf.Length && !(p <= q < p + |x|) ==> buf[q] == old(buf[q])
  {
    forall q | p <= q < p + |x| {
      buf[q] := x[q - p];
    }
  }
}
