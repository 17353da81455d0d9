/**
 Storing blobs in memcached and getting them back. The server is a map from keys to values
 that answers a request for several keys in an order of its own.
 */
module Memcached {
  import opened Bytes
  import opened MemcachedBlob

  // ---- the index of a big value ----

  /** The entry of a chunk: its digest and its length. */
  function Entry(md: Md, chunk: seq<byte>): (r: seq<byte>)
    ensures |r| == 20
  {
    md(chunk) + Be4(|chunk|)
  }

  /** The first `n` entries. */
  function Entries(md: Md, v: seq<byte>, n: nat): (r: seq<byte>)
    requires n <= NumKeys(|v|)
    ensures |r| == 20 * n
  {
    if n == 0 then []
    else
      NumKeysExact(|v|, n - 1);
      Entries(md, v, n - 1) + Entry(md, Chunk(v, n - 1))
  }

  function Header(n: nat, length: nat): seq<byte> {
    BIG + Be4(n) + Be4(16) + Be4(0) + Be4(length)
  }

  function Index(md: Md, v: seq<byte>): seq<byte> {
    Header(NumKeys(|v|), |v|) + Entries(md, v, NumKeys(|v|))
  }

  /** The first twenty bytes of an index: the letters "CCBM", the number of chunks, the size of a
      digest, nothing, and the length of the value; then each chunk's digest and length. */
  lemma IndexBytes(md: Md, v: seq<byte>, i: nat)
    requires i < NumKeys(|v|)
    ensures var index, n := Index(md, v), NumKeys(|v|);
      && |index| == 20 + 20 * n && index[..4] == [67, 67, 66, 77] && index[4..8] == Be4(n)
      && index[8..16] == [0, 0, 0, 16, 0, 0, 0, 0] && index[16..20] == Be4(|v|)
      && index[20 + 20 * i..36 + 20 * i] == md(ChunkAt(v, i)) && index[36 + 20 * i..40 + 20 * i] == Be4(|ChunkAt(v, i)|)
  {
    var h, e := Header(NumKeys(|v|), |v|), Entries(md, v, NumKeys(|v|));
    HeaderBytes(NumKeys(|v|), |v|);
    EntryIs(md, v, NumKeys(|v|), i);
    var index := h + e;
    assert index[20 + 20 * i..36 + 20 * i] == e[20 * i..20 * i + 16];
    assert index[36 + 20 * i..40 + 20 * i] == e[20 * i + 16..20 * i + 20];
  }

  lemma HeaderBytes(n: nat, length: nat)
    ensures var h := Header(n, length);
      && |h| == 20 && h[..4] == [67, 67, 66, 77] && h[4..8] == Be4(n)
      && h[8..16] == [0, 0, 0, 16, 0, 0, 0, 0] && h[16..20] == Be4(length)
  {
    assert Be4(16) == [0, 0, 0, 16] && Be4(0) == [0, 0, 0, 0];
  }

  lemma {:induction false} EntryIs(md: Md, v: seq<byte>, n: nat, i: nat)
    requires i < n <= NumKeys(|v|)
    ensures var e := Entries(md, v, n);
      e[20 * i..20 * i + 16] == md(ChunkAt(v, i)) && e[20 * i + 16..20 * i + 20] == Be4(|ChunkAt(v, i)|)
    decreases n
  {
    hide Be4;
    NumKeysExact(|v|, n - 1);
    var front, last := Entries(md, v, n - 1), Entry(md, Chunk(v, n - 1));
    if i < n - 1 {
      EntryIs(md, v, n - 1, i);
      assert (front + last)[20 * i..20 * i + 16] == front[20 * i..20 * i + 16];
      assert (front + last)[20 * i + 16..20 * i + 20] == front[20 * i + 16..20 * i + 20];
    } else {
      assert (front + last)[20 * i..20 * i + 16] == last[..16] == md(ChunkAt(v, i));
      assert (front + last)[20 * i + 16..20 * i + 20] == last[16..] == Be4(|ChunkAt(v, i)|);
    }
  }

  /** The length the index gives for a chunk. */
  function EntryLength(index: seq<byte>, i: nat): nat
    requires 40 + 20 * i <= |index|
  {
    Read4(index, 36 + 20 * i)
  }

  /** The key the index gives for a chunk. */
  function EntryKey(index: seq<byte>, i: nat): Key
    requires 40 + 20 * i <= |index|
  {
    KeyString(index[20 + 20 * i..36 + 20 * i], EntryLength(index, i))
  }

  function Keys(index: seq<byte>, n: nat): (keys: seq<Key>)
    requires 20 + 20 * n <= |index|
    ensures |keys| == n
  {
    seq(n, i requires 0 <= i < n => EntryKey(index, i))
  }

  function Lengths(index: seq<byte>, n: nat): (lens: seq<nat>)
    requires 20 + 20 * n <= |index|
    ensures |lens| == n
  {
    seq(n, i requires 0 <= i < n => EntryLength(index, i))
  }

  /** What memccached_big_get takes for granted of an index: it asserts the sizes, and reads as
      many entries as the index says there are. */
  predicate WellFormed(index: seq<byte>) {
    && |index| >= 20
    && |index| >= 20 + 20 * Read4(index, 4)
    && Read4(index, 8) == 16 && Read4(index, 12) == 0
    && Offset(Lengths(index, Read4(index, 4)), Read4(index, 4)) == Read4(index, 16)
  }

  /** Every entry stands at its place. */
  lemma {:induction false} EntryAt(md: Md, v: seq<byte>, n: nat, i: nat)
    requires i < n <= NumKeys(|v|) && i * SPLIT_VALUE_SIZE < |v|
    ensures Entries(md, v, n)[20 * i..20 * i + 20] == Entry(md, Chunk(v, i))
    decreases n
  {
    NumKeysExact(|v|, n - 1);
    var before, last := Entries(md, v, n - 1), Entry(md, Chunk(v, n - 1));
    PlaceOf(before, last, n - 1, i);
    if i < n - 1 {
      EntryAt(md, v, n - 1, i);
    }
  }

  lemma PlaceOf(before: seq<byte>, last: seq<byte>, n: nat, i: nat)
    requires |before| == 20 * n && |last| == 20 && i <= n
    ensures (before + last)[20 * i..20 * i + 20] == if i < n then before[20 * i..20 * i + 20] else last
  {
  }

  lemma ReadIn(b: seq<byte>, p: nat, n: nat)
    requires p + 4 <= |b| && n < TWO32 && b[p..p + 4] == Be4(n)
    ensures Read4(b, p) == n
  {
    Be4Read(n);
    assert b[p] == b[p..p + 4][0] && b[p + 1] == b[p..p + 4][1] && b[p + 2] == b[p..p + 4][2] && b[p + 3] == b[p..p + 4][3];
  }

  lemma FourParts(index: seq<byte>, m: seq<byte>, a: seq<byte>, b: seq<byte>, c: seq<byte>, d: seq<byte>, rest: seq<byte>)
    requires |m| == |a| == |b| == |c| == |d| == 4 && index == m + a + b + c + d + rest
    ensures index[..4] == m && index[4..8] == a && index[8..12] == b && index[12..16] == c && index[16..20] == d
  {
  }

  lemma HeaderReads(n: nat, length: nat, rest: seq<byte>)
    requires n < TWO32 && length < TWO32
    ensures var index := Header(n, length) + rest;
            && |Header(n, length)| == 20 && index[..4] == BIG
            && Read4(index, 4) == n && Read4(index, 8) == 16 && Read4(index, 12) == 0 && Read4(index, 16) == length
  {
    var index := Header(n, length) + rest;
    FourParts(index, BIG, Be4(n), Be4(16), Be4(0), Be4(length), rest);
    ReadIn(index, 4, n);
    ReadIn(index, 8, 16);
    ReadIn(index, 12, 0);
    ReadIn(index, 16, length);
  }

  /** The entries of an index give the chunks' keys and lengths. */
  lemma EntryReads(md: Md, v: seq<byte>, i: nat)
    requires |v| < TWO32 && i < NumKeys(|v|) && i * SPLIT_VALUE_SIZE < |v|
    ensures |Index(md, v)| == 20 + 20 * NumKeys(|v|)
    ensures EntryLength(Index(md, v), i) == |Chunk(v, i)| && EntryKey(Index(md, v), i) == ChunkKey(md, v, i)
  {
    var n, index := NumKeys(|v|), Index(md, v);
    EntryAt(md, v, n, i);
    EntryInIndex(Header(n, |v|), Entries(md, v, n), i, Entry(md, Chunk(v, i)));
    EntryParts(md, Chunk(v, i));
    ReadIn(index, 36 + 20 * i, |Chunk(v, i)|);
  }

  lemma EntryParts(md: Md, c: seq<byte>)
    ensures Entry(md, c)[..16] == md(c) && Entry(md, c)[16..20] == Be4(|c|)
  {
  }

  lemma EntryInIndex(header: seq<byte>, entries: seq<byte>, i: nat, entry: seq<byte>)
    requires |header| == 20 && |entries| >= 20 * i + 20 && entries[20 * i..20 * i + 20] == entry
    ensures (header + entries)[20 + 20 * i..36 + 20 * i] == entry[..16]
    ensures (header + entries)[36 + 20 * i..40 + 20 * i] == entry[16..20]
  {
    assert (header + entries)[20 + 20 * i..40 + 20 * i] == entry;
  }

  // ---- all the chunks of a value ----

  function ChunkAt(v: seq<byte>, i: nat): seq<byte>
    requires i < NumKeys(|v|)
  {
    NumKeysExact(|v|, i);
    Chunk(v, i)
  }

  function KeyAt(md: Md, v: seq<byte>, i: nat): Key
    requires i < NumKeys(|v|)
  {
    NumKeysExact(|v|, i);
    ChunkKey(md, v, i)
  }

  function AllChunks(v: seq<byte>): (r: seq<seq<byte>>)
    ensures |r| == NumKeys(|v|)
  {
    seq(NumKeys(|v|), i requires 0 <= i < NumKeys(|v|) => ChunkAt(v, i))
  }

  function AllKeys(md: Md, v: seq<byte>): (r: seq<Key>)
    ensures |r| == NumKeys(|v|)
  {
    seq(NumKeys(|v|), i requires 0 <= i < NumKeys(|v|) => KeyAt(md, v, i))
  }

  /** No two chunks of the value have the same key. */
  predicate ChunkKeysDistinct(md: Md, v: seq<byte>) {
    Distinct(AllKeys(md, v))
  }

  /** The chunks put one behind the other start where they were cut. */
  lemma {:induction false} ChunkOffset(v: seq<byte>, lens: seq<nat>, i: nat)
    requires |lens| == NumKeys(|v|) && forall a :: 0 <= a < |lens| ==> lens[a] == |AllChunks(v)[a]|
    requires i <= |lens|
    ensures Offset(lens, i) == if i < |lens| then i * SPLIT_VALUE_SIZE else |v|
    decreases i
  {
    if i > 0 {
      ChunkOffset(v, lens, i - 1);
      NumKeysExact(|v|, i - 1);
      NumKeysExact(|v|, i);
      assert lens[i - 1] == |AllChunks(v)[i - 1]|;
    } else {
      NumKeysExact(|v|, 0);
    }
  }

  /** What is read back from the index of a value. */
  lemma IndexEntries(md: Md, v: seq<byte>)
    requires |v| < TWO32
    ensures var n, index := NumKeys(|v|), Index(md, v);
            && |index| == 20 + 20 * n && index[..4] == BIG && Read4(index, 4) == n
            && Read4(index, 8) == 16 && Read4(index, 12) == 0 && Read4(index, 16) == |v|
            && (forall i :: 0 <= i < n ==> Lengths(index, n)[i] == |AllChunks(v)[i]|)
            && Keys(index, n) == AllKeys(md, v)
  {
    var n, index := NumKeys(|v|), Index(md, v);
    HeaderReads(n, |v|, Entries(md, v, n));
    forall i | 0 <= i < n ensures Lengths(index, n)[i] == |AllChunks(v)[i]| && Keys(index, n)[i] == AllKeys(md, v)[i] {
      NumKeysExact(|v|, i);
      EntryReads(md, v, i);
    }
  }

  /** The index of a value is one that memccached_big_get can read. */
  lemma IndexIsWellFormed(md: Md, v: seq<byte>)
    requires |v| < TWO32
    ensures WellFormed(Index(md, v))
  {
    IndexEntries(md, v);
    ChunkOffset(v, Lengths(Index(md, v), NumKeys(|v|)), NumKeys(|v|));
  }

  /** The chunks in their places are the value. */
  lemma WholeValue(v: seq<byte>, lens: seq<nat>, r: seq<byte>)
    requires |lens| == NumKeys(|v|) && forall i :: 0 <= i < |lens| ==> lens[i] == |AllChunks(v)[i]|
    requires |r| == |v| && forall i :: 0 <= i < |lens| ==> At(r, Offset(lens, i), AllChunks(v)[i])
    ensures r == v
  {
    forall q | 0 <= q < |v| ensures r[q] == v[q] {
      var i := q / SPLIT_VALUE_SIZE;
      NumKeysExact(|v|, i);
      ChunkOffset(v, lens, i);
      assert At(r, Offset(lens, i), AllChunks(v)[i]);
      InChunk(v, i, q);
    }
  }

  lemma InChunk(v: seq<byte>, i: nat, q: nat)
    requires q < |v| && i == q / SPLIT_VALUE_SIZE && i * SPLIT_VALUE_SIZE < |v|
    ensures i * SPLIT_VALUE_SIZE <= q < i * SPLIT_VALUE_SIZE + |Chunk(v, i)|
    ensures Chunk(v, i)[q - i * SPLIT_VALUE_SIZE] == v[q]
  {
  }

  /** The server's map with the first `n` of some values stored. */
  function WithValues(store: map<Key, seq<byte>>, keys: seq<Key>, values: seq<seq<byte>>, n: nat): map<Key, seq<byte>>
    requires n <= |keys| == |values|
  {
    if n == 0 then store else WithValues(store, keys, values, n - 1)[keys[n - 1] := values[n - 1]]
  }

  lemma {:induction false} ValueStored(store: map<Key, seq<byte>>, keys: seq<Key>, values: seq<seq<byte>>, n: nat, i: nat)
    requires i < n <= |keys| == |values| && Distinct(keys)
    ensures keys[i] in WithValues(store, keys, values, n)
    ensures WithValues(store, keys, values, n)[keys[i]] == values[i]
    decreases n
  {
    if i < n - 1 {
      ValueStored(store, keys, values, n - 1, i);
    }
  }

  // ---- buffers filled through a moving place ----

  method Append(buf: array<byte>, p: nat, x: seq<byte>) returns (q: nat)
    requires p + |x| <= buf.Length
    modifies buf
    ensures q == p + |x| && buf[..q] == old(buf[..p]) + x
  {
    Copy(buf, p, x);
    q := p + |x|;
  }

  /** PROCESS_ONE_BUFFER of memccached_set. */
  method AppendPart(buf: array<byte>, p: nat, x: seq<byte>) returns (q: nat)
    requires p + 4 + |x| <= buf.Length
    modifies buf
    ensures q == p + 4 + |x| && buf[..q] == old(buf[..p]) + Part(x)
  {
    q := Append(buf, p, Be4(|x|));
    q := Append(buf, q, x);
  }

  // ---- the server ----

  /** What a big value comes to: its chunks, when every key of the index is different, is there,
      and holds as much as the index says. */
  predicate Available(store: map<Key, seq<byte>>, keys: seq<Key>, lens: seq<nat>)
    requires |keys| == |lens|
  {
    Distinct(keys) && forall i :: 0 <= i < |keys| ==> keys[i] in store && |store[keys[i]]| == lens[i]
  }

  /** The server's answers to a request: right, none missing, one for each of different keys. */
  predicate Answers(store: map<Key, seq<byte>>, keys: seq<Key>, results: seq<(Key, seq<byte>)>) {
    && (forall j :: 0 <= j < |results| ==> results[j].0 in keys && results[j].0 in store && results[j].1 == store[results[j].0])
    && (forall i :: 0 <= i < |keys| && keys[i] in store ==> Answered(results, keys[i]))
    && (Distinct(keys) ==> forall i, j :: 0 <= i < j < |results| ==> results[i].0 != results[j].0)
  }

  lemma AnswersComplete(store: map<Key, seq<byte>>, keys: seq<Key>, lens: seq<nat>, results: seq<(Key, seq<byte>)>)
    requires |keys| == |lens| && Answers(store, keys, results)
    ensures Complete(keys, lens, results) <==> Available(store, keys, lens)
  {
    if Complete(keys, lens, results) {
      forall i | 0 <= i < |keys| ensures keys[i] in store && |store[keys[i]]| == lens[i] {
        assert Answered(results, keys[i]);
        var j :| 0 <= j < |results| && results[j].0 == keys[i];
        assert |results[j].1| == lens[i];
      }
    }
  }

  /** The blob in one buffer. */
  method EncodeBuffers(xs: Buffers) returns (buf: array<byte>)
    ensures fresh(buf) && buf[..] == Encode(xs)
  {
    hide Encode;
    buf := new byte[20 + |xs[0]| + |xs[1]| + |xs[2]| + |xs[3]|];
    var p := Append(buf, 0, MAGIC);
    p := AppendPart(buf, p, xs[0]);
    p := AppendPart(buf, p, xs[1]);
    p := AppendPart(buf, p, xs[2]);
    p := AppendPart(buf, p, xs[3]);
    EncodeParts(xs);
    assert buf[..] == buf[..p];
  }

  /** The keys and lengths an index names, and where the chunks go. */
  method ReadIndex(index: seq<byte>) returns (keys: seq<Key>, lens: seq<nat>, offsets: seq<nat>, buflen: nat)
    requires |index| >= 20 && |index| >= 20 + 20 * Read4(index, 4)
    ensures keys == Keys(index, Read4(index, 4)) && lens == Lengths(index, Read4(index, 4))
    ensures |offsets| == |lens| && buflen == Offset(lens, |lens|)
    ensures forall a :: 0 <= a < |lens| ==> offsets[a] == Offset(lens, a)
  {
    var numkeys := Read4(index, 4);
    ghost var allKeys, all := Keys(index, numkeys), Lengths(index, numkeys);
    keys, lens, offsets := [], [], [];
    buflen := 0;
    var i := 0;
    while i < numkeys
      invariant i <= numkeys && |keys| == |lens| == |offsets| == i
      invariant keys == allKeys[..i] && lens == all[..i]
      invariant forall a {:trigger offsets[a]} :: 0 <= a < i ==> offsets[a] == Offset(all, a)
      invariant buflen == Offset(all, i)
    {
      var n := EntryLength(index, i);
      assert all[i] == n && allKeys[i] == EntryKey(index, i);
      keys, lens, offsets := keys + [EntryKey(index, i)], lens + [n], offsets + [buflen];
      buflen := buflen + n;
      i := i + 1;
    }
  }

  class Memc {
    const md: Md
    var store: map<Key, seq<byte>>

    constructor (md: Md)
      ensures this.md == md && store == map[]
    {
      this.md := md;
      store := map[];
    }

    /** memcached_mget and memcached_fetch_result: callers know nothing of the order. */
    method MGet(keys: seq<Key>) returns (results: seq<(Key, seq<byte>)>)
      ensures Answers(store, keys, results)
    {
      results := [];
      var i: nat := |keys|;
      while i > 0
        invariant i <= |keys|
        invariant forall j :: 0 <= j < |results| ==>
                    results[j].0 in keys[i..] && results[j].0 in store && results[j].1 == store[results[j].0]
        invariant forall a :: i <= a < |keys| && keys[a] in store ==> Answered(results, keys[a])
        invariant Distinct(keys) ==> forall a, b :: 0 <= a < b < |results| ==> results[a].0 != results[b].0
      {
        i := i - 1;
        ghost var before := results;
        if keys[i] in store {
          results := results + [(keys[i], store[keys[i]])];
          assert results[|results| - 1].0 == keys[i];
        }
        forall a | i < a < |keys| && keys[a] in store ensures Answered(results, keys[a]) {
          assert Answered(before, keys[a]);
          var j :| 0 <= j < |before| && before[j].0 == keys[a];
          assert results[j].0 == keys[a];
        }
        assert keys[i..] == [keys[i]] + keys[i + 1..];
      }
    }

    /** memccached_big_set: stores the chunks, and their index under the key. */
    method BigSet(key: Key, value: seq<byte>)
      requires |value| < TWO32
      modifies this`store
      ensures store == WithValues(old(store), AllKeys(md, value), AllChunks(value), NumKeys(|value|))[key := Index(md, value)]
    {
      var numkeys := NumKeys(|value|);
      var head := Header(numkeys, |value|);
      var buf := new byte[20 + 20 * numkeys];
      var p := Append(buf, 0, head);
      StoreChunks(value, buf, head, numkeys);
      store := store[key := buf[..]];
    }

    lemma NothingStored(before: map<Key, seq<byte>>, value: seq<byte>, head: seq<byte>)
      requires |AllKeys(md, value)| == |AllChunks(value)|
      ensures head + Entries(md, value, 0) == head
      ensures WithValues(before, AllKeys(md, value), AllChunks(value), 0) == before
    {
    }

    /** The loop over the chunks, which writes the entries behind the head of the index. */
    method StoreChunks(value: seq<byte>, buf: array<byte>, ghost head: seq<byte>, ghost numkeys: nat)
      requires numkeys == NumKeys(|value|) && |head| == 20 && buf.Length == 20 + 20 * numkeys && buf[..20] == head
      modifies this`store, buf
      ensures buf[..] == head + Entries(md, value, numkeys)
      ensures store == WithValues(old(store), AllKeys(md, value), AllChunks(value), numkeys)
    {
      hide Entries, WithValues, AllKeys, AllChunks;
      var x, p := 0, 20;
      ghost var i := 0;
      NumKeysExact(|value|, 0);
      NothingStored(store, value, head);
      while x < |value|
        invariant i <= numkeys && x == if i < numkeys then i * SPLIT_VALUE_SIZE else |value|
        invariant p == 20 + 20 * i && buf[..p] == head + Entries(md, value, i)
        invariant store == WithValues(old(store), AllKeys(md, value), AllChunks(value), i)
      {
        x, p := NextChunk(value, x, buf, p, head, numkeys, i, old(store));
        i := i + 1;
      }
      NumKeysExact(|value|, i);
      assert buf[..] == buf[..p];
    }

    /** One round of the loop: stores a chunk and writes its entry. */
    method NextChunk(value: seq<byte>, x: nat, buf: array<byte>, p: nat, ghost head: seq<byte>, ghost numkeys: nat,
                     ghost i: nat, ghost before: map<Key, seq<byte>>)
      returns (x': nat, p': nat)
      requires numkeys == NumKeys(|value|) && buf.Length == 20 + 20 * numkeys
      requires x < |value| && i <= numkeys && x == if i < numkeys then i * SPLIT_VALUE_SIZE else |value|
      requires p == 20 + 20 * i && buf[..p] == head + Entries(md, value, i)
      requires store == WithValues(before, AllKeys(md, value), AllChunks(value), i)
      modifies this`store, buf
      ensures i < numkeys && x' > x
      ensures x' == if i + 1 < numkeys then (i + 1) * SPLIT_VALUE_SIZE else |value|
      ensures p' == p + 20 && buf[..p'] == head + Entries(md, value, i + 1)
      ensures store == WithValues(before, AllKeys(md, value), AllChunks(value), i + 1)
    {
      var remain := |value| - x;
      var n := if remain > SPLIT_VALUE_SIZE then SPLIT_VALUE_SIZE else remain;
      var chunk := value[x..x + n];
      ChunkStep(md, value, i, x, chunk);
      WithNext(before, AllKeys(md, value), AllChunks(value), i, KeyString(md(chunk), |chunk|), chunk);
      Assoc(head, Entries(md, value, i), Entry(md, chunk));
      p' := PutChunk(buf, p, chunk);
      x' := x + n;
    }

    /** Stores one chunk under the key of its digest and size, and writes its entry. */
    method PutChunk(buf: array<byte>, p: nat, chunk: seq<byte>) returns (q: nat)
      requires p + 20 <= buf.Length
      modifies this`store, buf
      ensures q == p + 20 && buf[..q] == old(buf[..p]) + Entry(md, chunk)
      ensures store == old(store)[KeyString(md(chunk), |chunk|) := chunk]
    {
      var digest := md(chunk);
      var subkey := digest + Be4(|chunk|);
      store := store[KeyString(digest, |chunk|) := chunk];
      q := Append(buf, p, subkey);
    }

    /** memccached_set: the four buffers as one value, in one piece or in chunks. */
    method Set(key: Key, xs: Buffers)
      requires |Encode(xs)| < TWO32
      modifies this`store
      ensures store == Stored(md, old(store), key, Encode(xs))
    {
      var buf := EncodeBuffers(xs);
      if buf.Length > MAX_VALUE_SIZE {
        BigSet(key, buf[..]);
      } else {
        store := store[key := buf[..]];
      }
    }

    /** memccached_big_get: the value, exactly when all its chunks are to be had. */
    method BigGet(index: seq<byte>) returns (r: Option<seq<byte>>)
      requires WellFormed(index) && index[..4] == BIG
      ensures var n := Read4(index, 4);
              var keys, lens := Keys(index, n), Lengths(index, n);
              && (r.Some? <==> Available(store, keys, lens))
              && (r.Some? ==> |r.value| == Offset(lens, n)
                              && forall i :: 0 <= i < n ==> At(r.value, Offset(lens, i), store[keys[i]]))
    {
      var keys, lens, offsets, buflen := ReadIndex(index);
      var results := MGet(keys);
      AnswersComplete(store, keys, lens, results);
      r := Assemble(keys, lens, offsets, buflen, results);
      if r.Some? {
        AnswersPlaced(store, keys, lens, results, r.value);
      }
    }

    /** memccached_get: what was stored, or nothing; a value that cannot be taken apart is deleted. */
    method Get(key: Key) returns (r: Option<Buffers>)
      requires key in store && |store[key]| > 4 && store[key][..4] == BIG ==> WellFormed(store[key])
      modifies this`store
      ensures key !in old(store) ==> r == None && store == old(store)
      ensures key in old(store) && Small(old(store)[key]) ==>
                r == Decode(old(store)[key])
                && store == if r == None then old(store) - {key} else old(store)
      ensures key in old(store) && !Small(old(store)[key]) && !Has(old(store), old(store)[key]) ==>
                r == None && store == old(store)
      ensures key in old(store) && !Small(old(store)[key]) && Has(old(store), old(store)[key]) ==>
                exists v :: Whole(old(store), old(store)[key], v) && r == Decode(v)
                            && store == if r == None then old(store) - {key} else old(store)
    {
      if key !in store {
        return None;
      }
      var value := store[key];
      if |value| > 4 && value[..4] == BIG {
        var big := BigGet(value);
        if big == None {
          return None;
        }
        value := big.value;
        assert Whole(store, store[key], value);
      }
      r := Decode(value);
      if r == None {
        store := store - {key};
      }
    }
  }

  /** A value in one piece. */
  predicate Small(v: seq<byte>) {
    |v| <= 4 || v[..4] != BIG
  }

  /** The server has all the chunks an index names. */
  predicate Has(store: map<Key, seq<byte>>, index: seq<byte>) {
    WellFormed(index) && Available(store, Keys(index, Read4(index, 4)), Lengths(index, Read4(index, 4)))
  }

  /** The chunks an index names make up a value. */
  predicate Whole(store: map<Key, seq<byte>>, index: seq<byte>, v: seq<byte>) {
    && Has(store, index)
    && var n := Read4(index, 4);
       var keys, lens := Keys(index, n), Lengths(index, n);
       |v| == Offset(lens, n) && forall i :: 0 <= i < n ==> At(v, Offset(lens, i), store[keys[i]])
  }

  /** The server's map after a value has been stored. */
  function Stored(md: Md, store: map<Key, seq<byte>>, key: Key, v: seq<byte>): map<Key, seq<byte>> {
    if |v| > MAX_VALUE_SIZE then
      WithValues(store, AllKeys(md, v), AllChunks(v), NumKeys(|v|))[key := Index(md, v)]
    else store[key := v]
  }

  lemma AnswersPlaced(store: map<Key, seq<byte>>, keys: seq<Key>, lens: seq<nat>, results: seq<(Key, seq<byte>)>, v: seq<byte>)
    requires |keys| == |lens| && Answers(store, keys, results) && Available(store, keys, lens)
    requires forall i, j :: 0 <= i < |keys| && 0 <= j < |results| && results[j].0 == keys[i] ==>
               At(v, Offset(lens, i), results[j].1)
    ensures forall i :: 0 <= i < |keys| ==> At(v, Offset(lens, i), store[keys[i]])
  {
    forall i | 0 <= i < |keys| ensures At(v, Offset(lens, i), store[keys[i]]) {
      assert Answered(results, keys[i]);
      var j :| 0 <= j < |results| && results[j].0 == keys[i];
      assert At(v, Offset(lens, i), results[j].1);
    }
  }

  lemma EncodeParts(xs: Buffers)
    ensures Encode(xs) == MAGIC + Part(xs[0]) + Part(xs[1]) + Part(xs[2]) + Part(xs[3])
  {
    var e1, e2, e3 := xs[1..], xs[2..], xs[3..];
    assert xs[1..][1..] == e2 && e2[1..] == e3 && e3[1..] == [];
    assert AllParts(e3) == Part(xs[3]);
    assert AllParts(e2) == Part(xs[2]) + Part(xs[3]);
    assert AllParts(e1) == Part(xs[1]) + (Part(xs[2]) + Part(xs[3]));
  }

  /** The chunk the loop is at. */
  lemma ChunkStep(md: Md, v: seq<byte>, i: nat, x: nat, chunk: seq<byte>)
    requires x < |v| && i <= NumKeys(|v|) && x == if i < NumKeys(|v|) then i * SPLIT_VALUE_SIZE else |v|
    requires chunk == v[x..if |v| - x > SPLIT_VALUE_SIZE then x + SPLIT_VALUE_SIZE else |v|]
    ensures i < NumKeys(|v|)
    ensures AllChunks(v)[i] == chunk && AllKeys(md, v)[i] == KeyString(md(chunk), |chunk|)
    ensures Entries(md, v, i + 1) == Entries(md, v, i) + Entry(md, chunk)
    ensures x + |chunk| == if i + 1 < NumKeys(|v|) then (i + 1) * SPLIT_VALUE_SIZE else |v|
  {
    NumKeysExact(|v|, i);
    NumKeysExact(|v|, i + 1);
    assert Chunk(v, i) == chunk;
  }

  lemma WithNext(store: map<Key, seq<byte>>, keys: seq<Key>, values: seq<seq<byte>>, i: nat, key: Key, value: seq<byte>)
    requires i < |keys| == |values| && keys[i] == key && values[i] == value
    ensures WithValues(store, keys, values, i + 1) == WithValues(store, keys, values, i)[key := value]
  {
  }

  // ---- what comes back ----

  /** What is found under the key of a big value. */
  lemma BigStored(md: Md, store: map<Key, seq<byte>>, key: Key, v: seq<byte>)
    requires MAX_VALUE_SIZE < |v| < TWO32 && key !in AllKeys(md, v)
    ensures var after := Stored(md, store, key, v);
            key in after && after[key] == Index(md, v) && !Small(after[key])
            && (Has(after, after[key]) <==> ChunkKeysDistinct(md, v))
  {
    var after, n := Stored(md, store, key, v), NumKeys(|v|);
    IndexEntries(md, v);
    IndexIsWellFormed(md, v);
    if ChunkKeysDistinct(md, v) {
      forall i | 0 <= i < n
        ensures AllKeys(md, v)[i] in after && after[AllKeys(md, v)[i]] == AllChunks(v)[i]
      {
        ValueStored(store, AllKeys(md, v), AllChunks(v), n, i);
      }
    }
  }

  /** The chunks of the value that was stored make up that value, and no other. */
  lemma WholeIsStored(md: Md, store: map<Key, seq<byte>>, key: Key, v: seq<byte>, w: seq<byte>)
    requires MAX_VALUE_SIZE < |v| < TWO32 && key !in AllKeys(md, v)
    requires Whole(Stored(md, store, key, v), Index(md, v), w)
    ensures w == v
  {
    var after, n := Stored(md, store, key, v), NumKeys(|v|);
    IndexEntries(md, v);
    var lens := Lengths(Index(md, v), n);
    ChunkOffset(v, lens, n);
    forall i | 0 <= i < n ensures At(w, Offset(lens, i), AllChunks(v)[i]) {
      ValueStored(store, AllKeys(md, v), AllChunks(v), n, i);
      assert after[AllKeys(md, v)[i]] == AllChunks(v)[i];
    }
    WholeValue(v, lens, w);
  }

  lemma DecodesBack(xs: Buffers)
    requires |Encode(xs)| < TWO32
    ensures Decode(Encode(xs)) == Some(xs)
    ensures |Encode(xs)| <= MAX_VALUE_SIZE ==> Small(Encode(xs))
  {
    EncodeParts(xs);
    HoldsSlice(Encode(xs), 0, Encode(xs));
    DecodeExact(Encode(xs), xs);
  }

  /** memccached_set and then memccached_get: the four buffers come back, whatever the order in
      which the server returns the chunks, exactly when the blob is small enough for one value
      or no two of its chunks have the same key. Otherwise nothing comes back. */
  method RoundTrip(memc: Memc, key: Key, xs: Buffers) returns (r: Option<Buffers>)
    requires |Encode(xs)| < TWO32
    requires |Encode(xs)| > MAX_VALUE_SIZE ==> key !in AllKeys(memc.md, Encode(xs))
    modifies memc
    ensures r == Some(xs) <==> |Encode(xs)| <= MAX_VALUE_SIZE || ChunkKeysDistinct(memc.md, Encode(xs))
    ensures r == None || r == Some(xs)
  {
    var v := Encode(xs);
    ghost var before := memc.store;
    DecodesBack(xs);
    memc.Set(key, xs);
    if |v| > MAX_VALUE_SIZE {
      r := GetBig(memc, key, xs, v, before);
    } else {
      r := memc.Get(key);
    }
  }

  /** Getting a big value back. */
  method GetBig(memc: Memc, key: Key, ghost xs: Buffers, ghost v: seq<byte>, ghost before: map<Key, seq<byte>>)
    returns (r: Option<Buffers>)
    requires MAX_VALUE_SIZE < |v| < TWO32 && key !in AllKeys(memc.md, v)
    requires memc.store == Stored(memc.md, before, key, v) && Decode(v) == Some(xs)
    modifies memc
    ensures r == if ChunkKeysDistinct(memc.md, v) then Some(xs) else None
  {
    BigStored(memc.md, before, key, v);
    forall w | Whole(memc.store, Index(memc.md, v), w) ensures w == v {
      WholeIsStored(memc.md, before, key, v, w);
    }
    IndexIsWellFormed(memc.md, v);
    r := memc.Get(key);
  }

  /** As long as the digest does not collide, the keys are distinct exactly when the chunks are. */
  lemma DistinctKeysDistinctChunks(md: Md, v: seq<byte>)
    requires forall i, j :: 0 <= i < j < NumKeys(|v|) && md(AllChunks(v)[i]) == md(AllChunks(v)[j]) ==>
               AllChunks(v)[i] == AllChunks(v)[j]
    ensures ChunkKeysDistinct(md, v) <==> forall i, j :: 0 <= i < j < NumKeys(|v|) ==> AllChunks(v)[i] != AllChunks(v)[j]
  {
    forall i, j | 0 <= i < j < NumKeys(|v|)
      ensures AllKeys(md, v)[i] == AllKeys(md, v)[j] <==> AllChunks(v)[i] == AllChunks(v)[j]
    {
      KeyInjective(md(AllChunks(v)[i]), |AllChunks(v)[i]|, md(AllChunks(v)[j]), |AllChunks(v)[j]|);
    }
  }

  /** So a blob with two equal full chunks is stored and can never be read back: an object file
      with three million zero bytes is one. */
  lemma EqualChunksAreLost(md: Md)
    ensures var v := Encode([seq(3 * SPLIT_VALUE_SIZE, _ => 0), [], [], []]);
            MAX_VALUE_SIZE < |v| < TWO32 && !ChunkKeysDistinct(md, v)
  {
    var zeros := seq(3 * SPLIT_VALUE_SIZE, _ => 0);
    var xs: Buffers := [zeros, [], [], []];
    var v := Encode(xs);
    EncodeParts(xs);
    assert forall q :: 8 <= q < 8 + 3 * SPLIT_VALUE_SIZE ==> v[q] == 0;
    NumKeysExact(|v|, 1);
    NumKeysExact(|v|, 2);
    assert AllChunks(v)[1] == AllChunks(v)[2];
    assert AllKeys(md, v)[1] == AllKeys(md, v)[2];
  }
}
