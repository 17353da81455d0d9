/**
 The chained hash table: a bucket array of linked entries, relinked in place, grown to the next
 prime when it is too full.
 */
module Hashtable {
  import opened Bytes

  /** An entry. Only its link ever changes. */
  class Entry<K, V> {
    const k: K
    const v: V
    const h: u32
    var next: Entry?<K, V>

    constructor (k: K, v: V, h: u32)
      ensures this.k == k && this.v == v && this.h == h
    {
      this.k, this.v, this.h := k, v, h;
      next := null;
    }
  }

  /** The bucket of a hash value: its remainder by the table's length. Written by subtraction;
      see IndexForIsRemainder. */
  function IndexFor(tablelength: nat, hashvalue: nat): (r: nat)
    requires tablelength > 0
    ensures r < tablelength
  {
    if hashvalue < tablelength then hashvalue else IndexFor(tablelength, hashvalue - tablelength)
  }

  lemma {:induction false} IndexForIsRemainder(tablelength: nat, hashvalue: nat) returns (quotient: nat)
    requires tablelength > 0
    ensures hashvalue == quotient * tablelength + IndexFor(tablelength, hashvalue)
    decreases hashvalue
  {
    quotient := 0;
    if hashvalue >= tablelength {
      var q := IndexForIsRemainder(tablelength, hashvalue - tablelength);
      quotient := q + 1;
      assert quotient * tablelength == q * tablelength + tablelength;
    }
  }

  // ---- chains ----

  /** The entry at a place in a chain, or nothing at its end. */
  function After<K, V>(c: seq<Entry<K, V>>, i: nat): Entry?<K, V> {
    if i < |c| then c[i] else null
  }

  /** The links run through the chain. */
  ghost predicate Links<K, V>(head: Entry?<K, V>, c: seq<Entry<K, V>>)
    reads c
  {
    head == After(c, 0) && forall i {:trigger c[i].next} :: 0 <= i < |c| ==> c[i].next == After(c, i + 1)
  }

  /** The entries of one bucket: all hash to it, and no key is twice in it. */
  ghost predicate Bucket<K, V>(c: seq<Entry<K, V>>, b: nat, size: nat, hash: K -> u32) {
    && size > 0
    && (forall i :: 0 <= i < |c| ==> c[i].h == hash(c[i].k) && IndexFor(size, c[i].h) == b)
    && forall i, j :: 0 <= i < j < |c| ==> c[i].k != c[j].k
  }

  ghost predicate InChain<K, V>(c: seq<Entry<K, V>>, k: K) {
    exists i :: 0 <= i < |c| && c[i].k == k
  }

  ghost function Entries<K, V>(chains: seq<seq<Entry<K, V>>>): set<Entry<K, V>> {
    set b, i | 0 <= b < |chains| && 0 <= i < |chains[b]| :: chains[b][i]
  }

  /** All the buckets are as they should be, apart from the links. */
  ghost predicate Buckets<K, V>(chains: seq<seq<Entry<K, V>>>, hash: K -> u32) {
    forall b :: 0 <= b < |chains| ==> Bucket(chains[b], b, |chains|, hash)
  }

  ghost predicate Linked<K, V>(table: array<Entry?<K, V>>, chains: seq<seq<Entry<K, V>>>)
    reads table, Entries(chains)
  {
    && table.Length == |chains|
    && forall b :: 0 <= b < |chains| ==> Links(table[b], chains[b])
  }

  /** An entry of one bucket is in no other. */
  lemma Elsewhere<K, V>(chains: seq<seq<Entry<K, V>>>, hash: K -> u32, b: nat, e: Entry<K, V>)
    requires Buckets(chains, hash) && b < |chains| && IndexFor(|chains|, e.h) != b
    ensures e !in chains[b]
  {
    assert Bucket(chains[b], b, |chains|, hash);
  }

  /** Puts an entry in front of its chain. */
  method Push<K, V>(table: array<Entry?<K, V>>, e: Entry<K, V>, index: nat,
                    ghost chains: seq<seq<Entry<K, V>>>, ghost hash: K -> u32)
    returns (ghost after: seq<seq<Entry<K, V>>>)
    requires Linked(table, chains) && Buckets(chains, hash)
    requires index < |chains| && e.h == hash(e.k) && index == IndexFor(|chains|, e.h)
    requires !InChain(chains[index], e.k)
    modifies table, e`next
    ensures after == chains[index := [e] + chains[index]]
    ensures Linked(table, after) && Buckets(after, hash)
  {
    ghost var c := chains[index];
    after := chains[index := [e] + c];
    assert e !in c;
    forall b | 0 <= b < |chains| && b != index ensures e !in chains[b] {
      Elsewhere(chains, hash, b, e);
    }
    assert Links(table[index], c);
    e.next := table[index];
    table[index] := e;
    LinkFront(table[index], e, c);
  }

  lemma LinkFront<K, V>(head: Entry?<K, V>, e: Entry<K, V>, c: seq<Entry<K, V>>)
    requires head == e && e.next == After(c, 0)
    requires forall i {:trigger c[i].next} :: 0 <= i < |c| ==> c[i].next == After(c, i + 1)
    ensures Links(head, [e] + c)
  {
  }

  // ---- what a table stands for ----

  /** Every entry of the chain is in the map, with its value. */
  ghost predicate Sound<K, V>(c: seq<Entry<K, V>>, m: map<K, V>) {
    forall i :: 0 <= i < |c| ==> c[i].k in m && m[c[i].k] == c[i].v
  }

  /** The chains hold exactly the map, every key in its bucket. */
  ghost predicate Represents<K, V>(chains: seq<seq<Entry<K, V>>>, hash: K -> u32, m: map<K, V>) {
    && |chains| > 0
    && (forall b :: 0 <= b < |chains| ==> Sound(chains[b], m))
    && forall k :: k in m ==> InChain(chains[IndexFor(|chains|, hash(k))], k)
  }

  lemma NotThere<K, V>(chains: seq<seq<Entry<K, V>>>, hash: K -> u32, m: map<K, V>, b: nat, k: K)
    requires Represents(chains, hash, m) && b < |chains| && k !in m
    ensures !InChain(chains[b], k)
  {
    assert Sound(chains[b], m);
  }

  lemma Pushed<K, V>(chains: seq<seq<Entry<K, V>>>, hash: K -> u32, m: map<K, V>, e: Entry<K, V>, index: nat)
    requires Represents(chains, hash, m) && e.k !in m && index == IndexFor(|chains|, hash(e.k))
    ensures Represents(chains[index := [e] + chains[index]], hash, m[e.k := e.v])
  {
    var after, m' := chains[index := [e] + chains[index]], m[e.k := e.v];
    forall b | 0 <= b < |after| ensures Sound(after[b], m') {
      assert Sound(chains[b], m);
    }
    forall k | k in m' ensures InChain(after[IndexFor(|after|, hash(k))], k) {
      if k == e.k {
        assert after[index][0].k == k;
      } else {
        FoundBehind(e, chains[IndexFor(|chains|, hash(k))], k);
      }
    }
  }

  lemma FoundBehind<K, V>(e: Entry<K, V>, c: seq<Entry<K, V>>, k: K)
    requires InChain(c, k)
    ensures InChain([e] + c, k)
  {
    var i :| 0 <= i < |c| && c[i].k == k;
    assert ([e] + c)[i + 1].k == k;
  }

  /** A chain without the entry at a place. */
  function Drop<T>(c: seq<T>, i: nat): (r: seq<T>)
    requires i < |c|
    ensures |r| == |c| - 1
  {
    c[..i] + c[i + 1..]
  }

  lemma Dropped<K, V>(chains: seq<seq<Entry<K, V>>>, hash: K -> u32, m: map<K, V>, b: nat, i: nat)
    requires Buckets(chains, hash) && Represents(chains, hash, m) && b < |chains| && i < |chains[b]|
    ensures var after := chains[b := Drop(chains[b], i)];
            Buckets(after, hash) && Represents(after, hash, m - {chains[b][i].k})
  {
    var after, key := chains[b := Drop(chains[b], i)], chains[b][i].k;
    var m' := m - {key};
    assert Bucket(chains[b], b, |chains|, hash);
    assert Sound(chains[b], m);
    forall a | 0 <= a < |after| ensures Bucket(after[a], a, |after|, hash) && Sound(after[a], m') {
      assert Bucket(chains[a], a, |chains|, hash) && Sound(chains[a], m);
      if a != b {
        OtherBucket(chains, hash, a, b, i);
      }
    }
    forall k | k in m' ensures InChain(after[IndexFor(|after|, hash(k))], k) {
      if IndexFor(|chains|, hash(k)) == b {
        FoundElsewhere(chains[b], k, i);
      }
    }
  }

  /** The keys of one bucket are not in another. */
  lemma OtherBucket<K, V>(chains: seq<seq<Entry<K, V>>>, hash: K -> u32, a: nat, b: nat, i: nat)
    requires Buckets(chains, hash) && a < |chains| && b < |chains| && a != b && i < |chains[b]|
    ensures forall j :: 0 <= j < |chains[a]| ==> chains[a][j].k != chains[b][i].k
  {
    assert Bucket(chains[a], a, |chains|, hash) && Bucket(chains[b], b, |chains|, hash);
  }

  lemma FoundElsewhere<K, V>(c: seq<Entry<K, V>>, k: K, i: nat)
    requires InChain(c, k) && i < |c| && c[i].k != k
    ensures InChain(Drop(c, i), k)
  {
    var j :| 0 <= j < |c| && c[j].k == k;
    assert Drop(c, i)[if j < i then j else j - 1].k == k;
  }

  // ---- growing ----

  const PRIMES: seq<nat> :=
    [53, 97, 193, 389, 769, 1543, 3079, 6151, 12289, 24593, 49157, 98317, 196613, 393241, 786433,
     1572869, 3145739, 6291469, 12582917, 25165843, 50331653, 100663319, 201326611, 402653189,
     805306457, 1610612741]

  /** The number of entries from which the table is grown: the size times the float nearest to
      0.65, rounded up. The C code multiplies in double, which is exact for every size a table can
      have; see ProductFits. */
  function LoadLimit(size: nat): nat {
    (size * 10905190 + 16777215) / 16777216
  }

  /** Bigger tables, one after the other. */
  predicate Grows(primes: seq<nat>) {
    |primes| == 26 && forall i, j :: 0 <= i < j < |primes| ==> 0 < primes[i] && primes[i] + 1 < primes[j]
  }

  /** The float nearest to 0.65 is 5452595 / 2^23; its product with a table's size has at most 53
      bits, those of a double. */
  lemma ProductFits(size: nat)
    requires size <= PRIMES[25]
    ensures LoadLimit(size) == (size * 5452595 + 8388607) / 8388608 && size * 5452595 < 0x20_0000_0000_0000
  {
    var p := size * 5452595;
    assert size * 10905190 == 2 * p;
    assert size * 5452595 <= 1610612741 * 5452595;
    assert (2 * p + 16777215) / 16777216 == (p + 8388607) / 8388608;
  }

  lemma PrimesGrow()
    ensures Grows(PRIMES) && PRIMES[25] > 0x4000_0000
  {
    AllGrow(PRIMES);
  }

  lemma AllGrow(primes: seq<nat>)
    requires |primes| == 26 && primes[0] > 0 && forall i :: 0 < i < |primes| ==> primes[i - 1] + 1 < primes[i]
    ensures Grows(primes)
  {
    forall i, j | 0 <= i < j < |primes| ensures 0 < primes[i] && primes[i] + 1 < primes[j] {
      StepUp(primes, i, j);
      if i > 0 {
        StepUp(primes, 0, i);
      }
    }
  }

  lemma {:induction false} StepUp(primes: seq<nat>, i: nat, j: nat)
    requires i < j < |primes| && forall i :: 0 < i < |primes| ==> primes[i - 1] + 1 < primes[i]
    ensures primes[i] + 1 < primes[j]
    decreases j
  {
    if i + 1 < j {
      StepUp(primes, i, j - 1);
    }
  }

  lemma LimitGrows(size: nat, next: nat)
    requires size + 1 < next
    ensures LoadLimit(size) < LoadLimit(next)
  {
  }

  /** Takes the first entry off its chain. Its own link stays as it is. */
  method Pop<K, V>(table: array<Entry?<K, V>>, i: nat, ghost chains: seq<seq<Entry<K, V>>>, ghost hash: K -> u32)
    returns (e: Entry<K, V>)
    requires Linked(table, chains) && Buckets(chains, hash) && i < |chains| && chains[i] != []
    modifies table
    ensures e == chains[i][0]
    ensures Linked(table, chains[i := Drop(chains[i], 0)])
  {
    assert Links(table[i], chains[i]);
    e := table[i];
    table[i] := e.next;
  }

  lemma NoneOf<K, V>(chains: seq<seq<Entry<K, V>>>, hash: K -> u32, m: map<K, V>, e: Entry<K, V>)
    requires Represents(chains, hash, m) && e.k !in m
    ensures e !in Entries(chains)
  {
    assert forall b :: 0 <= b < |chains| ==> Sound(chains[b], m);
  }

  lemma Popped<K, V>(o: seq<seq<Entry<K, V>>>, hash: K -> u32, m: map<K, V>, i: nat)
    requires Buckets(o, hash) && Represents(o, hash, m) && i < |o| && o[i] != []
    ensures var e, o' := o[i][0], o[i := Drop(o[i], 0)];
            && Buckets(o', hash) && Represents(o', hash, m - {e.k})
            && e !in Entries(o') && e.k in m && m[e.k] == e.v && e.h == hash(e.k)
  {
    var e, o' := o[i][0], o[i := Drop(o[i], 0)];
    Dropped(o, hash, m, i, 0);
    assert Sound(o[i], m) && Bucket(o[i], i, |o|, hash);
    NoneOf(o', hash, m - {e.k}, e);
  }

  lemma PushedEntries<K, V>(n: seq<seq<Entry<K, V>>>, e: Entry<K, V>, index: nat)
    requires index < |n|
    ensures Entries(n[index := [e] + n[index]]) == Entries(n) + {e}
  {
    var after := n[index := [e] + n[index]];
    forall x | x in Entries(n) ensures x in Entries(after) {
      var b, i :| 0 <= b < |n| && 0 <= i < |n[b]| && n[b][i] == x;
      if b == index {
        assert after[b][i + 1] == x;
      } else {
        assert after[b][i] == x;
      }
    }
    assert after[index][0] == e;
  }

  /** Puts the entry into the new table. */
  method PushNew<K, V>(into: array<Entry?<K, V>>, e: Entry<K, V>,
                       ghost n: seq<seq<Entry<K, V>>>, ghost hash: K -> u32, ghost m: map<K, V>)
    returns (ghost n': seq<seq<Entry<K, V>>>)
    requires Linked(into, n) && Buckets(n, hash) && Represents(n, hash, m)
    requires e.k !in m && e.h == hash(e.k)
    modifies into, e`next
    ensures Linked(into, n') && Buckets(n', hash) && Represents(n', hash, m[e.k := e.v])
    ensures |n'| == |n| && Entries(n') == Entries(n) + {e}
  {
    var index := IndexFor(into.Length, e.h);
    NotThere(n, hash, m, index, e.k);
    PushedEntries(n, e, index);
    Pushed(n, hash, m, e, index);
    n' := Push(into, e, index, n, hash);
  }

  /** The links of a table stay when an entry outside it is relinked elsewhere. */
  method PushAside<K, V>(from: array<Entry?<K, V>>, into: array<Entry?<K, V>>, e: Entry<K, V>,
                         ghost o: seq<seq<Entry<K, V>>>,
                         ghost n: seq<seq<Entry<K, V>>>, ghost hash: K -> u32, ghost m: map<K, V>)
    returns (ghost n': seq<seq<Entry<K, V>>>)
    requires from != into && Linked(from, o) && e !in Entries(o)
    requires Linked(into, n) && Buckets(n, hash) && Represents(n, hash, m)
    requires e.k !in m && e.h == hash(e.k)
    modifies into, e`next
    ensures Linked(from, o)
    ensures Linked(into, n') && Buckets(n', hash) && Represents(n', hash, m[e.k := e.v])
    ensures |n'| == |n| && Entries(n') == Entries(n) + {e}
  {
    n' := PushNew(into, e, n, hash, m);
  }

  /** Moves the first entry of a chain from one table to the other. */
  method Move<K, V>(from: array<Entry?<K, V>>, into: array<Entry?<K, V>>, i: nat, ghost hash: K -> u32,
                    ghost first: Entry<K, V>,
                    ghost o: seq<seq<Entry<K, V>>>, ghost mo: map<K, V>,
                    ghost n: seq<seq<Entry<K, V>>>, ghost mn: map<K, V>)
    returns (ghost n': seq<seq<Entry<K, V>>>)
    requires from != into
    requires Linked(from, o) && Buckets(o, hash) && Represents(o, hash, mo)
    requires Linked(into, n) && Buckets(n, hash) && Represents(n, hash, mn)
    requires i < |o| && o[i] != [] && first == o[i][0] && first.k !in mn
    modifies from, into, first`next
    ensures Linked(from, o[i := Drop(o[i], 0)])
    ensures Linked(into, n') && Buckets(n', hash) && Represents(n', hash, mn[first.k := first.v])
    ensures |n'| == |n| && Entries(n') == Entries(n) + {first}
  {
    Popped(o, hash, mo, i);
    var e := Pop(from, i, o, hash);
    n' := PushAside(from, into, e, o[i := Drop(o[i], 0)], n, hash, mn);
  }

  /** A map in two parts that have no key in common. */
  ghost predicate Parts<K, V>(m: map<K, V>, a: map<K, V>, b: map<K, V>) {
    a.Keys !! b.Keys && m == a + b
  }

  lemma MovePart<K, V>(m: map<K, V>, a: map<K, V>, b: map<K, V>, k: K)
    requires Parts(m, a, b) && k in a
    ensures Parts(m, a - {k}, b[k := a[k]])
  {
    assert m == (a - {k}) + b[k := a[k]];
  }

  lemma EmptyTable<K, V>(chains: seq<seq<Entry<K, V>>>, hash: K -> u32, m: map<K, V>)
    requires Represents(chains, hash, m) && forall b :: 0 <= b < |chains| ==> chains[b] == []
    ensures m == map[]
  {
    forall k: K ensures k !in m {
      var c := chains[IndexFor(|chains|, hash(k))];
      assert c == [] && !InChain(c, k);
    }
  }

  lemma DroppedEntries<K, V>(o: seq<seq<Entry<K, V>>>, b: nat, i: nat)
    requires b < |o| && i < |o[b]|
    ensures Entries(o[b := Drop(o[b], i)]) <= Entries(o) && o[b][i] in Entries(o)
  {
    var after := o[b := Drop(o[b], i)];
    forall x | x in Entries(after) ensures x in Entries(o) {
      var a, j :| 0 <= a < |after| && 0 <= j < |after[a]| && after[a][j] == x;
      assert x in o[a];
    }
  }

  // ---- a whole table ----

  /** The first `n` buckets are linked, hold what hashes to them, and agree with the map. */
  ghost predicate Intact<K, V>(table: array<Entry?<K, V>>, chains: seq<seq<Entry<K, V>>>, hash: K -> u32, m: map<K, V>, n: nat)
    reads table, Entries(chains)
  {
    n == 0 ||
    (&& n <= table.Length == |chains|
     && Intact(table, chains, hash, m, n - 1)
     && Links(table[n - 1], chains[n - 1])
     && Bucket(chains[n - 1], n - 1, |chains|, hash)
     && Sound(chains[n - 1], m))
  }

  /** The table stands for the map. */
  ghost predicate Table<K, V>(table: array<Entry?<K, V>>, chains: seq<seq<Entry<K, V>>>, hash: K -> u32, m: map<K, V>)
    reads table, Entries(chains)
  {
    && 0 < table.Length == |chains|
    && Intact(table, chains, hash, m, |chains|)
    && forall k :: k in m ==> InChain(chains[IndexFor(|chains|, hash(k))], k)
  }

  lemma {:induction false} IntactAt<K, V>(table: array<Entry?<K, V>>, chains: seq<seq<Entry<K, V>>>, hash: K -> u32,
                                          m: map<K, V>, n: nat, b: nat)
    requires Intact(table, chains, hash, m, n) && b < n
    ensures n <= table.Length == |chains|
    ensures Links(table[b], chains[b]) && Bucket(chains[b], b, |chains|, hash) && Sound(chains[b], m)
    decreases n
  {
    if b < n - 1 {
      IntactAt(table, chains, hash, m, n - 1, b);
    }
  }

  lemma {:induction false} AllIntact<K, V>(table: array<Entry?<K, V>>, chains: seq<seq<Entry<K, V>>>, hash: K -> u32,
                                           m: map<K, V>, n: nat)
    requires Linked(table, chains) && Buckets(chains, hash) && n <= |chains|
    requires forall b :: 0 <= b < |chains| ==> Sound(chains[b], m)
    ensures Intact(table, chains, hash, m, n)
    decreases n
  {
    if n > 0 {
      AllIntact(table, chains, hash, m, n - 1);
    }
  }

  /** A table bucket by bucket. */
  lemma Open<K, V>(table: array<Entry?<K, V>>, chains: seq<seq<Entry<K, V>>>, hash: K -> u32, m: map<K, V>)
    requires Table(table, chains, hash, m)
    ensures Linked(table, chains) && Buckets(chains, hash) && Represents(chains, hash, m)
  {
    forall b | 0 <= b < |chains|
      ensures Links(table[b], chains[b]) && Bucket(chains[b], b, |chains|, hash) && Sound(chains[b], m)
    {
      IntactAt(table, chains, hash, m, |chains|, b);
    }
  }

  lemma Close<K, V>(table: array<Entry?<K, V>>, chains: seq<seq<Entry<K, V>>>, hash: K -> u32, m: map<K, V>)
    requires Linked(table, chains) && Buckets(chains, hash) && Represents(chains, hash, m)
    ensures Table(table, chains, hash, m)
  {
    AllIntact(table, chains, hash, m, |chains|);
  }

  /** A new table of a size, with nothing in it. */
  method NewTable<K, V>(size: nat, ghost hash: K -> u32)
    returns (table: array<Entry?<K, V>>, ghost chains: seq<seq<Entry<K, V>>>)
    requires size > 0
    ensures fresh(table) && table.Length == size == |chains| && Entries(chains) == {}
    ensures Linked(table, chains) && Buckets(chains, hash) && Represents(chains, hash, map[])
  {
    table := new Entry?<K, V>[size](_ => null);
    chains := seq(size, _ => []);
  }

  /** One entry goes over, seen from both tables together. */
  method MoveOne<K, V>(from: array<Entry?<K, V>>, into: array<Entry?<K, V>>, i: nat, ghost hash: K -> u32,
                       ghost m: map<K, V>, ghost all: set<Entry<K, V>>,
                       ghost o: seq<seq<Entry<K, V>>>, ghost mo: map<K, V>,
                       ghost n: seq<seq<Entry<K, V>>>, ghost mn: map<K, V>)
    returns (ghost o': seq<seq<Entry<K, V>>>, ghost mo': map<K, V>, ghost n': seq<seq<Entry<K, V>>>, ghost mn': map<K, V>)
    requires from != into && i < |o| && o[i] != [] && Parts(m, mo, mn)
    requires Linked(from, o) && Buckets(o, hash) && Represents(o, hash, mo) && Entries(o) <= all
    requires Linked(into, n) && Buckets(n, hash) && Represents(n, hash, mn) && Entries(n) <= all
    modifies from, into, all
    ensures o' == o[i := Drop(o[i], 0)] && |n'| == |n| && Parts(m, mo', mn')
    ensures Linked(from, o') && Buckets(o', hash) && Represents(o', hash, mo') && Entries(o') <= all
    ensures Linked(into, n') && Buckets(n', hash) && Represents(n', hash, mn') && Entries(n') <= all
  {
    ghost var e := o[i][0];
    Popped(o, hash, mo, i);
    DroppedEntries(o, i, 0);
    MovePart(m, mo, mn, e.k);
    n' := Move(from, into, i, hash, e, o, mo, n, mn);
    o', mo', mn' := o[i := Drop(o[i], 0)], mo - {e.k}, mn[e.k := e.v];
  }

  /** Empties one chain of the old table into the new one; the chain comes out reversed. */
  method MoveChain<K, V>(from: array<Entry?<K, V>>, into: array<Entry?<K, V>>, i: nat, ghost hash: K -> u32,
                         ghost m: map<K, V>, ghost all: set<Entry<K, V>>,
                         ghost o0: seq<seq<Entry<K, V>>>, ghost mo0: map<K, V>,
                         ghost n0: seq<seq<Entry<K, V>>>, ghost mn0: map<K, V>)
    returns (ghost o: seq<seq<Entry<K, V>>>, ghost mo: map<K, V>, ghost n: seq<seq<Entry<K, V>>>, ghost mn: map<K, V>)
    requires from != into && i < |o0| && Parts(m, mo0, mn0)
    requires Linked(from, o0) && Buckets(o0, hash) && Represents(o0, hash, mo0) && Entries(o0) <= all
    requires Linked(into, n0) && Buckets(n0, hash) && Represents(n0, hash, mn0) && Entries(n0) <= all
    modifies from, into, all
    ensures |o| == |o0| && o[i] == [] && (forall b :: 0 <= b < |o| && b != i ==> o[b] == o0[b])
    ensures |n| == |n0| && Parts(m, mo, mn)
    ensures Linked(from, o) && Buckets(o, hash) && Represents(o, hash, mo) && Entries(o) <= all
    ensures Linked(into, n) && Buckets(n, hash) && Represents(n, hash, mn) && Entries(n) <= all
  {
    o, mo, n, mn := o0, mo0, n0, mn0;
    while from[i] != null
      invariant |o| == |o0| && (forall b :: 0 <= b < |o| && b != i ==> o[b] == o0[b])
      invariant |n| == |n0| && Parts(m, mo, mn)
      invariant Linked(from, o) && Buckets(o, hash) && Represents(o, hash, mo) && Entries(o) <= all
      invariant Linked(into, n) && Buckets(n, hash) && Represents(n, hash, mn) && Entries(n) <= all
      decreases |o[i]|
    {
      assert Links(from[i], o[i]);
      o, mo, n, mn := MoveOne(from, into, i, hash, m, all, o, mo, n, mn);
    }
    assert Links(from[i], o[i]);
  }

  /** Empties every chain into the new table. */
  method MoveAll<K, V>(from: array<Entry?<K, V>>, into: array<Entry?<K, V>>, ghost hash: K -> u32, ghost m: map<K, V>,
                       ghost o0: seq<seq<Entry<K, V>>>, ghost n0: seq<seq<Entry<K, V>>>)
    returns (ghost n: seq<seq<Entry<K, V>>>)
    requires from != into
    requires Linked(from, o0) && Buckets(o0, hash) && Represents(o0, hash, m)
    requires Linked(into, n0) && Buckets(n0, hash) && Represents(n0, hash, map[]) && Entries(n0) == {}
    modifies from, into, Entries(o0)
    ensures Linked(into, n) && Buckets(n, hash) && Represents(n, hash, m)
    ensures |n| == |n0| && Entries(n) <= Entries(o0)
  {
    ghost var o, mo, mn := o0, m, map[];
    ghost var all := Entries(o0);
    n := n0;
    NoneMoved(m);
    var i := 0;
    while i < from.Length
      invariant i <= from.Length == |o| && |n| == |n0| && Parts(m, mo, mn)
      invariant forall b :: 0 <= b < i ==> o[b] == []
      invariant Linked(from, o) && Buckets(o, hash) && Represents(o, hash, mo) && Entries(o) <= all
      invariant Linked(into, n) && Buckets(n, hash) && Represents(n, hash, mn) && Entries(n) <= all
    {
      o, mo, n, mn := MoveChain(from, into, i, hash, m, all, o, mo, n, mn);
      i := i + 1;
    }
    AllMoved(o, hash, m, mo, mn);
  }

  lemma AllMoved<K, V>(o: seq<seq<Entry<K, V>>>, hash: K -> u32, m: map<K, V>, mo: map<K, V>, mn: map<K, V>)
    requires Represents(o, hash, mo) && Parts(m, mo, mn) && forall b :: 0 <= b < |o| ==> o[b] == []
    ensures mn == m
  {
    EmptyTable(o, hash, mo);
    assert mo + mn == mn;
  }

  lemma NoneMoved<K, V>(m: map<K, V>)
    ensures Parts(m, m, map[])
  {
    assert m + map[] == m;
  }

  /** Makes an entry and puts it into the table. */
  method PushFresh<K, V>(into: array<Entry?<K, V>>, k: K, v: V, hash: K -> u32,
                         ghost n: seq<seq<Entry<K, V>>>, ghost m: map<K, V>)
    returns (ghost e: Entry<K, V>, ghost n': seq<seq<Entry<K, V>>>)
    requires Linked(into, n) && Buckets(n, hash) && Represents(n, hash, m) && k !in m
    modifies into
    ensures fresh(e) && Entries(n') == Entries(n) + {e} && |n'| == |n|
    ensures Linked(into, n') && Buckets(n', hash) && Represents(n', hash, m[k := v])
  {
    var entry := new Entry(k, v, hash(k));
    n' := PushNew(into, entry, n, hash, m);
    e := entry;
  }

  /** Makes an entry and puts it into the table. */
  method PutNew<K, V>(into: array<Entry?<K, V>>, k: K, v: V, hash: K -> u32,
                      ghost n: seq<seq<Entry<K, V>>>, ghost m: map<K, V>)
    returns (ghost e: Entry<K, V>, ghost n': seq<seq<Entry<K, V>>>)
    requires Table(into, n, hash, m) && k !in m
    modifies into
    ensures fresh(e) && Entries(n') == Entries(n) + {e}
    ensures Table(into, n', hash, m[k := v])
  {
    Open(into, n, hash, m);
    e, n' := PushFresh(into, k, v, hash, n, m);
    Close(into, n', hash, m[k := v]);
  }

  /** Moves everything to an empty table of another size. */
  method Rehash<K, V>(from: array<Entry?<K, V>>, size: nat, ghost hash: K -> u32, ghost m: map<K, V>,
                      ghost o: seq<seq<Entry<K, V>>>)
    returns (into: array<Entry?<K, V>>, ghost n: seq<seq<Entry<K, V>>>)
    requires size > 0 && Table(from, o, hash, m)
    modifies from, Entries(o)
    ensures fresh(into) && into.Length == size && Entries(n) <= Entries(o)
    ensures Table(into, n, hash, m)
  {
    Open(from, o, hash, m);
    into, n := NewTable(size, hash);
    n := MoveAll(from, into, hash, m, o, n);
    Close(into, n, hash, m);
  }

  /** Links past an entry. */
  method CutLink<K, V>(table: array<Entry?<K, V>>, index: nat, parent: Entry?<K, V>, e: Entry<K, V>, ghost i: nat,
                       ghost chains: seq<seq<Entry<K, V>>>, ghost hash: K -> u32)
    requires Linked(table, chains) && Buckets(chains, hash)
    requires index < |chains| && i < |chains[index]| && e == chains[index][i]
    requires parent == if i == 0 then null else chains[index][i - 1]
    modifies table, Entries(chains)
    ensures Linked(table, chains[index := Drop(chains[index], i)])
    ensures e.next == old(e.next)
  {
    ghost var c := chains[index];
    assert Links(table[index], c) && Bucket(c, index, |chains|, hash);
    if parent == null {
      table[index] := e.next;
    } else {
      forall b | 0 <= b < |chains| && b != index ensures parent !in chains[b] {
        Elsewhere(chains, hash, b, parent);
      }
      parent.next := e.next;
    }
  }

  /** Takes an entry out of its chain: the one before it, or the table, is linked to the one
      behind it. */
  method TakeOut<K, V>(table: array<Entry?<K, V>>, index: nat, parent: Entry?<K, V>, e: Entry<K, V>, ghost i: nat,
                       ghost chains: seq<seq<Entry<K, V>>>, ghost hash: K -> u32, ghost m: map<K, V>)
    requires Table(table, chains, hash, m)
    requires index < |chains| && i < |chains[index]| && e == chains[index][i]
    requires parent == if i == 0 then null else chains[index][i - 1]
    modifies table, Entries(chains)
    ensures e.k in m && Table(table, chains[index := Drop(chains[index], i)], hash, m - {e.k})
    ensures e.next == old(e.next)
  {
    Open(table, chains, hash, m);
    assert Sound(chains[index], m);
    Dropped(chains, hash, m, index, i);
    CutLink(table, index, parent, e, i, chains, hash);
    Close(table, chains[index := Drop(chains[index], i)], hash, m - {e.k});
  }

  // ---- the table ----

  class Hashtable<K(==), V> {
    const hash: K -> u32
    const primes: seq<nat>
    var table: array<Entry?<K, V>>
    var entrycount: nat
    var loadlimit: nat
    var primeindex: nat
    /** The entries of each bucket, in order. */
    ghost var chains: seq<seq<Entry<K, V>>>
    /** What the table stands for. */
    ghost var contents: map<K, V>
    /** The table and its entries, and those it has had. */
    ghost var repr: set<object>

    ghost predicate Valid()
      reads this, repr
    {
      && this !in repr && table in repr && Entries(chains) <= repr
      && Table(table, chains, hash, contents)
      && Grows(primes) && primeindex < 26 && table.Length == primes[primeindex] && loadlimit == LoadLimit(primes[primeindex])
      && entrycount == |contents|
      && (entrycount <= loadlimit || primeindex == 25)
    }

    /** create_hashtable: the smallest prime above the size asked for, which must not be more
        than 2^30. */
    constructor (minsize: nat, hash: K -> u32)
      requires minsize <= 0x4000_0000
      ensures Valid() && contents == map[] && this.hash == hash && primes == PRIMES
      ensures fresh(repr)
      ensures table.Length > minsize && (primeindex > 0 ==> primes[primeindex - 1] <= minsize)
    {
      PrimesGrow();
      var pindex := 0;
      while PRIMES[pindex] <= minsize
        invariant pindex < 26
        invariant forall i :: 0 <= i < pindex ==> PRIMES[i] <= minsize
        decreases 26 - pindex
      {
        pindex := pindex + 1;
      }
      var t, c := NewTable(PRIMES[pindex], hash);
      Close(t, c, hash, map[]);
      this.hash, primes := hash, PRIMES;
      table, chains := t, c;
      primeindex := pindex;
      entrycount := 0;
      loadlimit := LoadLimit(PRIMES[pindex]);
      contents := map[];
      repr := {t};
    }

    /** hashtable_expand: everything moves to a table of the next size, unless this is the last. */
    method Expand()
      requires this !in repr && table in repr && Entries(chains) <= repr
      requires Table(table, chains, hash, contents)
      requires Grows(primes) && primeindex < 26 && table.Length == primes[primeindex] && loadlimit == LoadLimit(primes[primeindex])
      modifies this`table, this`chains, this`primeindex, this`loadlimit, this`repr, repr
      ensures this !in repr && table in repr && Entries(chains) <= repr && fresh(repr - old(repr))
      ensures Table(table, chains, hash, contents)
      ensures primeindex == Min(old(primeindex) + 1, 25)
      ensures table.Length == primes[primeindex] && loadlimit == LoadLimit(primes[primeindex])
      ensures old(primeindex) < 25 ==> loadlimit > old(loadlimit)
    {
      if primeindex == 25 {
        return;
      }
      primeindex := primeindex + 1;
      LimitGrows(primes[primeindex - 1], primes[primeindex]);
      var newtable, n := Rehash(table, primes[primeindex], hash, contents, chains);
      table, chains, repr := newtable, n, repr + {newtable};
      loadlimit := LoadLimit(primes[primeindex]);
    }

    /** Counts one more entry, and grows the table if that is too many for it. */
    method MakeRoom()
      requires Valid()
      modifies this, repr
      ensures this !in repr && table in repr && Entries(chains) <= repr && fresh(repr - old(repr))
      ensures Table(table, chains, hash, contents) && contents == old(contents)
      ensures primeindex < 26 && table.Length == primes[primeindex] && loadlimit == LoadLimit(primes[primeindex])
      ensures entrycount == |contents| + 1 && (entrycount <= loadlimit || primeindex == 25)
    {
      entrycount := entrycount + 1;
      if entrycount > loadlimit {
        Expand();
      }
    }

    /** Links a new entry in. */
    method Link(k: K, v: V)
      requires this !in repr && table in repr && Entries(chains) <= repr
      requires Table(table, chains, hash, contents) && k !in contents
      modifies this`chains, this`contents, this`repr, table
      ensures this !in repr && table in repr && Entries(chains) <= repr && fresh(repr - old(repr))
      ensures Table(table, chains, hash, contents) && contents == old(contents)[k := v]
    {
      ghost var e, n := PutNew(table, k, v, hash, chains, contents);
      chains, contents, repr := n, contents[k := v], repr + {e};
    }

    /** hashtable_insert, of a key that is not there yet. */
    method Insert(k: K, v: V)
      requires Valid() && k !in contents
      modifies this, repr
      ensures Valid() && contents == old(contents)[k := v]
      ensures fresh(repr - old(repr))
    {
      MakeRoom();
      Link(k, v);
    }

    /** What is known of one chain. */
    lemma ChainAt(index: nat)
      requires Valid() && index < |chains|
      ensures var c := chains[index];
              Links(table[index], c) && Bucket(c, index, |chains|, hash) && Sound(c, contents)
    {
      IntactAt(table, chains, hash, contents, |chains|, index);
    }

    /** hashtable_search. */
    method Search(k: K) returns (r: Option<V>)
      requires Valid()
      ensures r == if k in contents then Some(contents[k]) else None
    {
      var hashvalue := hash(k);
      var index := IndexFor(table.Length, hashvalue);
      ghost var c := chains[index];
      ChainAt(index);
      var e := table[index];
      ghost var i := 0;
      while e != null
        invariant i <= |c| && e == After(c, i)
        invariant forall j :: 0 <= j < i ==> c[j].k != k
        decreases |c| - i
      {
        if hashvalue == e.h && k == e.k {
          return Some(e.v);
        }
        e := e.next;
        i := i + 1;
      }
      assert !InChain(c, k);
      r := None;
    }

    /** Finds a key in its chain: where it is, and what is before it. */
    method Locate(k: K) returns (index: nat, parent: Entry?<K, V>, e: Entry?<K, V>, ghost i: nat)
      requires Valid()
      ensures index < |chains| && index == IndexFor(|chains|, hash(k))
      ensures e == null <==> k !in contents
      ensures e != null ==> e.k == k && i < |chains[index]| && e == chains[index][i]
                            && parent == if i == 0 then null else chains[index][i - 1]
      ensures e != null ==> k in contents && e.v == contents[k]
    {
      var hashvalue := hash(k);
      index := IndexFor(table.Length, hashvalue);
      ghost var c := chains[index];
      ChainAt(index);
      parent, e := null, table[index];
      i := 0;
      while e != null
        invariant i <= |c| && e == After(c, i)
        invariant parent == if i == 0 then null else c[i - 1]
        invariant forall j :: 0 <= j < i ==> c[j].k != k
        decreases |c| - i
      {
        if hashvalue == e.h && k == e.k {
          return;
        }
        parent := e;
        e := e.next;
        i := i + 1;
      }
      assert !InChain(c, k);
    }

    /** hashtable_remove. */
    method Remove(k: K) returns (r: Option<V>)
      requires Valid()
      modifies this`chains, this`contents, this`entrycount, repr
      ensures Valid() && contents == old(contents) - {k} && repr == old(repr)
      ensures r == if k in old(contents) then Some(old(contents)[k]) else None
    {
      var index, parent, e, i := Locate(k);
      if e == null {
        return None;
      }
      Detach(index, parent, e, i);
      r := Some(e.v);
    }

    /** Takes out an entry that has been found. */
    method Detach(index: nat, parent: Entry?<K, V>, e: Entry<K, V>, ghost i: nat)
      requires Valid() && index < |chains| && i < |chains[index]| && e == chains[index][i]
      requires parent == if i == 0 then null else chains[index][i - 1]
      modifies this`chains, this`contents, this`entrycount, repr
      ensures Valid() && e.k in old(contents) && contents == old(contents) - {e.k}
      ensures chains == old(chains)[index := Drop(old(chains)[index], i)]
      ensures e.next == old(e.next) && repr == old(repr)
    {
      DroppedEntries(chains, index, i);
      TakeOut(table, index, parent, e, i, chains, hash, contents);
      chains, contents := chains[index := Drop(chains[index], i)], contents - {e.k};
      entrycount := entrycount - 1;
    }
  }
}
