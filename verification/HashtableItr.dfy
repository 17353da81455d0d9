/**
 The iterator over a hash table: a cursor with the entry before it, so that the current entry
 can be taken out in passing.
 */
module HashtableItr {
  import opened Bytes
  import opened Hashtable

  // ---- the order of a table ----

  /** The entries of the buckets from `b` on, in order. */
  ghost function Order<K, V>(chains: seq<seq<Entry<K, V>>>, b: nat): seq<Entry<K, V>>
    decreases |chains| - b
  {
    if b >= |chains| then [] else chains[b] + Order(chains, b + 1)
  }

  /** The entries of the buckets before `b`, in order. */
  ghost function Upto<K, V>(chains: seq<seq<Entry<K, V>>>, b: nat): seq<Entry<K, V>>
    requires b <= |chains|
  {
    if b == 0 then [] else Upto(chains, b - 1) + chains[b - 1]
  }

  lemma {:induction false} OrderSplit<K, V>(chains: seq<seq<Entry<K, V>>>, b: nat)
    requires b <= |chains|
    ensures Order(chains, 0) == Upto(chains, b) + Order(chains, b)
    decreases b
  {
    if b > 0 {
      OrderSplit(chains, b - 1);
      assert Upto(chains, b - 1) + (chains[b - 1] + Order(chains, b)) == Upto(chains, b) + Order(chains, b);
    }
  }

  lemma {:induction false} OrderSkips<K, V>(chains: seq<seq<Entry<K, V>>>, b: nat, c: nat)
    requires b <= c <= |chains| && forall i :: b <= i < c ==> chains[i] == []
    ensures Order(chains, b) == Order(chains, c)
    decreases c - b
  {
    if b < c {
      OrderSkips(chains, b + 1, c);
    }
  }

  lemma {:induction false} OrderOther<K, V>(chains: seq<seq<Entry<K, V>>>, other: seq<seq<Entry<K, V>>>, b: nat)
    requires |chains| == |other| && forall i :: b <= i < |chains| ==> chains[i] == other[i]
    ensures Order(chains, b) == Order(other, b)
    decreases |chains| - b
  {
    if b < |chains| {
      OrderOther(chains, other, b + 1);
    }
  }

  lemma {:induction false} UptoOther<K, V>(chains: seq<seq<Entry<K, V>>>, other: seq<seq<Entry<K, V>>>, b: nat)
    requires b <= |chains| == |other| && forall i :: 0 <= i < b ==> chains[i] == other[i]
    ensures Upto(chains, b) == Upto(other, b)
    decreases b
  {
    if b > 0 {
      UptoOther(chains, other, b - 1);
    }
  }

  // ---- every key once ----

  ghost predicate DistinctKeys<K, V>(s: seq<Entry<K, V>>) {
    forall i, j :: 0 <= i < j < |s| ==> s[i].k != s[j].k
  }

  ghost function Keys<K(!new), V>(s: seq<Entry<K, V>>): set<K> {
    set i | 0 <= i < |s| :: s[i].k
  }

  lemma {:induction false} CountKeys<K(!new), V>(s: seq<Entry<K, V>>)
    requires DistinctKeys(s)
    ensures |Keys(s)| == |s|
    decreases |s|
  {
    if s != [] {
      var init, last := s[..|s| - 1], s[|s| - 1];
      CountKeys(init);
      assert Keys(s) == Keys(init) + {last.k};
    }
  }

  /** The keys of the later buckets are in no earlier one, and none is there twice. */
  lemma {:induction false} OrderKeys<K, V>(chains: seq<seq<Entry<K, V>>>, hash: K -> u32, b: nat)
    requires |chains| > 0 && Buckets(chains, hash)
    ensures DistinctKeys(Order(chains, b))
    ensures forall i :: 0 <= i < |Order(chains, b)| ==> IndexFor(|chains|, hash(Order(chains, b)[i].k)) >= b
    decreases |chains| - b
  {
    if b < |chains| {
      OrderKeys(chains, hash, b + 1);
      assert Bucket(chains[b], b, |chains|, hash);
      JoinKeys(chains[b], Order(chains, b + 1), hash, |chains|, b);
    }
  }

  lemma JoinKeys<K, V>(c: seq<Entry<K, V>>, rest: seq<Entry<K, V>>, hash: K -> u32, size: nat, b: nat)
    requires Bucket(c, b, size, hash) && DistinctKeys(rest)
    requires forall i :: 0 <= i < |rest| ==> IndexFor(size, hash(rest[i].k)) > b
    ensures DistinctKeys(c + rest)
    ensures forall i :: 0 <= i < |c + rest| ==> IndexFor(size, hash((c + rest)[i].k)) >= b
  {
  }

  lemma {:induction false} OrderHas<K, V>(chains: seq<seq<Entry<K, V>>>, b: nat, a: nat, i: nat)
    requires b <= a < |chains| && i < |chains[a]|
    ensures chains[a][i] in Order(chains, b)
    decreases a - b
  {
    if b < a {
      OrderHas(chains, b + 1, a, i);
    }
  }

  lemma {:induction false} OrderSound<K, V>(chains: seq<seq<Entry<K, V>>>, m: map<K, V>, b: nat)
    requires forall b :: 0 <= b < |chains| ==> Sound(chains[b], m)
    ensures Sound(Order(chains, b), m)
    decreases |chains| - b
  {
    if b < |chains| {
      OrderSound(chains, m, b + 1);
      assert Sound(chains[b], m);
    }
  }

  /** The order lists every key of the table with its value, exactly once. */
  lemma OrderIsContents<K(!new), V>(chains: seq<seq<Entry<K, V>>>, hash: K -> u32, m: map<K, V>)
    requires Buckets(chains, hash) && Represents(chains, hash, m)
    ensures DistinctKeys(Order(chains, 0)) && Sound(Order(chains, 0), m)
    ensures Keys(Order(chains, 0)) == m.Keys && |Order(chains, 0)| == |m|
  {
    OrderKeys(chains, hash, 0);
    OrderSound(chains, m, 0);
    CountKeys(Order(chains, 0));
    forall k | k in m ensures k in Keys(Order(chains, 0)) {
      var b := IndexFor(|chains|, hash(k));
      assert InChain(chains[b], k);
      var i :| 0 <= i < |chains[b]| && chains[b][i].k == k;
      OrderHas(chains, 0, b, i);
    }
    assert Keys(Order(chains, 0)) == m.Keys;
    assert |m.Keys| == |m|;
  }

  // ---- the iterator ----

  /** The first bucket from `start` on that is not empty, or the end of the table. */
  method FirstFrom<K, V>(table: array<Entry?<K, V>>, start: nat, ghost chains: seq<seq<Entry<K, V>>>,
                         ghost hash: K -> u32, ghost m: map<K, V>)
    returns (j: nat)
    requires Table(table, chains, hash, m) && start <= table.Length
    ensures start <= j <= table.Length && forall b :: start <= b < j ==> chains[b] == []
    ensures j < table.Length ==> chains[j] != [] && table[j] == chains[j][0]
    ensures Order(chains, start) == Order(chains, j)
  {
    j := start;
    while j < table.Length
      invariant start <= j <= table.Length && Table(table, chains, hash, m)
      invariant forall b :: start <= b < j ==> chains[b] == []
    {
      IntactAt(table, chains, hash, m, |chains|, j);
      if table[j] != null {
        break;
      }
      j := j + 1;
    }
    OrderSkips(chains, start, j);
  }

  class Itr<K(==), V> {
    const h: Hashtable<K, V>
    var e: Entry?<K, V>
    var parent: Entry?<K, V>
    var index: nat
    /** Where the current entry is in its chain. */
    ghost var pos: nat
    /** The entries passed so far, without those taken out. */
    ghost var done: seq<Entry<K, V>>
    /** The entries still to come, the current one first. */
    ghost var rest: seq<Entry<K, V>>

    /** The cursor is at an entry of the table with the rest of the table behind it, or at the end. */
    ghost predicate InPlace()
      reads this, h
    {
      if e == null then rest == []
      else
        && index < |h.chains| && pos < |h.chains[index]| && e == h.chains[index][pos]
        && rest == h.chains[index][pos..] + Order(h.chains, index + 1)
    }

    /** The entry before the current one in its chain is known. */
    ghost predicate ParentKnown()
      requires InPlace()
      reads this, h
    {
      e != null ==> parent == if pos == 0 then null else h.chains[index][pos - 1]
    }

    /** What has been passed and what is to come are the whole table. */
    ghost predicate Valid()
      reads this, h
    {
      this !in h.repr && InPlace() && ParentKnown() && Order(h.chains, 0) == done + rest
    }

    /** hashtable_iterator: at the first entry. */
    constructor (h: Hashtable<K, V>)
      requires h.Valid()
      ensures Valid() && this.h == h && done == [] && rest == Order(h.chains, 0)
    {
      var j := h.table.Length;
      if h.entrycount == 0 {
        Open(h.table, h.chains, h.hash, h.contents);
        EmptyOrder(h.chains, h.contents);
      } else {
        j := FirstFrom(h.table, 0, h.chains, h.hash, h.contents);
      }
      this.h := h;
      e := if j < h.table.Length then h.table[j] else null;
      parent := null;
      index := j;
      pos, done := 0, [];
      rest := Order(h.chains, 0);
    }

    /** To the head of the next chain that is not empty. */
    method NextChain() returns (more: bool)
      requires h.Valid() && this !in h.repr && index < |h.chains| && rest == Order(h.chains, index + 1)
      modifies this`e, this`parent, this`index, this`pos
      ensures InPlace() && parent == null && more == (e != null) && (e != null ==> pos == 0)
    {
      var j := FirstFrom(h.table, index + 1, h.chains, h.hash, h.contents);
      parent := null;
      pos := 0;
      index := j;
      if j < h.table.Length {
        e := h.table[j];
        more := true;
      } else {
        e := null;
        more := false;
      }
    }

    /** Moves on from an entry whose link leads to place `p` of the chain at `index`. */
    method Step(ghost p: nat) returns (more: bool)
      requires h.Valid() && this !in h.repr && e != null && index < |h.chains| && p <= |h.chains[index]|
      requires rest == h.chains[index][p..] + Order(h.chains, index + 1)
      requires e.next == After(h.chains[index], p)
      modifies this`e, this`parent, this`index, this`pos
      ensures InPlace() && more == (e != null)
      ensures if old(p < |h.chains[index]|) then index == old(index) && pos == p && parent == old(e)
              else parent == null && (e != null ==> pos == 0)
    {
      if e.next != null {
        parent := e;
        e := e.next;
        pos := p;
        more := true;
      } else {
        more := NextChain();
      }
    }

    /** hashtable_iterator_advance. */
    method Advance() returns (more: bool)
      requires h.Valid() && Valid()
      modifies this
      ensures Valid() && more == (e != null)
      ensures old(e) == null ==> e == null && done == old(done)
      ensures old(e) != null ==>
                old(rest) != [] && old(rest[0]) == old(e) && rest == old(rest)[1..] && done == old(done) + [old(e)]
    {
      if e == null {
        more := false;
      } else {
        more := Pass();
      }
    }

    /** Past the current entry. */
    method Pass() returns (more: bool)
      requires h.Valid() && Valid() && e != null
      modifies this
      ensures Valid() && more == (e != null)
      ensures old(rest) != [] && old(rest[0]) == old(e) && rest == old(rest)[1..] && done == old(done) + [old(e)]
    {
      LinkAt(h.table, h.chains, h.hash, h.contents, index, pos);
      TailOne(h.chains[index], pos, Order(h.chains, index + 1));
      ShiftOne(done, rest);
      done, rest := done + [rest[0]], rest[1..];
      more := Step(pos + 1);
    }

    /** hashtable_iterator_remove: takes out the current entry, and no other, and moves on. */
    method Remove() returns (more: bool)
      requires h.Valid() && Valid() && e != null
      modifies this, h`chains, h`contents, h`entrycount, h.repr
      ensures h.Valid() && Valid() && more == (e != null)
      ensures old(e.k) in old(h.contents) && h.contents == old(h.contents) - {old(e.k)}
      ensures old(rest) != [] && old(rest[0]) == old(e) && rest == old(rest)[1..] && done == old(done)
    {
      Excise();
      more := StepOver();
    }

    /** The current entry leaves its chain. The cursor stays at it, and its link still leads on. */
    method Excise()
      requires h.Valid() && Valid() && e != null
      modifies this`rest, h`chains, h`contents, h`entrycount, h.repr
      ensures h.Valid() && this !in h.repr && e.k in old(h.contents) && h.contents == old(h.contents) - {e.k}
      ensures Cut(h.chains, index, pos, e.next, parent, done, rest)
      ensures e == old(e) && done == old(done)
      ensures old(rest) != [] && old(rest[0]) == e && rest == old(rest)[1..]
    {
      ghost var after := h.chains[index := Drop(h.chains[index], pos)];
      LinkAt(h.table, h.chains, h.hash, h.contents, index, pos);
      Removal(h.chains, after, index, pos, e.next, parent, done, rest);
      TakeOut(after, rest[1..]);
    }

    /** Takes the current entry out of the table; the cursor stays as it is. */
    method TakeOut(ghost after: seq<seq<Entry<K, V>>>, ghost rest': seq<Entry<K, V>>)
      requires h.Valid() && this !in h.repr && e != null && index < |h.chains| && pos < |h.chains[index]|
      requires e == h.chains[index][pos] && parent == if pos == 0 then null else h.chains[index][pos - 1]
      requires after == h.chains[index := Drop(h.chains[index], pos)]
      requires Cut(after, index, pos, e.next, parent, done, rest')
      modifies this`rest, h`chains, h`contents, h`entrycount, h.repr
      ensures h.Valid() && this !in h.repr && e.k in old(h.contents) && h.contents == old(h.contents) - {e.k}
      ensures Cut(h.chains, index, pos, e.next, parent, done, rest)
      ensures e == old(e) && done == old(done) && rest == rest'
    {
      rest := rest';
      DetachHere();
      assert h.chains == after;
    }

    method DetachHere()
      requires h.Valid() && this !in h.repr && e != null && index < |h.chains| && pos < |h.chains[index]|
      requires e == h.chains[index][pos] && parent == if pos == 0 then null else h.chains[index][pos - 1]
      modifies h`chains, h`contents, h`entrycount, h.repr
      ensures h.Valid() && this !in h.repr && e.k in old(h.contents) && h.contents == old(h.contents) - {e.k}
      ensures h.chains == old(h.chains[index := Drop(h.chains[index], pos)]) && e.next == old(e.next)
      ensures e == old(e) && parent == old(parent) && index == old(index) && pos == old(pos)
      ensures done == old(done) && rest == old(rest)
    {
      h.Detach(index, parent, e, pos);
    }

    /** Moves on from an entry that has been taken out: the next one has the same entry before it. */
    method StepOver() returns (more: bool)
      requires h.Valid() && this !in h.repr && e != null
      requires Cut(h.chains, index, pos, e.next, parent, done, rest)
      modifies this`e, this`parent, this`index, this`pos
      ensures h.Valid() && Valid() && more == (e != null)
    {
      var rememberE, rememberParent := e, parent;
      more := Step(pos);
      if parent == rememberE {
        parent := rememberParent;
      }
    }

    /** hashtable_iterator_search: to the entry of a key, when there is one. */
    method Search(k: K) returns (found: bool)
      requires h.Valid() && this !in h.repr
      modifies this
      ensures found == (k in h.contents)
      ensures found ==> Valid() && e != null && e.k == k
      ensures !found ==> e == old(e) && parent == old(parent) && index == old(index) && pos == old(pos)
      ensures !found ==> done == old(done) && rest == old(rest)
    {
      var i, p, x, n := h.Locate(k);
      found := x != null;
      if found {
        MoveTo(i, p, x, n);
      }
    }

    method MoveTo(i: nat, p: Entry?<K, V>, x: Entry<K, V>, ghost n: nat)
      requires h.Valid() && this !in h.repr && i < |h.chains| && n < |h.chains[i]| && x == h.chains[i][n]
      requires p == if n == 0 then null else h.chains[i][n - 1]
      modifies this
      ensures Valid() && e == x
    {
      OrderAt(h.chains, i, n);
      index, e, parent, pos := i, x, p, n;
      done, rest := Upto(h.chains, i) + h.chains[i][..n], h.chains[i][n..] + Order(h.chains, i + 1);
    }
  }

  lemma OrderAt<K, V>(chains: seq<seq<Entry<K, V>>>, b: nat, i: nat)
    requires b < |chains| && i < |chains[b]|
    ensures Order(chains, 0) == (Upto(chains, b) + chains[b][..i]) + (chains[b][i..] + Order(chains, b + 1))
  {
    OrderSplit(chains, b);
    Regroup(Upto(chains, b), chains[b], i, Order(chains, b + 1));
  }

  lemma Regroup<T>(u: seq<T>, c: seq<T>, i: nat, tail: seq<T>)
    requires i <= |c|
    ensures (u + c[..i]) + (c[i..] + tail) == u + (c + tail)
  {
  }

  /** The keys and values of a list of entries. */
  ghost predicate Lists<K, V>(list: seq<(K, V)>, s: seq<Entry<K, V>>) {
    |list| == |s| && forall i :: 0 <= i < |list| ==> list[i] == (s[i].k, s[i].v)
  }

  lemma ListsNext<K, V>(list: seq<(K, V)>, s: seq<Entry<K, V>>, e: Entry<K, V>)
    requires Lists(list, s)
    ensures Lists(list + [(e.k, e.v)], s + [e])
  {
  }

  /** Goes to the end, noting every entry. */
  method CollectRest<K(==), V>(itr: Itr<K, V>) returns (list: seq<(K, V)>)
    requires itr.h.Valid() && itr.Valid() && itr.done == []
    modifies itr
    ensures Lists(list, Order(itr.h.chains, 0))
  {
    list := [];
    while itr.e != null
      invariant itr.h.Valid() && itr.Valid() && Lists(list, itr.done)
      decreases |itr.rest|
    {
      ListsNext(list, itr.done, itr.e);
      list := list + [(itr.e.k, itr.e.v)];
      var more := itr.Advance();
    }
    assert itr.done + [] == itr.done;
  }

  /** A whole iteration lists every key of the table with its value, each exactly once. */
  method Collect<K(==,!new), V>(h: Hashtable<K, V>) returns (list: seq<(K, V)>)
    requires h.Valid()
    ensures |list| == |h.contents|
    ensures forall i :: 0 <= i < |list| ==> list[i].0 in h.contents && h.contents[list[i].0] == list[i].1
    ensures forall i, j :: 0 <= i < j < |list| ==> list[i].0 != list[j].0
  {
    var itr := new Itr(h);
    list := CollectRest(itr);
    ListsAll(h, list);
  }

  lemma ListsAll<K(!new), V>(h: Hashtable<K, V>, list: seq<(K, V)>)
    requires h.Valid() && Lists(list, Order(h.chains, 0))
    ensures |list| == |h.contents|
    ensures forall i :: 0 <= i < |list| ==> list[i].0 in h.contents && h.contents[list[i].0] == list[i].1
    ensures forall i, j :: 0 <= i < j < |list| ==> list[i].0 != list[j].0
  {
    Open(h.table, h.chains, h.hash, h.contents);
    OrderIsContents(h.chains, h.hash, h.contents);
  }

  lemma LinkAt<K, V>(table: array<Entry?<K, V>>, chains: seq<seq<Entry<K, V>>>, hash: K -> u32, m: map<K, V>, b: nat, i: nat)
    requires Table(table, chains, hash, m) && b < |chains| && i < |chains[b]|
    ensures chains[b][i].next == After(chains[b], i + 1)
  {
    IntactAt(table, chains, hash, m, |chains|, b);
  }

  lemma TailOne<T>(c: seq<T>, i: nat, tail: seq<T>)
    requires i < |c|
    ensures (c[i..] + tail)[0] == c[i] && (c[i..] + tail)[1..] == c[i + 1..] + tail
  {
  }

  lemma ShiftOne<T>(done: seq<T>, rest: seq<T>)
    requires rest != []
    ensures (done + [rest[0]]) + rest[1..] == done + rest
  {
  }

  lemma EmptyOrder<K, V>(chains: seq<seq<Entry<K, V>>>, m: map<K, V>)
    requires |m| == 0 && forall b :: 0 <= b < |chains| ==> Sound(chains[b], m)
    ensures Order(chains, 0) == []
  {
    OrderSound(chains, m, 0);
  }

  /** The order without one entry. */
  lemma RemovedOrder<K, V>(chains: seq<seq<Entry<K, V>>>, index: nat, i: nat, done: seq<Entry<K, V>>)
    requires index < |chains| && i < |chains[index]|
    requires Order(chains, 0) == done + (chains[index][i..] + Order(chains, index + 1))
    ensures var after := chains[index := Drop(chains[index], i)];
            && after[index][i..] == chains[index][i + 1..]
            && Order(after, index + 1) == Order(chains, index + 1)
            && Order(after, 0) == done + (chains[index][i + 1..] + Order(chains, index + 1))
  {
    var c, after := chains[index], chains[index := Drop(chains[index], i)];
    OrderSplit(chains, index);
    OrderSplit(after, index);
    UptoOther(chains, after, index);
    OrderOther(chains, after, index + 1);
    DropMiddle(Upto(chains, index), c, i, Order(chains, index + 1), done);
  }

  /** Where a cursor stands whose entry has been taken out: the links on both sides are those of
      the place in the chain where it was. */
  ghost predicate Cut<K, V>(chains: seq<seq<Entry<K, V>>>, index: nat, i: nat, next: Entry?<K, V>,
                            parent: Entry?<K, V>, done: seq<Entry<K, V>>, rest: seq<Entry<K, V>>) {
    && index < |chains| && i <= |chains[index]| && next == After(chains[index], i)
    && (parent == if i == 0 then null else chains[index][i - 1])
    && rest == chains[index][i..] + Order(chains, index + 1)
    && Order(chains, 0) == done + rest
  }

  lemma Removal<K, V>(chains: seq<seq<Entry<K, V>>>, after: seq<seq<Entry<K, V>>>, index: nat, i: nat, next: Entry?<K, V>,
                      parent: Entry?<K, V>, done: seq<Entry<K, V>>, rest: seq<Entry<K, V>>)
    requires index < |chains| && i < |chains[index]| && after == chains[index := Drop(chains[index], i)]
    requires next == After(chains[index], i + 1) && parent == if i == 0 then null else chains[index][i - 1]
    requires rest == chains[index][i..] + Order(chains, index + 1) && Order(chains, 0) == done + rest
    ensures rest[0] == chains[index][i] && Cut(after, index, i, next, parent, done, rest[1..])
  {
    TailOne(chains[index], i, Order(chains, index + 1));
    RemovedOrder(chains, index, i, done);
  }

  lemma DropMiddle<T>(front: seq<T>, c: seq<T>, i: nat, tail: seq<T>, done: seq<T>)
    requires i < |c| && front + (c + tail) == done + (c[i..] + tail)
    ensures front + (Drop(c, i) + tail) == done + (c[i + 1..] + tail)
  {
    assert c == c[..i] + c[i..];
    assert (front + c[..i]) + (c[i..] + tail) == front + (c + tail);
    SameFront(front + c[..i], done, c[i..] + tail);
    assert front + (Drop(c, i) + tail) == (front + c[..i]) + (c[i + 1..] + tail);
  }

  lemma SameFront<T>(x: seq<T>, y: seq<T>, z: seq<T>)
    requires x + z == y + z
    ensures x == y
  {
    assert |x| == |y|;
    assert x == (x + z)[..|x|] && y == (y + z)[..|y|];
  }
}
