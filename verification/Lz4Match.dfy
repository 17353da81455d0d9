/** Finding matches: reading, hashing, the hash table, and counting common bytes. */
module Lz4Match {
  import opened Bytes
  import opened Lz4Format

  const TABLE_SIZE: nat := 8192
  const SKIP_TRIGGER_UNIT: nat := 64   // 1 << LZ4_skipTrigger
  const LIMIT_64K: nat := 65547        // 64 KB + MFLIMIT - 1

  datatype TableType = ClearedTable | ByU32 | ByU16

  // ---- reading and hashing ----

  function Read32(src: seq<byte>, p: nat): (r: nat)
    requires p + 4 <= |src|
    ensures r < TWO32
  {
    Le16(src[p], src[p + 1]) + 65536 * Le16(src[p + 2], src[p + 3])
  }

  function Read64(src: seq<byte>, p: nat): (r: nat)
    requires p + 8 <= |src|
  {
    Read32(src, p) + TWO32 * Read32(src, p + 4)
  }

  function HashSize(tt: TableType): nat {
    if tt.ByU16? then TABLE_SIZE else 4096
  }

  /** LZ4_hash4 on four bytes for 16-bit tables, LZ4_hash5 on five bytes for 32-bit ones. */
  function HashPosition(src: seq<byte>, p: nat, tt: TableType): (h: nat)
    requires p + 8 <= |src|
    ensures h < HashSize(tt) <= TABLE_SIZE
  {
    if tt.ByU16? then
      var x := (Read32(src, p) * 2654435761) % TWO32;
      x / 0x8_0000
    else
      var x := (((Read64(src, p) * 0x100_0000) % TWO64) * 889523592379) % TWO64;
      x / 0x10_0000_0000_0000
  }

  lemma Le16Equal(a: byte, b: byte, c: byte, d: byte)
    requires Le16(a, b) == Le16(c, d)
    ensures a == c && b == d
  {
  }

  /** Comparing the 32-bit words compares the four bytes. */
  lemma Read32Equal(src: seq<byte>, p: nat, q: nat)
    requires p + 4 <= |src| && q + 4 <= |src|
    ensures Read32(src, p) == Read32(src, q) <==> SameBytes(src, p, q, 4)
  {
    if Read32(src, p) == Read32(src, q) {
      Le16Equal(src[p], src[p + 1], src[q], src[q + 1]);
      Le16Equal(src[p + 2], src[p + 3], src[q + 2], src[q + 3]);
    }
    if SameBytes(src, p, q, 4) {
      assert src[p] == src[q] && src[p + 1] == src[q + 1] && src[p + 2] == src[q + 2] && src[p + 3] == src[q + 3];
    }
  }

  // ---- counting ----

  /** The `n` bytes at `p` and at `q` are the same. */
  ghost predicate SameBytes(src: seq<byte>, p: nat, q: nat, n: nat) {
    p + n <= |src| && q + n <= |src| && forall i :: p <= i < p + n ==> src[i] == src[i - p + q]
  }

  /** Eight-byte words compared by their exclusive or: the index of the first byte in which
      they differ, 8 when there is none. Stands for LZ4_NbCommonBytes. */
  method CommonBytes8(src: seq<byte>, p: nat, q: nat) returns (n: nat)
    requires p + 8 <= |src| && q + 8 <= |src|
    ensures n <= 8 && SameBytes(src, p, q, n)
    ensures n < 8 ==> src[p + n] != src[q + n]
  {
    n := 0;
    while n < 8 && src[p + n] == src[q + n]
      invariant n <= 8 && SameBytes(src, p, q, n)
    {
      n := n + 1;
    }
  }

  /** LZ4_count: how far the bytes at pIn0 and pMatch0 agree, up to the limit. */
  method Count(src: seq<byte>, pIn0: nat, pMatch0: nat, limit: nat) returns (r: nat)
    requires pMatch0 < pIn0 <= limit <= |src|
    ensures pIn0 + r <= limit && SameBytes(src, pIn0, pMatch0, r)
    ensures pIn0 + r < limit ==> src[pIn0 + r] != src[pMatch0 + r]
  {
    var n := 0;
    while pIn0 + n < limit - (8 - 1)
      invariant pIn0 + n <= limit && SameBytes(src, pIn0, pMatch0, n)
    {
      var common := CommonBytes8(src, pIn0 + n, pMatch0 + n);
      JoinBytes(src, pIn0, pMatch0, n, common);
      if common < 8 {
        return n + common;
      }
      n := n + 8;
    }
    r := CountTail(src, pIn0, pMatch0, limit, n);
  }

  /** The bytes agree for n, and not for w more. */
  ghost predicate StuckWithin(src: seq<byte>, p: nat, q: nat, limit: nat, n: nat, w: nat) {
    && p + n <= limit && SameBytes(src, p, q, n)
    && (p + n + w <= limit ==> !SameBytes(src, p + n, q + n, w))
  }

  /** Less than 8 bytes left: 4, 2 and 1 at a time. */
  method CountTail(src: seq<byte>, pIn0: nat, pMatch0: nat, limit: nat, n0: nat) returns (r: nat)
    requires pMatch0 < pIn0 && pIn0 + n0 <= limit <= |src| && limit - (pIn0 + n0) < 8
    requires SameBytes(src, pIn0, pMatch0, n0)
    ensures pIn0 + r <= limit && SameBytes(src, pIn0, pMatch0, r)
    ensures pIn0 + r < limit ==> src[pIn0 + r] != src[pMatch0 + r]
  {
    r := TakeIfSame(src, pIn0, pMatch0, limit, n0, 4);
    r := TakeIfSame(src, pIn0, pMatch0, limit, r, 2);
    r := TakeIfSame(src, pIn0, pMatch0, limit, r, 1);
  }

  method TakeIfSame(src: seq<byte>, p: nat, q: nat, limit: nat, n0: nat, width: nat) returns (n: nat)
    requires q < p && limit <= |src| && width in {4, 2, 1}
    requires StuckWithin(src, p, q, limit, n0, 2 * width)
    ensures StuckWithin(src, p, q, limit, n, width)
  {
    n := n0;
    var same := AgreeOn(src, p + n, q + n, limit, width);
    if same {
      JoinBytes(src, p, q, n, width);
      n := n + width;
      TwiceSame(src, p + n0, q + n0, width);
    }
  }

  /** Whether there is room for `width` more bytes and they are the same. */
  method AgreeOn(src: seq<byte>, p: nat, q: nat, limit: nat, width: nat) returns (b: bool)
    requires q < p <= limit <= |src| && width in {4, 2, 1}
    ensures b <==> p + width <= limit && SameBytes(src, p, q, width)
  {
    if p >= limit - (width - 1) {
      return false;
    }
    match width
    case 4 =>
      Read32Equal(src, p, q);
      b := Read32(src, q) == Read32(src, p);
    case 2 =>
      b := Le16(src[q], src[q + 1]) == Le16(src[p], src[p + 1]);
      if b {
        Le16Equal(src[q], src[q + 1], src[p], src[p + 1]);
      } else {
        assert src[p] != src[q] || src[p + 1] != src[q + 1];
      }
    case _ =>
      b := src[q] == src[p];
  }

  lemma TwiceSame(src: seq<byte>, p: nat, q: nat, w: nat)
    ensures SameBytes(src, p, q, w) && SameBytes(src, p + w, q + w, w) ==> SameBytes(src, p, q, 2 * w)
  {
    if SameBytes(src, p, q, w) && SameBytes(src, p + w, q + w, w) {
      JoinBytes(src, p, q, w, w);
    }
  }

  lemma JoinBytes(src: seq<byte>, p: nat, q: nat, n: nat, m: nat)
    requires SameBytes(src, p, q, n) && SameBytes(src, p + n, q + n, m)
    ensures SameBytes(src, p, q, n + m)
  {
    forall i | p <= i < p + n + m
      ensures src[i] == src[i - p + q]
    {
      if i >= p + n {
        assert src[i] == src[i - (p + n) + (q + n)];
      }
    }
  }

  // ---- the hash table ----

  /** One compression: its input, table type, the index of its first byte, and whether
      indexes below that one are refused outright. */
  datatype Plan = Plan(src: seq<byte>, tt: TableType, startIndex: nat, dictSmall: bool)
  {
    predicate Valid() {
      && !tt.ClearedTable?
      && startIndex + |src| < TWO32
      && (tt.ByU16? ==> |src| < LIMIT_64K && (dictSmall || startIndex == 0))
      && (tt.ByU16? && startIndex > 0 ==> startIndex + |src| <= 0xFFFF)
    }
  }

  /** Every entry lies before position `ip`, and an entry left over from earlier input
      either is refused or is too far back to reach. */
  ghost predicate TableBelow(table: seq<nat>, p: Plan, ip: nat) {
    && |table| == TABLE_SIZE
    && forall h :: 0 <= h < |table| ==>
         && table[h] < p.startIndex + ip
         && (table[h] >= p.startIndex || p.dictSmall || table[h] + 65536 <= p.startIndex)
  }

  lemma TableGrows(table: seq<nat>, p: Plan, ip: nat, ip': nat)
    requires TableBelow(table, p, ip) && ip <= ip'
    ensures TableBelow(table, p, ip')
  {
  }

  /** LZ4_putPosition and LZ4_putIndexOnHash. The index fits the entry's width. */
  method PutPosition(table: array<nat>, p: Plan, pos: nat, h: nat, ghost ip: nat)
    requires p.Valid() && h < table.Length && pos < ip && pos + 11 <= |p.src|
    requires TableBelow(table[..], p, ip)
    modifies table
    ensures TableBelow(table[..], p, ip)
    ensures table[..] == old(table[..])[h := p.startIndex + pos]
  {
    var idx := p.startIndex + pos;
    assert p.tt.ByU16? ==> idx < 65536;
    table[h] := if p.tt.ByU16? then idx % 65536 else idx % TWO32;
  }

  /** Whether the search takes a table entry as the candidate for position `ip`. */
  predicate Usable(p: Plan, matchIndex: nat, ip: nat) {
    && (p.dictSmall ==> matchIndex >= p.startIndex)
    && (p.tt.ByU16? || matchIndex + DISTANCE_MAX >= p.startIndex + ip)
  }

  /** A usable entry is a position of this input within reach. */
  lemma UsableReaches(table: seq<nat>, p: Plan, h: nat, ip: nat)
    requires p.Valid() && TableBelow(table, p, ip) && h < TABLE_SIZE
    requires Usable(p, table[h], ip) && ip + 11 <= |p.src|
    ensures p.startIndex <= table[h] < p.startIndex + ip
    ensures ip - (table[h] - p.startIndex) <= DISTANCE_MAX
  {
  }

  /** A match found: 4 bytes at `ip` that also stand at `m`, within reach. */
  ghost predicate IsMatch(src: seq<byte>, ip: nat, m: nat) {
    m < ip && ip - m <= DISTANCE_MAX && ip + MFLIMIT <= |src| && SameBytes(src, ip, m, 4)
  }

  // ---- where the search looks, and what it finds there ----

  /** How far it goes on from its k-th position: one byte at first, and one more every 64 positions,
      or sooner with an acceleration. */
  function SearchStep(acceleration: nat, k: nat): nat {
    if k == 0 then 1 else (64 * acceleration + k - 1) / 64
  }

  function Place(acceleration: nat, ip0: nat, k: nat): nat {
    if k == 0 then ip0 else Place(acceleration, ip0, k - 1) + SearchStep(acceleration, k - 1)
  }

  /** What the table has under a hash when the first `k` positions were put into it: the last of
      them with that hash, or what it had before. */
  function Latest(table: seq<nat>, p: Plan, acceleration: nat, ip0: nat, k: nat, h: nat): nat
    requires h < |table|
  {
    if k == 0 then table[h]
    else
      var q := Place(acceleration, ip0, k - 1);
      if q + 8 <= |p.src| && HashPosition(p.src, q, p.tt) == h then p.startIndex + q
      else Latest(table, p, acceleration, ip0, k - 1, h)
  }

  /** The candidate for the k-th position is no position of this input at most 65535 bytes before it
      with the same four bytes. */
  ghost predicate Refused(table: seq<nat>, p: Plan, acceleration: nat, ip0: nat, k: nat)
    requires |table| == TABLE_SIZE
  {
    var q := Place(acceleration, ip0, k);
    && q + 12 <= |p.src|
    && var c := Latest(table, p, acceleration, ip0, k, HashPosition(p.src, q, p.tt));
       !(p.startIndex <= c < p.startIndex + q && p.startIndex + q - c <= 65535 && SameBytes(p.src, q, c - p.startIndex, 4))
  }

  ghost predicate AllRefused(table: seq<nat>, p: Plan, acceleration: nat, ip0: nat, n: nat)
    requires |table| == TABLE_SIZE
  {
    forall k :: 0 <= k < n ==> Refused(table, p, acceleration, ip0, k)
  }

  /** The table is what it was, with the first `n` positions put into it. */
  ghost predicate Filled(table: seq<nat>, table0: seq<nat>, p: Plan, acceleration: nat, ip0: nat, n: nat)
    requires |table| == |table0|
  {
    forall h :: 0 <= h < |table| ==> table[h] == Latest(table0, p, acceleration, ip0, n, h)
  }

  lemma FilledNext(table: seq<nat>, table0: seq<nat>, p: Plan, acceleration: nat, ip0: nat, n: nat, h: nat)
    requires |table| == |table0| && Filled(table, table0, p, acceleration, ip0, n) && h < |table|
    requires var q := Place(acceleration, ip0, n); q + 8 <= |p.src| && h == HashPosition(p.src, q, p.tt)
    ensures Filled(table[h := p.startIndex + Place(acceleration, ip0, n)], table0, p, acceleration, ip0, n + 1)
  {
    hide HashPosition;
  }

  /** A candidate that is not taken is one of those. */
  lemma RefusedNext(table: seq<nat>, table0: seq<nat>, p: Plan, acceleration: nat, ip0: nat, n: nat, h: nat)
    requires p.Valid() && |table| == |table0| == TABLE_SIZE && Filled(table, table0, p, acceleration, ip0, n)
    requires var q := Place(acceleration, ip0, n); q + 12 <= |p.src| && h == HashPosition(p.src, q, p.tt)
    requires var q, c := Place(acceleration, ip0, n), table[h];
      !(Usable(p, c, q) && p.startIndex <= c && Read32At(p.src, c - p.startIndex) == Read32At(p.src, q)) || c >= p.startIndex + q
    requires AllRefused(table0, p, acceleration, ip0, n)
    ensures AllRefused(table0, p, acceleration, ip0, n + 1)
  {
    hide HashPosition;
    var q, c := Place(acceleration, ip0, n), table[h];
    if p.startIndex <= c < p.startIndex + q {
      Read32Equal(p.src, q, c - p.startIndex);
    }
    assert Refused(table0, p, acceleration, ip0, n);
  }

  lemma SearchStarts(table: seq<nat>, p: Plan, acceleration: nat, ip0: nat)
    requires |table| == TABLE_SIZE
    ensures Filled(table, table, p, acceleration, ip0, 0) && AllRefused(table, p, acceleration, ip0, 0)
  {
  }

  lemma FilledAt(table: seq<nat>, table0: seq<nat>, p: Plan, acceleration: nat, ip0: nat, n: nat, h: nat)
    requires |table| == |table0| && Filled(table, table0, p, acceleration, ip0, n) && h < |table|
    ensures table[h] == Latest(table0, p, acceleration, ip0, n, h)
  {
  }

  lemma Matches(src: seq<byte>, ip: nat, m: nat)
    requires m < ip && ip - m <= DISTANCE_MAX && ip + MFLIMIT <= |src| && Read32(src, m) == Read32(src, ip)
    ensures IsMatch(src, ip, m)
  {
    Read32Equal(src, ip, m);
  }

  function Read32At(src: seq<byte>, p: nat): nat {
    if p + 4 <= |src| then Read32(src, p) else TWO32
  }

  /** The search loop: steps forward, ever faster, until a position matches its candidate. */
  method FindMatch(table: array<nat>, p: Plan, ip0: nat, acceleration: nat, forwardH0: nat)
    returns (found: bool, ip: nat, m: nat, ghost n: nat)
    requires p.Valid() && |p.src| >= MFLIMIT + 1 && 0 < ip0 <= |p.src| - 11 && acceleration >= 1
    requires table.Length == TABLE_SIZE && TableBelow(table[..], p, ip0) && forwardH0 == HashPosition(p.src, ip0, p.tt)
    modifies table
    ensures AllRefused(old(table[..]), p, acceleration, ip0, n)
    ensures !found ==> Place(acceleration, ip0, n + 1) > |p.src| - 11
    ensures ip <= |p.src|
    ensures found ==> ip0 <= ip && IsMatch(p.src, ip, m) && TableBelow(table[..], p, ip + 1)
    ensures found ==> ip == Place(acceleration, ip0, n)
    ensures found ==> p.startIndex + m == Latest(old(table[..]), p, acceleration, ip0, n, HashPosition(p.src, ip, p.tt))
    ensures TableBelow(table[..], p, |p.src|)
  {
    hide HashPosition, Filled, AllRefused, Latest, TableBelow, IsMatch;
    var mflimitPlusOne := |p.src| - MFLIMIT + 1;
    SearchStarts(table[..], p, acceleration, ip0);
    var forwardIp, forwardH := ip0, forwardH0;
    var step, searchMatchNb := 1, acceleration * SKIP_TRIGGER_UNIT;
    ip, m, n := ip0, 0, 0;
    while true
      invariant ip0 <= forwardIp <= mflimitPlusOne && forwardH == HashPosition(p.src, forwardIp, p.tt)
      invariant forwardIp == Place(acceleration, ip0, n) && step == SearchStep(acceleration, n)
      invariant searchMatchNb == 64 * acceleration + n
      invariant TableBelow(table[..], p, forwardIp)
      invariant Filled(table[..], old(table[..]), p, acceleration, ip0, n)
      invariant AllRefused(old(table[..]), p, acceleration, ip0, n)
      decreases mflimitPlusOne - forwardIp
    {
      var h := forwardH;
      var matchIndex := table[h];
      ip := forwardIp;
      forwardIp := forwardIp + step;
      step := searchMatchNb / SKIP_TRIGGER_UNIT;
      searchMatchNb := searchMatchNb + 1;
      if forwardIp > mflimitPlusOne {
        TableGrows(table[..], p, ip, |p.src|);
        return false, ip, 0, n;
      }
      forwardH := HashPosition(p.src, forwardIp, p.tt);
      if Usable(p, matchIndex, ip) {
        UsableReaches(table[..], p, h, ip);
      }
      TableGrows(table[..], p, ip, ip + 1);
      ghost var before := table[..];
      PutPosition(table, p, ip, h, ip + 1);
      FilledNext(before, old(table[..]), p, acceleration, ip0, n, h);
      if Usable(p, matchIndex, ip) {
        m := matchIndex - p.startIndex;
        if Read32(p.src, m) == Read32(p.src, ip) {
          TableGrows(table[..], p, ip + 1, |p.src|);
          FilledAt(before, old(table[..]), p, acceleration, ip0, n, h);
          Matches(p.src, ip, m);
          return true, ip, m, n;
        }
      }
      RefusedNext(before, old(table[..]), p, acceleration, ip0, n, h);
      n := n + 1;
      TableGrows(table[..], p, ip + 1, forwardIp);
    }
  }

  /** Catch up: extends a match backwards, down to the anchor. */
  method CatchUp(src: seq<byte>, anchor: nat, ip0: nat, m0: nat) returns (ip: nat, m: nat)
    requires anchor <= ip0 && IsMatch(src, ip0, m0)
    ensures anchor <= ip <= ip0 && IsMatch(src, ip, m)
    ensures SameBytes(src, ip, m, ip0 + 4 - ip)
  {
    ip, m := ip0, m0;
    while ip > anchor && m > 0 && src[ip - 1] == src[m - 1]
      invariant anchor <= ip <= ip0 && ip - m == ip0 - m0
      invariant SameBytes(src, ip, m, ip0 + 4 - ip)
    {
      ip, m := ip - 1, m - 1;
    }
  }
}
