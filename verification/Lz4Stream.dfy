/**
 The compression state that is kept between blocks: its hash table is reused without
 clearing when LZ4_prepareTable finds that safe.
 */
module Lz4Stream {
  import opened Bytes
  import opened Lz4Format
  import opened Lz4Match
  import opened Lz4Compress

  const GB: nat := 0x4000_0000
  const ACCELERATION_DEFAULT: int := 1
  const ACCELERATION_MAX: int := 65537

  class Stream {
    const hashTable: array<nat>
    var currentOffset: nat
    var tableType: TableType
    var dictSize: nat

    /** A table that holds anything holds positions below the current offset. */
    ghost predicate Valid()
      reads this, hashTable
    {
      && hashTable.Length == TABLE_SIZE && currentOffset < TWO32
      && if tableType.ClearedTable?
         then currentOffset == 0 && forall h :: 0 <= h < TABLE_SIZE ==> hashTable[h] == 0
         else forall h :: 0 <= h < TABLE_SIZE ==> hashTable[h] < currentOffset
    }

    /** LZ4_initStream. */
    constructor ()
      ensures Valid() && tableType == ClearedTable && fresh(hashTable)
    {
      hashTable := new nat[TABLE_SIZE](_ => 0);
      currentOffset, tableType, dictSize := 0, ClearedTable, 0;
    }

    method Clear()
      requires hashTable.Length == TABLE_SIZE
      modifies this, hashTable
      ensures Valid() && tableType == ClearedTable && dictSize == old(dictSize)
    {
      forall h | 0 <= h < TABLE_SIZE {
        hashTable[h] := 0;
      }
      currentOffset, tableType := 0, ClearedTable;
    }

    /** Whether the table has to be cleared before it can serve for another input. */
    predicate MustReset(inputSize: nat, tt: TableType)
      reads this
    {
      || tableType != tt
      || (tt.ByU16? && currentOffset + inputSize >= 0xFFFF)
      || (tt.ByU32? && currentOffset > GB)
      || inputSize >= 4096
    }

    /** The plan of compressing `src` from the state as it is. */
    function PlanFor(src: seq<byte>, tt: TableType): Plan
      reads this
    {
      Plan(src, tt, currentOffset, tt.ByU16? && currentOffset != 0)
    }

    /** LZ4_prepareTable. Old entries never become matches: they are cleared, refused, or
        out of reach behind a gap of 64 KB. */
    method PrepareTable(src: seq<byte>, tt: TableType)
      requires Valid() && !tt.ClearedTable? && |src| < 0x8000_0000
      requires tt.ByU16? ==> |src| < LIMIT_64K
      modifies this, hashTable
      ensures Valid() && dictSize == 0
      ensures PlanFor(src, tt).Valid() && TableBelow(hashTable[..], PlanFor(src, tt), 1)
      ensures old(!tableType.ClearedTable? && !MustReset(|src|, tt)) ==>
                hashTable[..] == old(hashTable[..]) && currentOffset >= old(currentOffset)
    {
      if !tableType.ClearedTable? && MustReset(|src|, tt) {
        Clear();
      }
      if currentOffset != 0 && tt.ByU32? {
        currentOffset := currentOffset + KB64;
      }
      dictSize := 0;
    }

    /** LZ4_compress_generic: the special sizes, and the state's bookkeeping. */
    method CompressGeneric(src: seq<byte>, k: Sink, tt: TableType, acceleration: nat) returns (n: nat)
      requires Valid() && hashTable as object != k.dst && acceleration >= 1
      requires k.start <= k.oend <= k.dst.Length && (|src| <= MAX_INPUT_SIZE ==> k.Valid(|src|))
      requires PlanFor(src, tt).Valid() && TableBelow(hashTable[..], PlanFor(src, tt), 1)
      modifies this, hashTable, k.dst
      ensures Valid()
      ensures !k.limited && |src| <= MAX_INPUT_SIZE ==> n > 0
      ensures n > 0 ==> k.start + n <= k.oend && Compressed(src, k.dst[k.start..k.start + n])
      ensures n > 0 && src == [] ==> k.dst[k.start..k.start + n] == [0]
      ensures n > 0 && |src| >= 13 && (forall i :: 0 <= i < 9 ==> src[i] == src[0]) ==> StepAt(Exact, k.dst[k.start..k.start + n], 0).More?
      ensures forall i :: 0 <= i < k.start || k.oend <= i < k.dst.Length ==> k.dst[i] == old(k.dst[i])
    {
      if |src| > MAX_INPUT_SIZE {
        return 0;
      }
      if |src| == 0 {
        if k.limited && k.oend - k.start <= 0 {
          return 0;
        }
        k.dst[k.start] := 0;
        assert k.dst[k.start..k.start + 1] == [0];
        EmptyCompressed();
        assert src == [];
        return 1;
      }
      var p := PlanFor(src, tt);
      if |src| >= 13 && forall i :: 0 <= i < 9 ==> src[i] == src[0] {
        SameFound(hashTable[..], p, acceleration);
      }
      n := CompressValidated(k, hashTable, p, acceleration);
      Advance(p);
    }

    /** The input just compressed has moved the offset past all table entries. */
    method Advance(p: Plan)
      requires hashTable.Length == TABLE_SIZE && p.Valid() && p.startIndex == currentOffset
      requires TableBelow(hashTable[..], p, |p.src|)
      modifies this
      ensures Valid() && currentOffset == old(currentOffset) + |p.src| && tableType == p.tt
    {
      dictSize := dictSize + |p.src|;
      currentOffset := currentOffset + |p.src|;
      tableType := p.tt;
      forall h | 0 <= h < TABLE_SIZE
        ensures hashTable[h] < currentOffset
      {
        assert hashTable[..][h] == hashTable[h];
      }
    }

    /** LZ4_compress_fast_extState_fastReset, into a window of `capacity` bytes. */
    method CompressFastReset(src: seq<byte>, dst: array<byte>, start: nat, capacity: nat, acceleration: int) returns (n: nat)
      requires Valid() && hashTable as object != dst && start + capacity <= dst.Length && |src| < 0x8000_0000
      modifies this, hashTable, dst
      ensures Valid()
      ensures n > 0 ==> n <= capacity && Compressed(src, dst[start..start + n])
      ensures n > 0 && src == [] ==> dst[start..start + n] == [0]
      ensures n > 0 && |src| >= 13 && (forall i :: 0 <= i < 9 ==> src[i] == src[0]) ==> StepAt(Exact, dst[start..start + n], 0).More?
      ensures |src| <= MAX_INPUT_SIZE && capacity >= CompressBound(|src|) ==> n > 0
      ensures forall i :: 0 <= i < start || start + capacity <= i < dst.Length ==> dst[i] == old(dst[i])
    {
      var k := Sink(dst, start, start + capacity, capacity < CompressBound(|src|));
      var tt := if |src| < LIMIT_64K then ByU16 else ByU32;
      PrepareTable(src, tt);
      n := CompressGeneric(src, k, tt, Clamp(acceleration));
    }

    /** LZ4_compress_fast_extState: the same from a state just initialised. */
    method CompressFast(src: seq<byte>, dst: array<byte>, start: nat, capacity: nat, acceleration: int) returns (n: nat)
      requires hashTable.Length == TABLE_SIZE && hashTable as object != dst && start + capacity <= dst.Length
      requires |src| < 0x8000_0000
      modifies this, hashTable, dst
      ensures Valid()
      ensures n > 0 ==> n <= capacity && Compressed(src, dst[start..start + n])
      ensures n > 0 && src == [] ==> dst[start..start + n] == [0]
      ensures n > 0 && |src| >= 13 && (forall i :: 0 <= i < 9 ==> src[i] == src[0]) ==> StepAt(Exact, dst[start..start + n], 0).More?
      ensures |src| <= MAX_INPUT_SIZE && capacity >= CompressBound(|src|) ==> n > 0
      ensures forall i :: 0 <= i < start || start + capacity <= i < dst.Length ==> dst[i] == old(dst[i])
    {
      Clear();
      dictSize := 0;
      n := CompressFastReset(src, dst, start, capacity, acceleration);
    }
  }

  function Clamp(acceleration: int): (a: nat)
    ensures 1 <= a <= ACCELERATION_MAX && (1 <= acceleration <= ACCELERATION_MAX ==> a == acceleration)
  {
    if acceleration < 1 then ACCELERATION_DEFAULT
    else if acceleration > ACCELERATION_MAX then ACCELERATION_MAX
    else acceleration
  }

  lemma EmptyCompressed()
    ensures Compressed([], [0])
  {
    assert LiteralStep(Exact, [0], 1, 0, 0) == Last([]);
    assert forall h: seq<byte> :: h + [] == h;
    assert BlockOf([0], 0, []);
  }
}
