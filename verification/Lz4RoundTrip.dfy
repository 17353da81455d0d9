/** The block codec as a whole: what the compressor writes, the decompressor restores. */
module Lz4RoundTrip {
  import opened Bytes
  import opened Lz4Format
  import opened Lz4FormatLaws
  import opened Lz4Compress
  import opened Lz4Stream
  import opened Lz4Decompress

  /** A compressed block keeps the end-of-block rules the decoder relies on, and decodes to
      its input in the code's 32-bit arithmetic too. */
  lemma CompressedDecodes(src: seq<byte>, block: seq<byte>)
    requires Compressed(src, block) && |src| < TWO32 && |block| < TWO32
    ensures ConformingBlock(block, 0, |src|)
    ensures Decodes(block, [], src)
    ensures StrictDecode(Exact, block, 0, []) == Some(src) && NoZeroOffset(Exact, block, 0)
  {
    var size: nat :| BlockOf(block, size, src);
    StrictIsDecode(Exact, block, 0, []);
    StrictExact(Exact, block, 0, [], src);
    ConformsDecodes(Exact, block, 0, [], size);
    ConformsWrapFree(block, 0, 0, size);
    ConformsDecodes(U32, block, 0, [], size);
    WrapExact(block, 0, [], Decode(U32, block, 0, []).value);
    assert [] + src == src;
  }

  /** LZ4_compress_fast_extState_fastReset followed by LZ4_decompress_safe, for any history
      of the compression state and any acceleration. */
  method RoundTrip(stream: Stream, src: seq<byte>, packed: array<byte>, unpacked: array<byte>, acceleration: int)
    returns (n: nat, m: int)
    requires stream.Valid() && stream.hashTable as object !in {packed, unpacked} && packed != unpacked
    requires |src| < 0x8000_0000 && packed.Length < 0x8000_0000
    requires |src| <= unpacked.Length < 0x8000_0000
    modifies stream, stream.hashTable, packed, unpacked
    ensures stream.Valid()
    ensures |src| <= MAX_INPUT_SIZE && packed.Length >= CompressBound(|src|) ==> n > 0
    ensures n > 0 ==> m == |src| && unpacked[..m] == src
  {
    n := stream.CompressFastReset(src, packed, 0, packed.Length, acceleration);
    m := -1;
    if n > 0 {
      var block := packed[..n];
      assert packed[0..0 + n] == block;
      CompressedDecodes(src, block);
      m := DecompressSafe(block, unpacked, |src|);
      assert [] + unpacked[..m] == unpacked[..m] && [] + src == src;
    }
  }

  /** LZ4_decompress_safe against the format itself, with unbounded length fields and without
      offset 0. When it succeeds, what it gives is what the format says exactly when no length
      field wraps and no match has offset 0; and it gives all of every block that keeps the
      end-of-block rules and fits. */
  method DecompressFormat(src: seq<byte>, dst: array<byte>, ghost size: nat) returns (n: int)
    requires |src| < 0x8000_0000 && dst.Length < 0x8000_0000
    modifies dst
    ensures n <= dst.Length
    ensures n >= 0 ==> (StrictDecode(Exact, src, 0, []) == Some(dst[..n]) <==> WrapFree(src, 0) && NoZeroOffset(Exact, src, 0))
    ensures n >= 0 ==> (Decode(Exact, src, 0, []) == Some(dst[..n]) <==> WrapFree(src, 0))
    ensures |src| <= 16843009 ==> WrapFree(src, 0)
    ensures Conforms(Exact, src, 0, 0, size) && size <= dst.Length && (dst.Length > 0 || src == [0])
      ==> n == size && WrapFree(src, 0)
  {
    n := DecompressSafe(src, dst, size);
    if n >= 0 {
      assert [] + dst[..n] == dst[..n];
      WrapExact(src, 0, [], dst[..n]);
      FormatExact(src, [], dst[..n]);
    }
    if |src| <= 16843009 {
      ShortIsWrapFree(src, 0);
    }
    if Conforms(Exact, src, 0, 0, size) && size <= dst.Length {
      ConformsWrapFree(src, 0, 0, size);
    }
  }

  /** A block with offset 0 that LZ4_decompress_safe decodes, though the format refuses it. */
  method DecompressZeroOffset(dst: array<byte>) returns (n: int)
    requires 17 <= dst.Length < 0x8000_0000
    modifies dst
    ensures n == 17 && dst[..n] == [65, 0, 0, 0, 0, 1, 2, 3, 4, 5, 6, 7, 8, 9, 10, 11, 12]
    ensures StrictDecode(Exact, ZeroWitness(), 0, []) == None
  {
    hide Decode, StrictDecode, Conforms, NoZeroOffset;
    ZeroOffsetDisagrees(U32, []);
    ZeroOffsetDisagrees(Exact, []);
    n := DecompressSafe(ZeroWitness(), dst, 17);
    assert [] + dst[..n] == dst[..n];
  }
}
