/** Frames built block by block, and how large they can get. */
module FrameBlocks {
  import opened Bytes
  import opened FrameFormat
  import opened FrameLayout

  // ---- a frame grows ----

  function BlocksBytes(x: Xxh, info: Info, blocks: seq<Block>): seq<byte> {
    if blocks == [] then []
    else BlocksBytes(x, info, blocks[..|blocks| - 1]) + RenderBlock(x, info, blocks[|blocks| - 1])
  }

  lemma BytesStep(x: Xxh, info: Info, blocks: seq<Block>, b: Block)
    ensures BlocksBytes(x, info, blocks + [b]) == BlocksBytes(x, info, blocks) + RenderBlock(x, info, b)
  {
    assert (blocks + [b])[..|blocks|] == blocks;
  }

  lemma {:induction false} BytesRest(x: Xxh, f: Frame, i: nat)
    requires f.Frame? && i <= |f.blocks|
    ensures BlocksBytes(x, f.info, f.blocks[..i]) + RenderFrom(x, f, i) == RenderFrom(x, f, 0)
    decreases i
  {
    if i > 0 {
      BytesRest(x, f, i - 1);
      var a, b, c := BlocksBytes(x, f.info, f.blocks[..i - 1]), RenderBlock(x, f.info, f.blocks[i - 1]), RenderFrom(x, f, i);
      assert f.blocks[..i] == f.blocks[..i - 1] + [f.blocks[i - 1]];
      BytesStep(x, f.info, f.blocks[..i - 1], f.blocks[i - 1]);
      assert (a + b) + c == a + (b + c);
    }
  }

  /** A frame is its header, its blocks one after the other, and its end. */
  lemma Assembled(x: Xxh, info: Info, blocks: seq<Block>)
    requires 4 <= info.sizeId <= 7
    ensures Header(x, info) + BlocksBytes(x, info, blocks) + Suffix(x, Frame(info, blocks)) == Render(x, Frame(info, blocks))
  {
    var f := Frame(info, blocks);
    BytesRest(x, f, |blocks|);
    assert blocks[..|blocks|] == blocks;
    var h, b, s := Header(x, info), BlocksBytes(x, info, blocks), Suffix(x, f);
    assert (h + b) + s == h + (b + s);
  }

  lemma {:induction false} ContentsSame(blocks: seq<Block>, b: Block, i: nat)
    requires i <= |blocks|
    ensures Contents(blocks + [b], i) == Contents(blocks, i)
    decreases i
  {
    if i > 0 {
      ContentsSame(blocks, b, i - 1);
      assert (blocks + [b])[i - 1] == blocks[i - 1];
    }
  }

  /** Each block is right behind those before it. */
  ghost predicate InOrder(info: Info, blocks: seq<Block>)
    requires 4 <= info.sizeId <= 7
  {
    forall i :: 0 <= i < |blocks| ==> ValidBlock(info, blocks[i], Contents(blocks, i))
  }

  lemma InOrderIsValid(info: Info, blocks: seq<Block>)
    requires ValidInfo(info) && InOrder(info, blocks)
    requires Promised(info) != 0 ==> |Contents(blocks, |blocks|)| == Promised(info)
    ensures ValidFrame(Frame(info, blocks))
  {
  }

  /** One more block at the end. */
  lemma OneMore(x: Xxh, info: Info, blocks: seq<Block>, b: Block)
    requires ValidInfo(info)
    ensures Contents(blocks + [b], |blocks + [b]|) == Contents(blocks, |blocks|) + b.Content()
    ensures Header(x, info) + BlocksBytes(x, info, blocks + [b])
            == Header(x, info) + BlocksBytes(x, info, blocks) + RenderBlock(x, info, b)
  {
    hide Header, RenderBlock;
    BytesStep(x, info, blocks, b);
    ContentsSame(blocks, b, |blocks|);
    Assoc(Header(x, info), BlocksBytes(x, info, blocks), RenderBlock(x, info, b));
  }

  lemma OneMoreInOrder(info: Info, blocks: seq<Block>, b: Block)
    requires ValidInfo(info) && InOrder(info, blocks) && ValidBlock(info, b, Contents(blocks, |blocks|))
    ensures InOrder(info, blocks + [b])
  {
    hide ValidBlock;
    forall i | 0 <= i < |blocks + [b]|
      ensures ValidBlock(info, (blocks + [b])[i], Contents(blocks + [b], i))
    {
      ContentsSame(blocks, b, i);
      assert i < |blocks| ==> ValidBlock(info, blocks[i], Contents(blocks, i));
    }
  }

  // ---- how large it gets ----

  /** What the blocks for `n` more bytes take at most: as much as the bytes, a size word each, and
      a checksum each when there are checksums. */
  function Cost(n: nat, size: nat, crc: nat, flush: bool): nat
    requires size > 0
  {
    if n >= size then 4 + crc + size + Cost(n - size, size, crc, flush)
    else if flush && n > 0 then 4 + crc + n
    else 0
  }

  /** LZ4F_compressBound_internal. */
  function CompressBoundInternal(srcSize: nat, sizeId: nat, autoFlush: bool, blockSums: bool, contentSum: bool,
                                 alreadyBuffered: nat): nat
    requires 4 <= sizeId <= 7
  {
    var flush := autoFlush || srcSize == 0;
    var blockSize := BlockSize(sizeId);
    var bufferedSize := Min(alreadyBuffered, blockSize - 1);
    var maxSrcSize := srcSize + bufferedSize;
    var nbFullBlocks := maxSrcSize / blockSize;
    var partialBlockSize := maxSrcSize % blockSize;
    var lastBlockSize := if flush then partialBlockSize else 0;
    var nbBlocks := nbFullBlocks + if lastBlockSize > 0 then 1 else 0;
    var blockCRCSize := if blockSums then CHECKSUM else 0;
    var frameEnd := BLOCK_HEADER + if contentSum then CHECKSUM else 0;
    (BLOCK_HEADER + blockCRCSize) * nbBlocks + blockSize * nbFullBlocks + lastBlockSize + frameEnd
  }

  /** LZ4F_compressFrameBound, for given preferences. */
  function CompressFrameBound(srcSize: nat, sizeId: nat, blockSums: bool, contentSum: bool): nat
    requires 4 <= sizeId <= 7
  {
    MAX_HEADER + CompressBoundInternal(srcSize, sizeId, true, blockSums, contentSum, 0)
  }

  /** A full block of 64 KB and one more byte with both checksums, and less than a block with none. */
  lemma KnownBounds()
    ensures CompressFrameBound(65537, 4, true, true) == 19 + (4 + 65536 + 4) + (4 + 1 + 4) + (4 + 4)
    ensures CompressFrameBound(1000, 7, false, false) == 19 + (4 + 1000) + 4
    ensures CompressFrameBound(0, 4, false, true) == 19 + (4 + 4)
  {
    assert BlockSize(4) == 65536 && BlockSize(7) == 4194304;
  }

  lemma DivStep(n: nat, sizeId: nat)
    requires 4 <= sizeId <= 7
    ensures var b := BlockSize(sizeId);
            if n >= b then n / b == (n - b) / b + 1 && n % b == (n - b) % b else n / b == 0 && n % b == n
  {
    if sizeId == 4 {
      assert BlockSize(sizeId) == 65536;
    } else if sizeId == 5 {
      assert BlockSize(sizeId) == 262144;
    } else if sizeId == 6 {
      assert BlockSize(sizeId) == 1048576;
    } else {
      assert BlockSize(sizeId) == 4194304;
    }
  }

  lemma TimesNext(b: nat, k: nat)
    ensures b * (k + 1) == b * k + b
  {
  }

  /** The closed form of what the blocks cost. */
  lemma {:induction false} CostClosed(n: nat, sizeId: nat, crc: nat, flush: bool)
    requires 4 <= sizeId <= 7
    ensures var b := BlockSize(sizeId); var last := if flush then n % b else 0;
            Cost(n, b, crc, flush) == (4 + crc) * (n / b + if last > 0 then 1 else 0) + b * (n / b) + last
    decreases n
  {
    var b := BlockSize(sizeId);
    DivStep(n, sizeId);
    if n >= b {
      CostClosed(n - b, sizeId, crc, flush);
      TimesNext(b, (n - b) / b);
      TimesNext(4 + crc, (n - b) / b);
      TimesNext(4 + crc, (n - b) / b + 1);
    } else {
      TimesNext(4 + crc, 0);
      assert b * 0 == 0;
    }
  }

  /** The bound is the blocks' cost and the end of the frame. */
  lemma BoundIsCost(srcSize: nat, sizeId: nat, autoFlush: bool, blockSums: bool, contentSum: bool, buffered: nat)
    requires 4 <= sizeId <= 7 && buffered < BlockSize(sizeId)
    ensures CompressBoundInternal(srcSize, sizeId, autoFlush, blockSums, contentSum, buffered)
            == Cost(srcSize + buffered, BlockSize(sizeId), if blockSums then CHECKSUM else 0, autoFlush || srcSize == 0)
               + BLOCK_HEADER + if contentSum then CHECKSUM else 0
  {
    CostClosed(srcSize + buffered, sizeId, if blockSums then CHECKSUM else 0, autoFlush || srcSize == 0);
  }

  /** The larger block size costs the same when all fits one block of the smaller. */
  lemma SmallerSame(srcSize: nat, small: nat, large: nat, crc: nat)
    requires 4 <= small <= large <= 7 && srcSize <= BlockSize(small)
    ensures Cost(srcSize, BlockSize(small), crc, true) == Cost(srcSize, BlockSize(large), crc, true)
  {
    assert Cost(0, BlockSize(small), crc, true) == 0 == Cost(0, BlockSize(large), crc, true);
  }

  /** LZ4F_optimalBSID: the smallest of the block sizes up to the one requested that holds the
      source whole, or the one requested. */
  method OptimalBSID(requested: nat, srcSize: nat) returns (id: nat)
    requires requested == 0 || 4 <= requested <= 7
    ensures requested <= 4 ==> id == requested
    ensures requested > 4 ==> 4 <= id <= requested && (id < requested ==> srcSize <= BlockSize(id))
    ensures requested > 4 ==> forall k :: 4 <= k < id ==> srcSize > BlockSize(k)
  {
    id := 4;
    var maxBlockSize := 65536;
    while requested > id
      invariant 4 <= id <= 7 && (requested > 4 ==> id <= requested) && maxBlockSize == BlockSize(id)
      invariant forall k :: 4 <= k < id ==> srcSize > BlockSize(k)
      decreases 8 - id
    {
      if srcSize <= maxBlockSize {
        return;
      }
      id := id + 1;
      maxBlockSize := maxBlockSize * 4;
    }
    id := requested;
  }

  /** Choosing the smaller block size leaves the bound as it was. */
  lemma OptimalKeepsBound(requested: nat, id: nat, srcSize: nat, blockSums: bool, contentSum: bool)
    requires 4 <= id <= requested <= 7 && (id < requested ==> srcSize <= BlockSize(id))
    ensures CompressFrameBound(srcSize, id, blockSums, contentSum) == CompressFrameBound(srcSize, requested, blockSums, contentSum)
  {
    BoundIsCost(srcSize, id, true, blockSums, contentSum, 0);
    BoundIsCost(srcSize, requested, true, blockSums, contentSum, 0);
    if id < requested {
      SmallerSame(srcSize, id, requested, if blockSums then CHECKSUM else 0);
    }
  }

  // ---- any compressor stays below the bound ----

  /** A block no larger than its content, which is at most `size` bytes. */
  predicate Thrifty(b: Block, size: nat) {
    |b.data| <= |b.Content()| && 0 < |b.Content()| <= size
  }

  /** Source cut into blocks: all but the last are full. */
  ghost predicate CutUp(blocks: seq<Block>, size: nat) {
    && (forall i :: 0 <= i < |blocks| ==> Thrifty(blocks[i], size))
    && (forall i :: 0 <= i < |blocks| - 1 ==> |blocks[i].Content()| == size)
  }

  /** What the last block adds. */
  lemma LastAdds(x: Xxh, info: Info, init: seq<Block>, b: Block)
    ensures |BlocksBytes(x, info, init + [b])|
            == |BlocksBytes(x, info, init)| + 4 + |b.data| + if info.blockSums then CHECKSUM else 0
    ensures |Contents(init + [b], |init + [b]|)| == |Contents(init, |init|)| + |b.Content()|
  {
    BytesStep(x, info, init, b);
    ContentsSame(init, b, |init|);
  }

  lemma {:induction false} FullBlocksFit(x: Xxh, info: Info, blocks: seq<Block>, size: nat, rest: nat)
    requires size > 0 && forall i :: 0 <= i < |blocks| ==> Thrifty(blocks[i], size) && |blocks[i].Content()| == size
    ensures var crc := if info.blockSums then CHECKSUM else 0;
            |BlocksBytes(x, info, blocks)| + Cost(rest, size, crc, true)
            <= Cost(|Contents(blocks, |blocks|)| + rest, size, crc, true)
    decreases |blocks|
  {
    if blocks != [] {
      var init, b := blocks[..|blocks| - 1], blocks[|blocks| - 1];
      assert blocks == init + [b];
      LastAdds(x, info, init, b);
      FullBlocksFit(x, info, init, size, rest + size);
      assert |Contents(init, |init|)| + (rest + size) == |Contents(blocks, |blocks|)| + rest;
    }
  }

  lemma BlocksFit(x: Xxh, info: Info, blocks: seq<Block>, size: nat)
    requires size > 0 && CutUp(blocks, size)
    ensures |BlocksBytes(x, info, blocks)|
            <= Cost(|Contents(blocks, |blocks|)|, size, if info.blockSums then CHECKSUM else 0, true)
  {
    if blocks != [] {
      var init, b := blocks[..|blocks| - 1], blocks[|blocks| - 1];
      assert blocks == init + [b] && Thrifty(b, size);
      hide BlocksBytes, Contents;
      LastAdds(x, info, init, b);
      FullBlocksFit(x, info, init, size, |b.Content()|);
      assert Cost(0, size, if info.blockSums then CHECKSUM else 0, true) == 0;
    }
  }

  /** Whatever compresses the blocks, linked or not: as LZ4F_makeBlock stores the block itself when
      compression does not make it smaller, the frame is within LZ4F_compressFrameBound. */
  lemma AnyCompressorFits(x: Xxh, info: Info, blocks: seq<Block>)
    requires 4 <= info.sizeId <= 7 && CutUp(blocks, BlockSize(info.sizeId))
    ensures |Render(x, Frame(info, blocks))|
            <= CompressFrameBound(|Contents(blocks, |blocks|)|, info.sizeId, info.blockSums, info.contentSum)
  {
    hide Header, Suffix, CompressBoundInternal;
    Assembled(x, info, blocks);
    BlocksFit(x, info, blocks, BlockSize(info.sizeId));
    BoundIsCost(|Contents(blocks, |blocks|)|, info.sizeId, true, info.blockSums, info.contentSum, 0);
    SuffixSize(x, Frame(info, blocks));
  }

  lemma SuffixSize(x: Xxh, f: Frame)
    requires f.Frame?
    ensures |Suffix(x, f)| == BLOCK_HEADER + if f.info.contentSum then CHECKSUM else 0
  {
  }
}
