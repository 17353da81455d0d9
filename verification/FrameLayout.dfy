/** Where the parts of a frame are in a stream that begins with it. */
module FrameLayout {
  import opened Bytes
  import opened FrameFormat
  import opened FrameHeader

  function CrcSize(info: Info): (n: nat)
    ensures n <= CHECKSUM
  {
    if info.blockSums then CHECKSUM else 0
  }

  /** The position of block `i`, or of the end mark. */
  function At(f: Frame, i: nat): nat
    requires f.Frame? && i <= |f.blocks|
  {
    if i == 0 then HeaderSize(f.info)
    else At(f, i - 1) + 4 + |f.blocks[i - 1].data| + CrcSize(f.info)
  }

  /** The stream begins with the frame. */
  ghost predicate Opens(x: Xxh, f: Frame, t: seq<byte>) {
    ValidFrame(f) && Render(x, f) <= t
  }

  lemma HoldsParts(t: seq<byte>, p: nat, a: seq<byte>, b: seq<byte>, ab: seq<byte>, q: nat)
    requires ab == a + b && q == p + |a| && p <= |t| && Holds(t, p, ab)
    ensures Holds(t, p, a) && q <= |t| && Holds(t, q, b)
  {
    HoldsSlice(t, p, ab);
    var s := t[p..p + |ab|];
    assert a == s[..|a|] && b == s[|a|..];
    HoldsSlice(t, p, a);
    HoldsSlice(t, q, b);
  }

  /** The part of a frame before block `i + 1`, from block `i` on. */
  lemma FromStep(x: Xxh, f: Frame, t: seq<byte>, i: nat, p: nat, q: nat)
    requires f.Frame? && i < |f.blocks| && p <= |t|
    requires q == p + 4 + |f.blocks[i].data| + CrcSize(f.info)
    requires Holds(t, p, RenderFrom(x, f, i))
    ensures Holds(t, p, RenderBlock(x, f.info, f.blocks[i])) && q <= |t| && Holds(t, q, RenderFrom(x, f, i + 1))
  {
    HoldsParts(t, p, RenderBlock(x, f.info, f.blocks[i]), RenderFrom(x, f, i + 1), RenderFrom(x, f, i), q);
  }

  /** After the header come the blocks. */
  ghost predicate Bodies(x: Xxh, f: Frame, t: seq<byte>)
    requires f.Frame?
  {
    HeaderSize(f.info) <= |t| && Holds(t, HeaderSize(f.info), RenderFrom(x, f, 0))
  }

  lemma FromStart(x: Xxh, f: Frame, t: seq<byte>)
    requires f.Frame? && Opens(x, f, t)
    ensures Bodies(x, f, t)
  {
    HoldsPrefix(t, Render(x, f));
    HoldsParts(t, 0, Header(x, f.info), RenderFrom(x, f, 0), Render(x, f), HeaderSize(f.info));
  }

  lemma {:induction false} FromAt(x: Xxh, f: Frame, t: seq<byte>, i: nat)
    requires f.Frame? && i <= |f.blocks| && Bodies(x, f, t)
    ensures At(f, i) <= |t| && Holds(t, At(f, i), RenderFrom(x, f, i))
    decreases i
  {
    if i > 0 {
      FromAt(x, f, t, i - 1);
      FromStep(x, f, t, i - 1, At(f, i - 1), At(f, i));
    }
  }

  lemma BlockParts(x: Xxh, info: Info, t: seq<byte>, p: nat, b: Block, c: seq<byte>)
    requires p <= |t| && Holds(t, p, RenderBlock(x, info, b)) && c == Checksum(x, info.blockSums, b.data)
    ensures p + 4 + |b.data| + |c| <= |t|
    ensures Holds(t, p, Le(4, BlockWord(b))) && Holds(t, p + 4, b.data) && Holds(t, p + 4 + |b.data|, c)
  {
    hide Holds, Le, BlockWord;
    HoldsParts(t, p, Le(4, BlockWord(b)), b.data + c, RenderBlock(x, info, b), p + 4);
    HoldsParts(t, p + 4, b.data, c, b.data + c, p + 4 + |b.data|);
    HoldsSlice(t, p + 4 + |b.data|, c);
  }

  /** Block `i`: its size word, its data, its checksum. */
  lemma BlockAt(x: Xxh, f: Frame, t: seq<byte>, i: nat, p: nat, b: Block)
    requires f.Frame? && Bodies(x, f, t) && i < |f.blocks| && p == At(f, i) && b == f.blocks[i]
    ensures p + 4 + |b.data| + CrcSize(f.info) <= |t|
    ensures Holds(t, p, Le(4, BlockWord(b))) && Holds(t, p + 4, b.data)
    ensures Holds(t, p + 4 + |b.data|, Checksum(x, f.info.blockSums, b.data))
  {
    FromAt(x, f, t, i);
    FromStep(x, f, t, i, p, p + 4 + |b.data| + CrcSize(f.info));
    BlockParts(x, f.info, t, p, b, Checksum(x, f.info.blockSums, b.data));
  }

  lemma EndParts(t: seq<byte>, p: nat, c: seq<byte>, suffix: seq<byte>)
    requires p <= |t| && Holds(t, p, suffix) && suffix == Le(4, 0) + c
    ensures p + 4 <= |t| && Holds(t, p, Le(4, 0)) && Holds(t, p + 4, c)
  {
    HoldsParts(t, p, Le(4, 0), c, suffix, p + 4);
  }

  /** The end mark and the checksum of the contents. */
  lemma EndAt(x: Xxh, f: Frame, t: seq<byte>, p: nat)
    requires f.Frame? && Bodies(x, f, t) && p == At(f, |f.blocks|)
    ensures p + 4 <= |t| && Holds(t, p, Le(4, 0))
    ensures Holds(t, p + 4, Checksum(x, f.info.contentSum, FrameContent(f)))
  {
    FromAt(x, f, t, |f.blocks|);
    EndParts(t, p, Checksum(x, f.info.contentSum, FrameContent(f)), RenderFrom(x, f, |f.blocks|));
  }

  /** A number the stream goes on with is read back. */
  lemma NumberAt(t: seq<byte>, p: nat, q: nat, n: nat)
    requires p <= |t| && q == p + 4 && n < TWO32 && Holds(t, p, Le(4, n))
    ensures q <= |t| && LeNum(t[p..q]) == n
  {
    Powers();
    HoldsSlice(t, p, Le(4, n));
    LeRead(4, n);
  }

  lemma BlockSmall(f: Frame, i: nat)
    requires f.Frame? && ValidFrame(f) && i < |f.blocks|
    ensures ValidBlock(f.info, f.blocks[i], Contents(f.blocks, i))
    ensures BlockWord(f.blocks[i]) < TWO32
  {
  }

  lemma SkippableAt(x: Xxh, f: Frame, t: seq<byte>)
    requires f.Skippable? && Opens(x, f, t)
    ensures 8 + |f.data| <= |t|
    ensures LeNum(t[0..4]) == MAGIC_SKIPPABLE_START + f.tag && LeNum(t[4..8]) == |f.data|
  {
    var a, b := Le(4, MAGIC_SKIPPABLE_START + f.tag), Le(4, |f.data|);
    HoldsPrefix(t, Render(x, f));
    HoldsParts(t, 0, a, b + f.data, Render(x, f), 4);
    HoldsParts(t, 4, b, f.data, b + f.data, 8);
    HoldsSlice(t, 8, f.data);
    NumberAt(t, 0, 4, MAGIC_SKIPPABLE_START + f.tag);
    NumberAt(t, 4, 8, |f.data|);
  }

  lemma HeadFits(x: Xxh, f: Frame, t: seq<byte>, src: seq<byte>)
    requires f.Frame? && Opens(x, f, t) && src <= t
    ensures src <= Header(x, f.info) || Header(x, f.info) <= src
  {
    var h := Header(x, f.info);
    assert h <= t;
    if |src| >= |h| {
      assert src[..|h|] == t[..|h|];
    } else {
      assert h[..|src|] == t[..|src|];
    }
  }

  /** How the first bytes of the stream are read. */
  lemma HeadRead(x: Xxh, f: Frame, t: seq<byte>, src: seq<byte>)
    requires Opens(x, f, t) && src <= t && |src| >= MIN_HEADER
    ensures ReadHeader(x, src) ==
            if f.Skippable? then Skip
            else if |src| < HeaderSize(f.info) then Short(HeaderSize(f.info))
            else Good(f.info, HeaderSize(f.info))
  {
    if f.Skippable? {
      SkippableAt(x, f, t);
      assert src[..4] == t[0..4];
    } else {
      HeadFits(x, f, t, src);
      HeaderRead(x, f.info, src);
    }
  }

  lemma {:induction false} ContentsGrow(blocks: seq<Block>, i: nat, j: nat)
    requires i <= j <= |blocks|
    ensures |Contents(blocks, i)| <= |Contents(blocks, j)|
    decreases j
  {
    if i < j {
      ContentsGrow(blocks, i, j - 1);
    }
  }

  lemma {:induction false} LengthFrom(x: Xxh, f: Frame, i: nat)
    requires f.Frame? && i <= |f.blocks|
    ensures At(f, i) + |RenderFrom(x, f, i)| == At(f, |f.blocks|) + 4 + if f.info.contentSum then CHECKSUM else 0
    decreases |f.blocks| - i
  {
    if i < |f.blocks| {
      LengthFrom(x, f, i + 1);
    }
  }

  /** How long a frame is. */
  lemma FrameLength(x: Xxh, f: Frame)
    requires f.Frame? && 4 <= f.info.sizeId <= 7
    ensures |Render(x, f)| == At(f, |f.blocks|) + 4 + if f.info.contentSum then CHECKSUM else 0
  {
    LengthFrom(x, f, 0);
  }

  // ---- all of it at once ----

  /** The size word at block `at`, and the limits a valid frame keeps to. */
  ghost predicate WordSays(f: Frame, at: nat, word: nat)
    requires f.Frame? && at <= |f.blocks|
  {
    if at == |f.blocks| then word == 0
    else
      && word == BlockWord(f.blocks[at]) && word != 0 && 4 <= f.info.sizeId <= 7
      && |f.blocks[at].data| <= BlockSize(f.info.sizeId) && |f.blocks[at].data| < UNCOMPRESSED_FLAG
  }

  /** A 4-byte number lies at `p`. */
  predicate Number(t: seq<byte>, p: nat, n: nat) {
    p + 4 <= |t| && LeNum(t[p..p + 4]) == n
  }

  ghost predicate LaidAt(x: Xxh, f: Frame, t: seq<byte>, i: nat)
    requires f.Frame? && i <= |f.blocks|
  {
    var p := At(f, i);
    && p + 4 <= |t| && WordSays(f, i, LeNum(t[p..p + 4]))
    && (i == |f.blocks| && f.info.contentSum ==> Number(t, p + 4, x(FrameContent(f))))
    && (i < |f.blocks| ==>
          && p + 4 + |f.blocks[i].data| <= |t| && t[p + 4..p + 4 + |f.blocks[i].data|] == f.blocks[i].data
          && (f.info.blockSums ==> Number(t, p + 4 + |f.blocks[i].data|, x(f.blocks[i].data))))
  }

  /** Every part of the frame is where it should be. */
  ghost predicate Laid(x: Xxh, f: Frame, t: seq<byte>)
    requires f.Frame?
  {
    forall i {:trigger LaidAt(x, f, t, i)} :: 0 <= i <= |f.blocks| ==> LaidAt(x, f, t, i)
  }

  lemma LaysBlock(x: Xxh, f: Frame, t: seq<byte>, i: nat, p: nat, b: Block)
    requires f.Frame? && Bodies(x, f, t) && i < |f.blocks| && p == At(f, i) && b == f.blocks[i] && BlockWord(b) < TWO32
    ensures p + 4 + |b.data| <= |t| && t[p + 4..p + 4 + |b.data|] == b.data && LeNum(t[p..p + 4]) == BlockWord(b)
    ensures f.info.blockSums ==> Number(t, p + 4 + |b.data|, x(b.data))
  {
    hide Holds, Bodies, RenderBlock, LeNum, Le, BlockWord;
    BlockAt(x, f, t, i, p, b);
    NumberAt(t, p, p + 4, BlockWord(b));
    DataOut(x, f.info.blockSums, t, p + 4, p + 4 + |b.data|, b.data);
  }

  lemma DataOut(x: Xxh, sums: bool, t: seq<byte>, p: nat, q: nat, data: seq<byte>)
    requires p <= |t| && q == p + |data| && q <= |t| && Holds(t, p, data) && Holds(t, q, Checksum(x, sums, data))
    ensures t[p..q] == data
    ensures sums ==> Number(t, q, x(data))
  {
    HoldsSlice(t, p, data);
    if sums {
      NumberAt(t, q, q + 4, x(data));
    }
  }

  lemma LaysEnd(x: Xxh, f: Frame, t: seq<byte>, p: nat)
    requires f.Frame? && Bodies(x, f, t) && p == At(f, |f.blocks|)
    ensures p + 4 <= |t| && LeNum(t[p..p + 4]) == 0
    ensures f.info.contentSum ==> Number(t, p + 4, x(FrameContent(f)))
  {
    EndAt(x, f, t, p);
    NumberAt(t, p, p + 4, 0);
    if f.info.contentSum {
      NumberAt(t, p + 4, p + 8, x(FrameContent(f)));
    }
  }

  lemma LaysAt(x: Xxh, f: Frame, t: seq<byte>, i: nat)
    requires f.Frame? && Bodies(x, f, t) && i <= |f.blocks|
    requires i < |f.blocks| ==> BlockWord(f.blocks[i]) < TWO32 && WordSays(f, i, BlockWord(f.blocks[i]))
    ensures LaidAt(x, f, t, i)
  {
    if i < |f.blocks| {
      LaysBlock(x, f, t, i, At(f, i), f.blocks[i]);
    } else {
      LaysEnd(x, f, t, At(f, i));
    }
  }

  /** A stream that begins with a frame has all its parts in place. */
  lemma LaysOut(x: Xxh, f: Frame, t: seq<byte>)
    requires f.Frame? && ValidFrame(f) && Bodies(x, f, t)
    ensures Laid(x, f, t)
  {
    forall i | 0 <= i <= |f.blocks|
      ensures LaidAt(x, f, t, i)
    {
      if i < |f.blocks| {
        BlockSmall(f, i);
      }
      LaysAt(x, f, t, i);
    }
  }

  /** Block `i` decodes, within its limits, behind the blocks before it. */
  ghost predicate GoodBlock(f: Frame, i: nat)
    requires f.Frame? && i < |f.blocks|
  {
    4 <= f.info.sizeId <= 7 && ValidBlock(f.info, f.blocks[i], Contents(f.blocks, i))
  }

  ghost predicate GoodBlocks(f: Frame)
    requires f.Frame?
  {
    forall i {:trigger GoodBlock(f, i)} :: 0 <= i < |f.blocks| ==> GoodBlock(f, i)
  }

  lemma ValidIsGood(f: Frame)
    requires f.Frame? && ValidFrame(f)
    ensures GoodBlocks(f)
  {
  }

  lemma {:induction false} ContentsPrefix(blocks: seq<Block>, i: nat, j: nat)
    requires i <= j <= |blocks|
    ensures Contents(blocks, i) <= Contents(blocks, j)
    decreases j
  {
    if i < j {
      ContentsPrefix(blocks, i, j - 1);
    }
  }

  /** Whole blocks and a part of the next are a prefix of the content. */
  lemma PartPrefix(f: Frame, at: nat, k: nat)
    requires f.Frame? && at < |f.blocks| && k <= |f.blocks[at].Content()|
    ensures Contents(f.blocks, at) + f.blocks[at].Content()[..k] <= FrameContent(f)
  {
    ContentsPrefix(f.blocks, at + 1, |f.blocks|);
  }
}
