/**
 What a decoder has read of a stream, whatever the stream: the frame its bytes are the beginning
 of. A decoder that comes to the end has read a frame.
 */
module FrameReading {
  import opened Bytes
  import opened FrameFormat
  import opened FrameBlocks
  import opened FrameHeader
  import opened Lz4Format
  import opened Lz4Decompress

  /** A block the decoder takes: within the block size, and with data that decode. That the data
      also keep to the end-of-block rules is not asked. */
  ghost predicate RightBlock(info: Info, b: Block, before: seq<byte>)
    requires 4 <= info.sizeId <= 7
  {
    && |b.data| <= BlockSize(info.sizeId) && |b.Content()| <= BlockSize(info.sizeId)
    && (b.Packed? ==> b.data != [] && Decodes(b.data, Window(info.linked, before), b.content))
  }

  ghost predicate RightBlocks(info: Info, blocks: seq<Block>)
    requires 4 <= info.sizeId <= 7
  {
    forall i :: 0 <= i < |blocks| ==> RightBlock(info, blocks[i], Contents(blocks, i))
  }

  /** A frame the decoder takes. The content size is counted down in 64 bits. */
  ghost predicate Accepted(f: Frame) {
    match f
    case Skippable(tag, data) => tag < 16 && |data| < TWO32
    case Frame(info, blocks) =>
      && ValidInfo(info) && RightBlocks(info, blocks)
      && (Promised(info) != 0 ==> |Contents(blocks, |blocks|)| % TWO64 == Promised(info))
  }

  /** Every valid frame is one of them. */
  lemma ValidIsAccepted(f: Frame)
    requires ValidFrame(f)
    ensures Accepted(f)
  {
    hide Decodes, ConformingBlock, Contents;
    if f.Frame? {
      forall i | 0 <= i < |f.blocks| ensures RightBlock(f.info, f.blocks[i], Contents(f.blocks, i)) {
        assert ValidBlock(f.info, f.blocks[i], Contents(f.blocks, i));
      }
    }
  }

  /** The bytes taken are those of the frame as far as it is known, and `extra` behind them. */
  ghost predicate Sofar(x: Xxh, f: Frame, tape: seq<byte>, extra: seq<byte>) {
    && f.Frame? && ValidInfo(f.info) && RightBlocks(f.info, f.blocks)
    && tape == Header(x, f.info) + BlocksBytes(x, f.info, f.blocks) + extra
  }

  /** After the header. */
  lemma SofarHeader(x: Xxh, info: Info)
    requires ValidInfo(info)
    ensures Sofar(x, Frame(info, []), Header(x, info), []) && Contents([], 0) == []
  {
  }

  /** More bytes. */
  lemma SofarMore(x: Xxh, f: Frame, tape: seq<byte>, extra: seq<byte>, bytes: seq<byte>)
    requires Sofar(x, f, tape, extra)
    ensures Sofar(x, f, tape + bytes, extra + bytes)
  {
    Assoc(Header(x, f.info) + BlocksBytes(x, f.info, f.blocks), extra, bytes);
  }

  /** A block is complete. */
  lemma SofarBlock(x: Xxh, f: Frame, tape: seq<byte>, b: Block)
    requires f.Frame? && 4 <= f.info.sizeId <= 7 && Sofar(x, f, tape, RenderBlock(x, f.info, b))
    requires RightBlock(f.info, b, Contents(f.blocks, |f.blocks|))
    ensures Sofar(x, f.(blocks := f.blocks + [b]), tape, [])
    ensures Contents(f.blocks + [b], |f.blocks + [b]|) == Contents(f.blocks, |f.blocks|) + b.Content()
  {
    hide RightBlock, RightBlocks, RenderBlock, Header, ValidInfo, BlocksBytes, Contents;
    OneMore(x, f.info, f.blocks, b);
    RightMore(f.info, f.blocks, b);
    Emptied(Header(x, f.info) + BlocksBytes(x, f.info, f.blocks + [b]));
  }

  lemma Emptied(s: seq<byte>)
    ensures s == s + []
  {
  }

  lemma RightMore(info: Info, blocks: seq<Block>, b: Block)
    requires 4 <= info.sizeId <= 7 && RightBlocks(info, blocks) && RightBlock(info, b, Contents(blocks, |blocks|))
    ensures RightBlocks(info, blocks + [b])
  {
    hide RightBlock, Contents;
    forall i | 0 <= i < |blocks + [b]|
      ensures RightBlock(info, (blocks + [b])[i], Contents(blocks + [b], i))
    {
      ContentsSame(blocks, b, i);
      assert i < |blocks| ==> RightBlock(info, blocks[i], Contents(blocks, i));
    }
  }

  /** The end has come. */
  lemma SofarEnd(x: Xxh, f: Frame, tape: seq<byte>)
    requires f.Frame? && Sofar(x, f, tape, Suffix(x, f))
    requires Promised(f.info) != 0 ==> |FrameContent(f)| % TWO64 == Promised(f.info)
    ensures tape == Render(x, f) && Accepted(f)
  {
    hide Header, BlocksBytes, Suffix, RightBlocks, Contents;
    Assembled(x, f.info, f.blocks);
  }

  // ---- the parts of a block ----

  /** A stored block of which `part` has been taken and `left` bytes have not, and `extra` behind. */
  function RawSofar(part: seq<byte>, left: nat, extra: seq<byte>): seq<byte> {
    Le(4, |part| + left + UNCOMPRESSED_FLAG) + part + extra
  }

  lemma RawMore(part: seq<byte>, left: nat, bytes: seq<byte>)
    requires |bytes| <= left
    ensures RawSofar(part, left, []) + bytes == RawSofar(part + bytes, left - |bytes|, [])
  {
    hide Le;
    var w := Le(4, |part| + left + UNCOMPRESSED_FLAG);
    assert |part + bytes| + (left - |bytes|) == |part| + left;
    assert w + part + [] + bytes == w + (part + bytes) + [];
  }

  lemma RawStart(n: nat)
    ensures Le(4, n + UNCOMPRESSED_FLAG) == RawSofar([], n, [])
  {
  }

  lemma RawExtra(part: seq<byte>, extra: seq<byte>, bytes: seq<byte>)
    ensures RawSofar(part, 0, extra) + bytes == RawSofar(part, 0, extra + bytes)
  {
    hide Le;
    Assoc(Le(4, |part| + UNCOMPRESSED_FLAG) + part, extra, bytes);
  }

  lemma RawBlock(x: Xxh, info: Info, part: seq<byte>)
    ensures RawSofar(part, 0, Checksum(x, info.blockSums, part)) == RenderBlock(x, info, Raw(part))
  {
    hide Le;
    Assoc(Le(4, |part| + UNCOMPRESSED_FLAG), part, Checksum(x, info.blockSums, part));
  }

  /** A compressed block with its checksum. */
  lemma PackedWhole(x: Xxh, info: Info, data: seq<byte>, content: seq<byte>, selected: seq<byte>)
    requires |selected| == |data| + (if info.blockSums then 4 else 0) && selected[..|data|] == data
    requires info.blockSums ==> LeNum(selected[|data|..]) == x(data)
    ensures Le(4, |data|) + selected == RenderBlock(x, info, Packed(data, content))
  {
    hide Le, LeNum;
    assert selected == data + selected[|data|..];
    if info.blockSums {
      ReadLe(selected[|data|..]);
    }
  }

  lemma EndWord(x: Xxh, f: Frame)
    requires f.Frame?
    ensures !f.info.contentSum ==> Le(4, 0) == Suffix(x, f)
    ensures f.info.contentSum ==> Le(4, 0) + Le(4, x(FrameContent(f))) == Suffix(x, f)
  {
  }

  // ---- headers ----

  /** What the bytes of a header, as many as it takes, were found to be. */
  ghost predicate Found(x: Xxh, src: seq<byte>, r: Reading)
    requires |src| >= MIN_HEADER
  {
    match r
    case Short(target) => |src| < target && target == LengthOf(src[4]) && LeNum(src[..4]) == MAGICNUMBER
    case Good(info, size) =>
      ValidInfo(info) && size == LengthOf(src[4]) && size <= |src| && src[..size] == Header(x, info)
    case Skip => LeNum(src[..4]) / 16 * 16 == MAGIC_SKIPPABLE_START
    case Bad => true
  }

  lemma HeaderFound(x: Xxh, src: seq<byte>)
    requires |src| >= MIN_HEADER
    ensures Found(x, src, ReadHeader(x, src))
  {
    hide InfoOf, Header, LeNum;
    if ReadHeader(x, src).Good? {
      HeaderExact(x, src);
    }
  }

  /** The magic number of a skippable frame, as bytes. */
  lemma SkipFound(b: seq<byte>) returns (tag: nat)
    requires |b| == 4 && LeNum(b) / 16 * 16 == MAGIC_SKIPPABLE_START
    ensures tag < 16 && b == Le(4, MAGIC_SKIPPABLE_START + tag)
  {
    tag := LeNum(b) % 16;
    ReadLe(b);
  }

  // ---- a stream begins with one frame at most ----

  lemma BeginsParts(a: seq<byte>, b: seq<byte>, s: seq<byte>)
    requires a + b <= s
    ensures a <= s && b <= s[|a|..]
  {
    assert a == (a + b)[..|a|] && b == (a + b)[|a|..];
    assert s[..|a + b|][..|a|] == s[..|a|];
  }

  lemma WordsSame(m: nat, n: nat, s: seq<byte>)
    requires Le(4, m) <= s && Le(4, n) <= s && m < TWO32 && n < TWO32
    ensures m == n
  {
    Powers();
    LeRead(4, m);
    LeRead(4, n);
    assert Le(4, m) == s[..4] == Le(4, n);
  }

  lemma WordOf(info: Info, b: Block, before: seq<byte>)
    requires 4 <= info.sizeId <= 7 && RightBlock(info, b, before)
    ensures 0 < BlockWord(b) < TWO32 && |b.data| < UNCOMPRESSED_FLAG
  {
  }

  lemma BlockSame(x: Xxh, info: Info, before: seq<byte>, b: Block, c: Block, s: seq<byte>)
    requires 4 <= info.sizeId <= 7 && RightBlock(info, b, before) && RightBlock(info, c, before)
    requires RenderBlock(x, info, b) <= s && RenderBlock(x, info, c) <= s
    ensures b == c
  {
    hide Le, RightBlock, Checksum;
    WordOf(info, b, before);
    WordOf(info, c, before);
    BlockBegins(x, info, b, s);
    BlockBegins(x, info, c, s);
    WordsSame(BlockWord(b), BlockWord(c), s);
    assert b.data == s[4..][..|b.data|] == c.data;
    ContentSame(info, before, b, c);
  }

  lemma BlockBegins(x: Xxh, info: Info, b: Block, s: seq<byte>)
    requires RenderBlock(x, info, b) <= s
    ensures Le(4, BlockWord(b)) <= s && b.data <= s[4..]
  {
    hide Le, BlockWord, Checksum;
    BeginsParts(Le(4, BlockWord(b)), b.data + Checksum(x, info.blockSums, b.data), s);
    BeginsParts(b.data, Checksum(x, info.blockSums, b.data), s[4..]);
  }

  lemma ContentSame(info: Info, before: seq<byte>, b: Block, c: Block)
    requires 4 <= info.sizeId <= 7 && RightBlock(info, b, before) && RightBlock(info, c, before)
    requires b.data == c.data && b.Raw? == c.Raw?
    ensures b == c
  {
    hide Window, Decode;
    if b.Packed? {
      var w := Window(info.linked, before);
      SplitSame(w, b.content, w, c.content);
    }
  }

  /** From block `i` on, if the blocks before it are the same. */
  lemma {:induction false} BlocksSame(x: Xxh, f: Frame, g: Frame, i: nat, s: seq<byte>)
    requires f.Frame? && g.Frame? && f.info == g.info && ValidInfo(f.info)
    requires RightBlocks(f.info, f.blocks) && RightBlocks(g.info, g.blocks)
    requires i <= |f.blocks| && i <= |g.blocks| && f.blocks[..i] == g.blocks[..i]
    requires RenderFrom(x, f, i) <= s && RenderFrom(x, g, i) <= s
    ensures f.blocks == g.blocks
    decreases |f.blocks| - i
  {
    hide Le, RightBlock, RenderBlock, Contents;
    FirstWord(x, f, i, s);
    FirstWord(x, g, i, s);
    WordsSame(WordAt(f, i), WordAt(g, i), s);
    if i < |f.blocks| {
      var b, c := f.blocks[i], g.blocks[i];
      SamePast(f.blocks, g.blocks, i);
      assert RightBlock(f.info, f.blocks[i], Contents(f.blocks, i)) && RightBlock(g.info, g.blocks[i], Contents(g.blocks, i));
      BeginsParts(RenderBlock(x, f.info, b), RenderFrom(x, f, i + 1), s);
      BeginsParts(RenderBlock(x, g.info, c), RenderFrom(x, g, i + 1), s);
      BlockSame(x, f.info, Contents(f.blocks, i), b, c, s);
      assert f.blocks[..i + 1] == f.blocks[..i] + [b] && g.blocks[..i + 1] == g.blocks[..i] + [c];
      BlocksSame(x, f, g, i + 1, s[|RenderBlock(x, f.info, b)|..]);
    } else {
      assert f.blocks[..i] == f.blocks && g.blocks[..i] == g.blocks;
    }
  }

  function WordAt(f: Frame, i: nat): nat
    requires f.Frame? && i <= |f.blocks|
  {
    if i < |f.blocks| then BlockWord(f.blocks[i]) else 0
  }

  lemma FirstWord(x: Xxh, f: Frame, i: nat, s: seq<byte>)
    requires f.Frame? && i <= |f.blocks| && ValidInfo(f.info) && RightBlocks(f.info, f.blocks) && RenderFrom(x, f, i) <= s
    ensures Le(4, WordAt(f, i)) <= s && WordAt(f, i) < TWO32 && (WordAt(f, i) == 0 <==> i == |f.blocks|)
  {
    hide Le, Checksum, RightBlock, BlockWord;
    if i < |f.blocks| {
      assert RightBlock(f.info, f.blocks[i], Contents(f.blocks, i));
      WordOf(f.info, f.blocks[i], Contents(f.blocks, i));
      BeginsParts(RenderBlock(x, f.info, f.blocks[i]), RenderFrom(x, f, i + 1), s);
      BlockBegins(x, f.info, f.blocks[i], s);
    } else {
      BeginsParts(Le(4, 0), Checksum(x, f.info.contentSum, Contents(f.blocks, |f.blocks|)), s);
    }
  }

  lemma {:induction false} SamePast(bs: seq<Block>, cs: seq<Block>, i: nat)
    requires i <= |bs| && i <= |cs| && bs[..i] == cs[..i]
    ensures Contents(bs, i) == Contents(cs, i)
    decreases i
  {
    if i > 0 {
      assert bs[..i - 1] == bs[..i][..i - 1] && cs[..i - 1] == cs[..i][..i - 1];
      assert bs[i - 1] == bs[..i][i - 1] && cs[i - 1] == cs[..i][i - 1];
      SamePast(bs, cs, i - 1);
    }
  }

  /** Which kind of frame it is stands in its first four bytes. */
  lemma MagicBegins(x: Xxh, f: Frame, t: seq<byte>)
    requires Accepted(f) && Render(x, f) <= t
    ensures var magic := if f.Frame? then MAGICNUMBER else MAGIC_SKIPPABLE_START + f.tag; Le(4, magic) <= t
  {
    hide Le;
    if f.Frame? {
      BeginsParts(Header(x, f.info), RenderFrom(x, f, 0), t);
      BeginsParts(Le(4, MAGICNUMBER) + Descriptor(f.info), [HeaderChecksum(x, Descriptor(f.info))], t);
      BeginsParts(Le(4, MAGICNUMBER), Descriptor(f.info), t);
    } else {
      BeginsParts(Le(4, MAGIC_SKIPPABLE_START + f.tag), Le(4, |f.data|) + f.data, t);
    }
  }

  /** A stream begins with one accepted frame at most: what a decoder reads is determined. */
  lemma OneFrame(x: Xxh, f: Frame, g: Frame, t: seq<byte>)
    requires Accepted(f) && Accepted(g) && Render(x, f) <= t && Render(x, g) <= t
    ensures f == g
  {
    hide Le, RightBlocks, Contents, Header, RenderFrom;
    MagicBegins(x, f, t);
    MagicBegins(x, g, t);
    WordsSame(if f.Frame? then MAGICNUMBER else MAGIC_SKIPPABLE_START + f.tag,
              if g.Frame? then MAGICNUMBER else MAGIC_SKIPPABLE_START + g.tag, t);
    if f.Frame? && g.Frame? {
      BeginsParts(Header(x, f.info), RenderFrom(x, f, 0), t);
      BeginsParts(Header(x, g.info), RenderFrom(x, g, 0), t);
      HeaderRead(x, f.info, t);
      HeaderRead(x, g.info, t);
      BlocksSame(x, f, g, 0, t[HeaderSize(f.info)..]);
    } else if f.Skippable? && g.Skippable? {
      SkippedSame(x, f, g, t);
    }
  }

  lemma SkippedSame(x: Xxh, f: Frame, g: Frame, t: seq<byte>)
    requires f.Skippable? && g.Skippable? && Accepted(f) && Accepted(g) && f.tag == g.tag
    requires Render(x, f) <= t && Render(x, g) <= t
    ensures f == g
  {
    hide Le;
    var m := Le(4, MAGIC_SKIPPABLE_START + f.tag);
    BeginsParts(m, Le(4, |f.data|) + f.data, t);
    BeginsParts(m, Le(4, |g.data|) + g.data, t);
    BeginsParts(Le(4, |f.data|), f.data, t[4..]);
    BeginsParts(Le(4, |g.data|), g.data, t[4..]);
    WordsSame(|f.data|, |g.data|, t[4..]);
  }
}
