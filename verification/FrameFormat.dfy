/**
 The LZ4 frame format: a header, blocks with their sizes, an end mark, and checksums. A frame
 is described by what it holds; its bytes follow from that.
 */
module FrameFormat {
  import opened Bytes
  import opened Lz4Format
  import opened Lz4Decompress

  /** XXH32 with seed 0. Which function it is does not matter here. */
  type Xxh = seq<byte> -> u32

  const KB128: nat := 131072
  const MAGICNUMBER: nat := 0x184D2204
  const MAGIC_SKIPPABLE_START: nat := 0x184D2A50
  const UNCOMPRESSED_FLAG: nat := 0x8000_0000
  const MIN_HEADER: nat := 7
  const MAX_HEADER: nat := 19
  const BLOCK_HEADER: nat := 4
  const CHECKSUM: nat := 4

  // ---- numbers ----

  /** A number in some bytes, low-order byte first. */
  function Le(size: nat, n: nat): (r: seq<byte>)
    ensures |r| == size
  {
    if size == 0 then [] else [n % 256] + Le(size - 1, n / 256)
  }

  function LeNum(b: seq<byte>): nat {
    if b == [] then 0
    else
      var low: int := b[0];
      low + 256 * LeNum(b[1..])
  }

  lemma {:induction false} LeRead(size: nat, n: nat)
    requires n < Power(size)
    ensures LeNum(Le(size, n)) == n
    decreases size
  {
    if size > 0 {
      assert Le(size, n)[1..] == Le(size - 1, n / 256);
      LeRead(size - 1, n / 256);
    }
  }

  lemma {:induction false} ReadLe(b: seq<byte>)
    ensures LeNum(b) < Power(|b|) && Le(|b|, LeNum(b)) == b
    decreases |b|
  {
    if b != [] {
      ReadLe(b[1..]);
      LeShift(b[0], LeNum(b[1..]));
      assert b == [b[0]] + b[1..];
    }
  }

  lemma LeShift(low: byte, high: nat)
    ensures var l: int := low; (l + 256 * high) % 256 == low && (l + 256 * high) / 256 == high
  {
  }

  lemma Powers()
    ensures Power(4) == TWO32 && Power(8) == 0x1_0000_0000_0000_0000
  {
    assert Power(1) == 256 && Power(2) == 65536 && Power(3) == 16777216;
    assert Power(4) == 256 * Power(3) && Power(5) == 256 * Power(4);
    assert Power(6) == 256 * Power(5) && Power(7) == 256 * Power(6);
  }

  // ---- what a frame holds ----

  /** A block: stored as it is, or compressed. */
  datatype Block =
    | Raw(data: seq<byte>)
    | Packed(data: seq<byte>, content: seq<byte>)
  {
    function Content(): seq<byte> {
      if Raw? then data else content
    }
  }

  /** What the header says. */
  datatype Info = Info(linked: bool, blockSums: bool, contentSum: bool, size: Option<nat>, dictId: Option<nat>, sizeId: nat)

  datatype Frame =
    | Frame(info: Info, blocks: seq<Block>)
    | Skippable(tag: nat, data: seq<byte>)

  /** LZ4F_getBlockSize, for the identifiers a frame may have. */
  function BlockSize(sizeId: nat): (n: nat)
    requires 4 <= sizeId <= 7
    ensures n == 65536 || n == 262144 || n == 1048576 || n == 4194304
  {
    if sizeId == 4 then 65536 else if sizeId == 5 then 262144 else if sizeId == 6 then 1048576 else 4194304
  }

  /** The contents of the first `i` blocks. */
  function Contents(blocks: seq<Block>, i: nat): seq<byte>
    requires i <= |blocks|
  {
    if i == 0 then [] else Contents(blocks, i - 1) + blocks[i - 1].Content()
  }

  /** What a block may refer back to: up to 64 KB of what comes before it, when blocks are linked. */
  function Window(linked: bool, before: seq<byte>): (w: seq<byte>)
    ensures |w| <= |before| && |w| <= KB64
  {
    if !linked then [] else if |before| <= KB64 then before else before[|before| - KB64..]
  }

  ghost predicate ValidBlock(info: Info, b: Block, before: seq<byte>)
    requires 4 <= info.sizeId <= 7
  {
    && |b.data| <= BlockSize(info.sizeId) && |b.Content()| <= BlockSize(info.sizeId)
    && (b.Packed? ==> b.data != [] && ConformingBlock(b.data, |Window(info.linked, before)|, |b.content|)
                      && Decodes(b.data, Window(info.linked, before), b.content))
  }

  predicate ValidInfo(info: Info) {
    && 4 <= info.sizeId <= 7
    && (info.size.Some? ==> info.size.value < 0x1_0000_0000_0000_0000)
    && (info.dictId.Some? ==> info.dictId.value < TWO32)
  }

  /** The size that is checked: a recorded size of 0 counts as none. */
  function Promised(info: Info): nat {
    if info.size.Some? then info.size.value else 0
  }

  ghost predicate ValidFrame(f: Frame) {
    match f
    case Skippable(tag, data) => tag < 16 && |data| < TWO32
    case Frame(info, blocks) =>
      && ValidInfo(info)
      && (forall i :: 0 <= i < |blocks| ==> ValidBlock(info, blocks[i], Contents(blocks, i)))
      && (Promised(info) != 0 ==> |Contents(blocks, |blocks|)| == Promised(info))
  }

  /** What a frame decodes to. */
  function FrameContent(f: Frame): seq<byte> {
    if f.Skippable? then [] else Contents(f.blocks, |f.blocks|)
  }

  // ---- its bytes ----

  function Bit(b: bool): nat { if b then 1 else 0 }

  function Flg(info: Info): (n: byte) {
    64 + 32 * Bit(!info.linked) + 16 * Bit(info.blockSums) + 8 * Bit(info.size.Some?)
    + 4 * Bit(info.contentSum) + Bit(info.dictId.Some?)
  }

  function SizeField(info: Info): seq<byte> {
    if info.size.Some? then Le(8, info.size.value) else []
  }

  function DictField(info: Info): seq<byte> {
    if info.dictId.Some? then Le(4, info.dictId.value) else []
  }

  /** The header between the magic number and its checksum. */
  function Descriptor(info: Info): seq<byte>
    requires 4 <= info.sizeId <= 7
  {
    [Flg(info), info.sizeId * 16] + SizeField(info) + DictField(info)
  }

  /** LZ4F_headerChecksum. */
  function HeaderChecksum(x: Xxh, descriptor: seq<byte>): byte {
    x(descriptor) / 256 % 256
  }

  function Header(x: Xxh, info: Info): (r: seq<byte>)
    requires 4 <= info.sizeId <= 7
    ensures |r| == HeaderSize(info)
  {
    Le(4, MAGICNUMBER) + Descriptor(info) + [HeaderChecksum(x, Descriptor(info))]
  }

  function HeaderSize(info: Info): (n: nat)
    ensures MIN_HEADER <= n <= MAX_HEADER
  {
    MIN_HEADER + (if info.size.Some? then 8 else 0) + (if info.dictId.Some? then 4 else 0)
  }

  function Checksum(x: Xxh, on: bool, data: seq<byte>): (r: seq<byte>)
    ensures |r| == if on then CHECKSUM else 0
  {
    if on then Le(4, x(data)) else []
  }

  function BlockWord(b: Block): nat {
    if b.Raw? then |b.data| + UNCOMPRESSED_FLAG else |b.data|
  }

  function RenderBlock(x: Xxh, info: Info, b: Block): seq<byte> {
    Le(4, BlockWord(b)) + (b.data + Checksum(x, info.blockSums, b.data))
  }

  /** The end mark and the checksum of the contents. */
  function Suffix(x: Xxh, f: Frame): seq<byte>
    requires f.Frame?
  {
    Le(4, 0) + Checksum(x, f.info.contentSum, Contents(f.blocks, |f.blocks|))
  }

  /** The frame from block `i` on. */
  function RenderFrom(x: Xxh, f: Frame, i: nat): seq<byte>
    requires f.Frame? && i <= |f.blocks|
    decreases |f.blocks| - i
  {
    if i == |f.blocks| then Suffix(x, f)
    else RenderBlock(x, f.info, f.blocks[i]) + RenderFrom(x, f, i + 1)
  }

  function Render(x: Xxh, f: Frame): seq<byte>
    requires f.Frame? ==> 4 <= f.info.sizeId <= 7
  {
    match f
    case Frame(info, blocks) => Header(x, info) + RenderFrom(x, f, 0)
    case Skippable(tag, data) => Le(4, MAGIC_SKIPPABLE_START + tag) + (Le(4, |data|) + data)
  }

  // ---- a longer history changes nothing ----

  lemma RepeatNext(h: seq<byte>, offset: nat, len: nat)
    requires offset <= |h| && len > 0
    ensures Repeat(h, offset, len) == Repeat(h + [NextByte(h, offset)], offset, len - 1)
  {
  }

  lemma NextBehind(g: seq<byte>, h: seq<byte>, offset: nat)
    requires offset <= |h|
    ensures NextByte(g + h, offset) == NextByte(h, offset)
    ensures (g + h) + [NextByte(h, offset)] == g + (h + [NextByte(h, offset)])
  {
  }

  lemma {:induction false} RepeatBehind(g: seq<byte>, h: seq<byte>, offset: nat, len: nat)
    requires offset <= |h|
    ensures Repeat(g + h, offset, len) == g + Repeat(h, offset, len)
    decreases len
  {
    if len > 0 {
      hide Repeat, NextByte;
      NextBehind(g, h, offset);
      RepeatNext(h, offset, len);
      RepeatNext(g + h, offset, len);
      RepeatBehind(g, h + [NextByte(h, offset)], offset, len - 1);
    }
  }

  /** What decodes behind a history decodes to the same behind a longer one. */
  lemma {:induction false} DecodeBehind(w: Width, src: seq<byte>, ip: nat, g: seq<byte>, h: seq<byte>)
    requires Decode(w, src, ip, h).Some?
    ensures Decode(w, src, ip, g + h) == Some(g + Decode(w, src, ip, h).value)
    decreases |src| - ip
  {
    var s := StepAt(w, src, ip);
    match s
    case Last(lit) => assert (g + h) + lit == g + (h + lit);
    case More(lit, offset, len, next) =>
      assert (g + h) + lit == g + (h + lit);
      RepeatBehind(g, h + lit, offset, len);
      DecodeBehind(w, src, next, g, Repeat(h + lit, offset, len));
  }

  lemma {:induction false} ConformsBehind(w: Width, src: seq<byte>, ip: nat, n: nat, total: nat, g: nat)
    requires Conforms(w, src, ip, n, total)
    ensures Conforms(w, src, ip, g + n, g + total)
    decreases |src| - ip
  {
    var s := StepAt(w, src, ip);
    if s.More? {
      ConformsBehind(w, src, s.next, n + |s.lit| + s.len, total, g);
    }
  }

  /** A dictionary that ends with the window serves for the window. */
  lemma LongerDictionary(src: seq<byte>, dict: seq<byte>, window: seq<byte>, size: nat, content: seq<byte>, out: seq<byte>)
    requires |window| <= |dict| && dict[|dict| - |window|..] == window
    requires ConformingBlock(src, |window|, size) && Decodes(src, window, content)
    ensures ConformingBlock(src, |dict|, size)
    ensures Decodes(src, dict, out) ==> out == content
  {
    hide Decode, Conforms;
    var g := dict[..|dict| - |window|];
    assert dict == g + window;
    ConformsBehind(U32, src, 0, |window|, |window| + size, |g|);
    DecodeBehind(U32, src, 0, g, window);
    if Decodes(src, dict, out) {
      Assoc(g, window, content);
      assert dict + out == dict + content;
      assert out == (dict + out)[|dict|..];
    }
  }

  /** With 64 KB of history, or all there is, what came before is never referred to. */
  lemma {:induction false} DecodeWithout(w: Width, src: seq<byte>, ip: nat, g: seq<byte>, h: seq<byte>)
    requires Decode(w, src, ip, g + h).Some? && (g == [] || |h| >= 65535)
    ensures Decode(w, src, ip, h).Some?
    decreases |src| - ip
  {
    var s := StepAt(w, src, ip);
    match s
    case Last(lit) =>
    case More(lit, offset, len, next) =>
      OffsetSmall(w, src, ip);
      assert (g + h) + lit == g + (h + lit);
      RepeatBehind(g, h + lit, offset, len);
      DecodeWithout(w, src, next, g, Repeat(h + lit, offset, len));
  }

  lemma OffsetSmall(w: Width, src: seq<byte>, ip: nat)
    ensures StepAt(w, src, ip).More? ==> StepAt(w, src, ip).offset <= 65535
  {
  }

  /** The window serves for a dictionary that ends with it, if it is as long as offsets reach. */
  lemma ShorterDictionary(src: seq<byte>, dict: seq<byte>, window: seq<byte>, out: seq<byte>)
    requires |window| <= |dict| && dict[|dict| - |window|..] == window
    requires |window| == |dict| || |window| >= 65535
    requires Decodes(src, dict, out)
    ensures Decodes(src, window, out)
  {
    hide Decode;
    var g := dict[..|dict| - |window|];
    assert dict == g + window;
    DecodeWithout(U32, src, 0, g, window);
    DecodeBehind(U32, src, 0, g, window);
    var r := Decode(U32, src, 0, window).value;
    Assoc(g, window, out);
    SplitSame(g, r, g, window + out);
  }
}
