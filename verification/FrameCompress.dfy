/**
 The frame compressor: what it writes is a valid frame of what it was given, and it never writes
 past the bound it promises. Independent blocks are compressed at the fast levels by the
 compressor of Lz4Stream; for linked blocks and the higher levels the block compressor is a
 parameter.
 */
module FrameCompress {
  import opened Bytes
  import opened FrameFormat
  import opened FrameHistory
  import opened FrameLayout
  import opened FrameBlocks
  import opened FrameBytes
  import opened FrameDecompress
  import opened FrameDrive
  import Lz4Compress
  import Lz4Decompress
  import opened Lz4Stream
  import opened Lz4RoundTrip

  /** LZ4F_preferences_t, as far as it matters here. */
  datatype Prefs = Prefs(sizeId: nat, linked: bool, blockSums: bool, contentSum: bool, contentSize: nat, dictId: nat, level: int, autoFlush: bool)

  predicate ValidPrefs(p: Prefs) {
    && (p.sizeId == 0 || 4 <= p.sizeId <= 7)
    && p.contentSize < 0x1_0000_0000_0000_0000 && p.dictId < TWO32
  }

  /** The header that preferences ask for: 0 stands for "none" and for the default block size. */
  function InfoFor(p: Prefs): (info: Info)
    requires ValidPrefs(p)
    ensures ValidInfo(info) && Promised(info) == p.contentSize
  {
    Info(p.linked, p.blockSums, p.contentSum, if p.contentSize > 0 then Some(p.contentSize) else None,
         if p.dictId > 0 then Some(p.dictId) else None, if p.sizeId == 0 then 4 else p.sizeId)
  }

  /** A block compressor, for linked blocks and for independent ones: what it makes of a source when
      it has compressed `before`. Making nothing stands for a failure. */
  type Packer = (bool, seq<byte>, seq<byte>) -> seq<byte>

  const CLEVEL_MIN: int := 3

  /** LZ4F_selectCompression: all but the fast compressor of independent blocks. */
  predicate Other(p: Prefs) {
    p.linked || p.level >= CLEVEL_MIN
  }

  /** Data that stands for the source, behind as much history as blocks may refer to. */
  ghost predicate Packs(linked: bool, before: seq<byte>, src: seq<byte>, data: seq<byte>) {
    Lz4Decompress.ConformingBlock(data, |Window(linked, before)|, |src|) && Lz4Decompress.Decodes(data, Window(linked, before), src)
  }

  /** All it makes decodes. */
  ghost predicate Right(linked: bool, pack: Packer) {
    forall before: seq<byte>, src: seq<byte> :: pack(linked, before, src) != [] ==> Packs(linked, before, src, pack(linked, before, src))
  }

  /** The block compressor used, when it is a parameter, is right; at the higher levels for a
      single block, which is never linked, as well. */
  ghost predicate Trusted(p: Prefs, pack: Packer) {
    && (Other(p) ==> Right(p.linked, pack))
    && (p.level >= CLEVEL_MIN ==> Right(false, pack))
  }

  function Crc(on: bool): nat {
    if on then CHECKSUM else 0
  }

  method Put(dst: array<byte>, start: nat, bytes: seq<byte>)
    requires start + |bytes| <= dst.Length
    modifies dst
    ensures dst[start..start + |bytes|] == bytes
    ensures forall j :: 0 <= j < start || start + |bytes| <= j < dst.Length ==> dst[j] == old(dst[j])
  {
    forall j | start <= j < start + |bytes| {
      dst[j] := bytes[j - start];
    }
  }

  /** dst[start..start + n] holds `s`. */
  ghost predicate Wrote(dst: array<byte>, start: nat, s: seq<byte>)
    reads dst
  {
    start + |s| <= dst.Length && dst[start..start + |s|] == s
  }

  lemma Appended(dst: array<byte>, start: nat, a: seq<byte>, b: seq<byte>)
    requires Wrote(dst, start, a) && Wrote(dst, start + |a|, b)
    ensures Wrote(dst, start, a + b)
  {
    assert dst[start..start + |a + b|] == dst[start..start + |a|] + dst[start + |a|..start + |a| + |b|];
  }

  lemma MadeValid(info: Info, src: seq<byte>, data: seq<byte>)
    requires ValidInfo(info) && !info.linked && 0 < |src| <= BlockSize(info.sizeId)
    requires Lz4Compress.Compressed(src, data) && 0 < |data| < |src|
    ensures forall before :: ValidBlock(info, Packed(data, src), before)
  {
    CompressedDecodes(src, data);
  }

  lemma PackedValid(info: Info, before: seq<byte>, src: seq<byte>, data: seq<byte>)
    requires ValidInfo(info) && 0 < |src| <= BlockSize(info.sizeId)
    requires Packs(info.linked, before, src, data) && 0 < |data| < |src|
    ensures ValidBlock(info, Packed(data, src), before)
  {
  }

  lemma RawValid(info: Info, src: seq<byte>)
    requires ValidInfo(info) && |src| <= BlockSize(info.sizeId)
    ensures forall before :: ValidBlock(info, Raw(src), before)
  {
  }

  /** The data of a block: compressed when that makes it smaller, else as it is. */
  method PackData(stream: Stream, pack: Packer, past: seq<byte>, dst: array<byte>, start: nat, src: seq<byte>, p: Prefs)
    returns (packed: bool, c: nat)
    requires stream.Valid() && stream.hashTable as object != dst
    requires 0 < |src| <= 4194304 && start + |src| <= dst.Length
    modifies stream, stream.hashTable, dst
    ensures stream.Valid() && 0 < c <= |src|
    ensures packed ==> c < |src| && if Other(p) then dst[start..start + c] == pack(p.linked, past, src)
                                    else Lz4Compress.Compressed(src, dst[start..start + c])
    ensures !packed ==> dst[start..start + c] == src
    ensures forall j :: 0 <= j < start || start + |src| <= j < dst.Length ==> dst[j] == old(dst[j])
  {
    if Other(p) {
      var data := pack(p.linked, past, src);
      c := 0;
      if |data| < |src| {
        Put(dst, start, data);
        c := |data|;
      }
    } else {
      c := stream.CompressFastReset(src, dst, start, |src| - 1, if p.level < 0 then -p.level + 1 else 1);
    }
    packed := c > 0;
    if c == 0 {
      c := |src|;
      Put(dst, start, src);
    }
  }

  /** Writes the size word before the data, and the checksum behind it. */
  method Frame4(x: Xxh, dst: array<byte>, start: nat, word: nat, c: nat, sums: bool, ghost data: seq<byte>)
    requires |data| == c && Wrote(dst, start + 4, data) && start + 4 + c + Crc(sums) <= dst.Length
    modifies dst
    ensures Wrote(dst, start, Le(4, word) + (data + Checksum(x, sums, data)))
    ensures forall j :: 0 <= j < start || start + 4 + c + Crc(sums) <= j < dst.Length ==> dst[j] == old(dst[j])
  {
    var d := dst[start + 4..start + 4 + c];
    Put(dst, start, Le(4, word));
    assert dst[start + 4..start + 4 + c] == d;
    if sums {
      Put(dst, start + 4 + c, Le(4, x(d)));
      assert dst[start + 4..start + 4 + c] == d && dst[start..start + 4] == Le(4, word);
    }
    Appended(dst, start + 4, data, Checksum(x, sums, data));
    Appended(dst, start, Le(4, word), data + Checksum(x, sums, data));
  }

  /** LZ4F_makeBlock: size word, data, checksum. Data that compression does not make smaller is
      stored as it is. */
  method MakeBlock(x: Xxh, stream: Stream, pack: Packer, past: seq<byte>, dst: array<byte>, start: nat, src: seq<byte>, p: Prefs)
    returns (n: nat, ghost b: Block)
    requires stream.Valid() && stream.hashTable as object != dst && ValidPrefs(p)
    requires 0 < |src| <= BlockSize(InfoFor(p).sizeId)
    requires start + 4 + |src| + Crc(p.blockSums) <= dst.Length
    modifies stream, stream.hashTable, dst
    ensures stream.Valid() && b.Content() == src && |b.data| <= |src|
    ensures Trusted(p, pack) ==> ValidBlock(InfoFor(p), b, past)
    ensures n == |RenderBlock(x, InfoFor(p), b)| <= 4 + |src| + Crc(p.blockSums)
    ensures Wrote(dst, start, RenderBlock(x, InfoFor(p), b))
    ensures forall j :: 0 <= j < start || start + 4 + |src| + Crc(p.blockSums) <= j < dst.Length ==> dst[j] == old(dst[j])
  {
    hide Lz4Compress.Compressed, ValidBlock, Le, Stream.Valid, Packs;
    var packed, c := PackData(stream, pack, past, dst, start + 4, src, p);
    ghost var data := dst[start + 4..start + 4 + c];
    if packed {
      b := Packed(data, src);
      PackedBlock(pack, past, src, p, data);
    } else {
      b := Raw(src);
      RawValid(InfoFor(p), src);
    }
    Frame4(x, dst, start, if packed then c else c + UNCOMPRESSED_FLAG, c, p.blockSums, data);
    n := 4 + c + Crc(p.blockSums);
  }

  lemma PackedBlock(pack: Packer, past: seq<byte>, src: seq<byte>, p: Prefs, data: seq<byte>)
    requires ValidPrefs(p) && 0 < |data| < |src| <= BlockSize(InfoFor(p).sizeId)
    requires if Other(p) then data == pack(p.linked, past, src) else Lz4Compress.Compressed(src, data)
    ensures Trusted(p, pack) ==> ValidBlock(InfoFor(p), Packed(data, src), past)
  {
    hide Lz4Compress.Compressed, ValidBlock, Packs;
    if Other(p) {
      if Trusted(p, pack) {
        PackedValid(InfoFor(p), past, src, data);
      }
    } else {
      MadeValid(InfoFor(p), src, data);
    }
  }

  lemma NothingYet(x: Xxh, info: Info)
    requires ValidInfo(info)
    ensures InOrder(info, []) && Contents([], 0) == []
    ensures Header(x, info) + BlocksBytes(x, info, []) == Header(x, info)
  {
  }

  lemma BlockSizes(sizeId: nat)
    requires sizeId == 0 || 4 <= sizeId <= 7
    ensures BlockSize(if sizeId == 0 then 4 else sizeId) > 0
  {
  }

  /** What a block compressor may have kept of its history: LZ4_saveDict, up to 64 KB. */
  type Saver = seq<byte> -> nat

  lemma TakePart(a: seq<byte>, t: seq<byte>, s: seq<byte>, c: nat)
    requires c <= |s|
    ensures a + (t + s[..c]) + [] + s[c..] == a + t + s[0..]
  {
    assert s == s[..c] + s[c..];
    assert a + (t + s[..c]) + s[c..] == a + t + (s[..c] + s[c..]);
  }

  lemma KeepAll(a: seq<byte>, t: seq<byte>, s: seq<byte>)
    ensures a + (t + s) + s[|s|..] == a + t + s[0..]
  {
    assert a + (t + s) == a + t + s;
  }

  lemma TakeNext(a: seq<byte>, s: seq<byte>, i: nat, j: nat)
    requires i <= j <= |s|
    ensures (a + s[i..j]) + [] + s[j..] == a + [] + s[i..]
  {
    assert s[i..] == s[i..j] + s[j..];
    assert (a + s[i..j]) + s[j..] == a + (s[i..j] + s[j..]);
  }

  /** The size of the buffer for input and history. */
  function BufferNeeded(p: Prefs, maxBlockSize: nat): nat {
    if p.autoFlush then (if p.linked then KB64 else 0)
    else maxBlockSize + if p.linked then KB128 else 0
  }

  class Cctx {
    const x: Xxh
    const stream: Stream
    const pack: Packer
    const save: Saver
    var prefs: Prefs
    var cStage: nat
    var maxBlockSize: nat
    /** tmpIn is the place `tmpStart` in tmpBuff. */
    var tmpBuff: array<byte>
    var tmpStart: nat
    var tmpInSize: nat
    var totalInSize: nat
    var xxh: seq<byte>
    /** What the block compressor has compressed of this frame. */
    var past: seq<byte>
    /** The blocks made so far, all that was fed, and all that was written of this frame. */
    ghost var blocks: seq<Block>
    ghost var fed: seq<byte>
    ghost var written: seq<byte>

    constructor (x: Xxh, pack: Packer, save: Saver)
      ensures this.x == x && this.pack == pack && this.save == save && cStage == 0 && Valid()
      ensures fresh(stream) && fresh(stream.hashTable) && fresh(tmpBuff)
    {
      this.x, this.pack, this.save := x, pack, save;
      stream := new Stream();
      prefs := Prefs(0, false, false, false, 0, 0, 0, false);
      cStage, maxBlockSize, tmpInSize, totalInSize, xxh := 0, 0, 0, 0, [];
      tmpBuff := new byte[0];
      tmpStart, past := 0, [];
      blocks, fed, written := [], [], [];
    }

    ghost function Content(): seq<byte>
      reads `blocks
    {
      Contents(blocks, |blocks|)
    }

    /** The settings of the frame under way. */
    ghost predicate Set()
      reads `prefs, `maxBlockSize, `tmpBuff, `tmpStart, `tmpInSize
    {
      && ValidPrefs(prefs) && prefs.sizeId != 0 && maxBlockSize == BlockSize(prefs.sizeId)
      && tmpInSize < maxBlockSize && (prefs.autoFlush ==> tmpInSize == 0)
      && tmpStart + tmpInSize <= tmpBuff.Length && tmpBuff.Length >= BufferNeeded(prefs, maxBlockSize)
      && (!prefs.linked ==> tmpStart == 0)
    }

    /** There is room for a block at tmpIn. */
    predicate Fits()
      reads `prefs, `maxBlockSize, `tmpBuff, `tmpStart
    {
      prefs.autoFlush || tmpStart + maxBlockSize <= tmpBuff.Length
    }

    /** The input that is kept for the next block. */
    function Tmp(): seq<byte>
      requires tmpStart + tmpInSize <= tmpBuff.Length
      reads `tmpBuff, `tmpStart, `tmpInSize, tmpBuff
    {
      tmpBuff[tmpStart..tmpStart + tmpInSize]
    }

    /** What was written is the header and the blocks made. */
    ghost predicate Books()
      reads `prefs, `past, `blocks, `written
    {
      && ValidPrefs(prefs) && (Trusted(prefs, pack) ==> InOrder(InfoFor(prefs), blocks)) && past == Content()
      && written == Header(x, InfoFor(prefs)) + BlocksBytes(x, InfoFor(prefs), blocks)
    }

    ghost predicate Ready()
      reads `prefs, `maxBlockSize, `tmpBuff, `tmpStart, `tmpInSize, `past, `blocks, `written, stream, stream.hashTable
    {
      stream.Valid() && Set() && Books()
    }

    ghost predicate Summed()
      reads `prefs, `xxh, `totalInSize, `fed
    {
      (prefs.contentSum ==> xxh == fed) && (prefs.contentSize != 0 ==> totalInSize == |fed|)
    }

    /** A frame is under way: what was fed is in the blocks and in tmpIn. */
    ghost predicate Open()
      reads this, stream, stream.hashTable, tmpBuff
    {
      Ready() && Summed() && Fits() && Content() + Tmp() == fed
    }

    ghost predicate Valid()
      reads this, stream, stream.hashTable, tmpBuff
    {
      stream.Valid() && if cStage == 1 then Open() else tmpInSize == 0
    }

    /** Output and state do not overlap. */
    ghost predicate Apart(dst: array<byte>)
      reads `tmpBuff
    {
      dst != tmpBuff && stream.hashTable as object != dst && stream.hashTable as object != tmpBuff
    }

    /** One more block. */
    method AddBlock(dst: array<byte>, start: nat, part: seq<byte>) returns (n: nat)
      requires Ready() && Apart(dst) && 0 < |part| <= maxBlockSize
      requires start + 4 + |part| + Crc(prefs.blockSums) <= dst.Length
      modifies `past, `blocks, `written, stream, stream.hashTable, dst
      ensures Ready() && Content() == old(Content()) + part
      ensures n <= 4 + |part| + Crc(prefs.blockSums)
      ensures start + n <= dst.Length && written == old(written) + dst[start..start + n]
      ensures forall j :: 0 <= j < start || start + 4 + |part| + Crc(prefs.blockSums) <= j < dst.Length ==> dst[j] == old(dst[j])
    {
      hide Stream.Valid, Trusted, ValidBlock, RenderBlock, BufferNeeded, BlocksBytes, Header, InOrder;
      ghost var b;
      n, b := MakeBlock(x, stream, pack, past, dst, start, part, prefs);
      NoteBlock(b, part);
    }

    method NoteBlock(ghost b: Block, part: seq<byte>)
      requires Set() && Books() && b.Content() == part && (Trusted(prefs, pack) ==> ValidBlock(InfoFor(prefs), b, past))
      modifies `past, `blocks, `written
      ensures Set() && Books() && Content() == old(Content()) + part
      ensures written == old(written) + RenderBlock(x, InfoFor(prefs), b)
    {
      hide Header, RenderBlock, ValidBlock, InOrder, BlocksBytes, Contents, Trusted;
      OneMore(x, InfoFor(prefs), blocks, b);
      if Trusted(prefs, pack) {
        OneMoreInOrder(InfoFor(prefs), blocks, b);
      }
      past := past + part;
      written := written + RenderBlock(x, InfoFor(prefs), b);
      blocks := blocks + [b];
    }

    /** LZ4F_compressBegin: the header. Nothing but a capacity below 19 is an error. */
    method Begin(dst: array<byte>, start: nat, capacity: nat, preferences: Prefs) returns (r: Option<nat>)
      requires stream.Valid() && Apart(dst) && ValidPrefs(preferences) && start + capacity <= dst.Length
      modifies this, dst
      ensures r.None? <==> capacity < MAX_HEADER
      ensures r.Some? ==> r.value <= MAX_HEADER && cStage == 1 && Valid() && fed == [] && blocks == [] && tmpInSize == 0
      ensures r.Some? ==> prefs == preferences.(sizeId := if preferences.sizeId == 0 then 4 else preferences.sizeId)
      ensures r.Some? ==> written == dst[start..start + r.value]
      ensures tmpBuff == old(tmpBuff) || fresh(tmpBuff)
      ensures forall j :: 0 <= j < start || start + capacity <= j < dst.Length ==> dst[j] == old(dst[j])
    {
      if capacity < MAX_HEADER {
        return None;
      }
      Configure(preferences);
      var header := Header(x, InfoFor(prefs));
      Put(dst, start, header);
      r := Some(|header|);
    }

    /** A buffer that was large enough is used again. */
    method EnsureTmp()
      modifies `tmpBuff
      ensures tmpBuff.Length >= BufferNeeded(prefs, maxBlockSize)
      ensures tmpBuff == old(tmpBuff) || fresh(tmpBuff)
    {
      if tmpBuff.Length < BufferNeeded(prefs, maxBlockSize) {
        tmpBuff := new byte[BufferNeeded(prefs, maxBlockSize)];
      }
    }

    method Configure(preferences: Prefs)
      requires stream.Valid() && ValidPrefs(preferences)
      modifies this
      ensures cStage == 1 && Open() && fed == [] && blocks == [] && tmpInSize == 0
      ensures prefs == preferences.(sizeId := if preferences.sizeId == 0 then 4 else preferences.sizeId)
      ensures written == Header(x, InfoFor(prefs))
      ensures tmpBuff == old(tmpBuff) || fresh(tmpBuff)
    {
      hide Stream.Valid, Books, Set, Fits, ValidPrefs, InfoFor, Header;
      Choose(preferences);
      totalInSize, xxh, fed, cStage := 0, [], [], 1;
      StartBooks();
      assert Content() + Tmp() == [];
    }

    method Choose(preferences: Prefs)
      requires ValidPrefs(preferences)
      modifies `prefs, `maxBlockSize, `tmpBuff, `tmpStart, `tmpInSize
      ensures prefs == preferences.(sizeId := if preferences.sizeId == 0 then 4 else preferences.sizeId)
      ensures ValidPrefs(prefs) && Set() && Fits() && tmpInSize == tmpStart == 0 && Tmp() == []
      ensures tmpBuff == old(tmpBuff) || fresh(tmpBuff)
    {
      hide BlockSize;
      BlockSizes(preferences.sizeId);
      prefs := preferences.(sizeId := if preferences.sizeId == 0 then 4 else preferences.sizeId);
      maxBlockSize := BlockSize(prefs.sizeId);
      tmpStart, tmpInSize := 0, 0;
      EnsureTmp();
    }

    method StartBooks()
      requires ValidPrefs(prefs)
      modifies `past, `blocks, `written
      ensures Books() && blocks == [] && Content() == [] && written == Header(x, InfoFor(prefs))
    {
      hide Header, InOrder, BlocksBytes, Contents;
      past, blocks, written := [], [], Header(x, InfoFor(prefs));
      NothingYet(x, InfoFor(prefs));
    }

    // ---- LZ4F_compressUpdate ----

    /** `tmpIn` and `src[ip..]` are still to be dealt with; the blocks and they make `target`. */
    ghost predicate Left(src: seq<byte>, ip: nat, target: seq<byte>)
      reads this, tmpBuff
    {
      && ip <= |src| && tmpStart + tmpInSize <= tmpBuff.Length && (tmpInSize == 0 || ip == |src| || ip == 0)
      && Content() + Tmp() + src[ip..] == target
    }

    /** There is room for the blocks the rest can take. */
    predicate Room(src: seq<byte>, ip: nat, op: nat, end: nat)
      requires ip <= |src| && maxBlockSize > 0
      reads this
    {
      op + Cost(tmpInSize + |src| - ip, maxBlockSize, Crc(prefs.blockSums), prefs.autoFlush) <= end
    }

    /** A block is completed with the new input, or the new input is only kept. */
    method CompleteTmp(dst: array<byte>, op: nat, end: nat, src: seq<byte>, ghost target: seq<byte>) returns (ip: nat, o: nat)
      requires Ready() && Apart(dst) && Left(src, 0, target) && Room(src, 0, op, end) && end <= dst.Length
      requires tmpInSize > 0 && Fits()
      modifies `tmpStart, `tmpInSize, `past, `blocks, `written, tmpBuff, stream, stream.hashTable, dst
      ensures Ready() && Left(src, ip, target) && Room(src, ip, o, end) && op <= o <= end
      ensures ip == |src| || tmpInSize == 0
      ensures tmpInSize == 0 || Fits()
      ensures written == old(written) + dst[op..o]
      ensures forall j :: 0 <= j < op || end <= j < dst.Length ==> dst[j] == old(dst[j])
    {
      hide Stream.Valid, Books, BufferNeeded, Contents;
      var sizeToCopy := maxBlockSize - tmpInSize;
      if sizeToCopy > |src| {
        KeepAll(Content(), Tmp(), src);
        FillTmp(src);
        assert dst[op..op] == [];
        return |src|, op;
      }
      ip := sizeToCopy;
      TakePart(Content(), Tmp(), src, ip);
      assert |src[..ip]| == ip;
      var n := CompleteBlock(dst, op, src[..ip]);
      o := op + n;
    }

    /** The block is full, and made. */
    method CompleteBlock(dst: array<byte>, op: nat, part: seq<byte>) returns (n: nat)
      requires Ready() && Apart(dst) && Fits() && tmpInSize + |part| == maxBlockSize
      requires !prefs.autoFlush && op + 4 + maxBlockSize + Crc(prefs.blockSums) <= dst.Length
      modifies `tmpStart, `tmpInSize, `past, `blocks, `written, tmpBuff, stream, stream.hashTable, dst
      ensures Ready() && tmpInSize == 0 && Content() == old(Content() + (Tmp() + part)) && Tmp() == []
      ensures n <= 4 + maxBlockSize + Crc(prefs.blockSums) && op + n <= dst.Length
      ensures written == old(written) + dst[op..op + n]
      ensures forall j :: 0 <= j < op || op + 4 + maxBlockSize + Crc(prefs.blockSums) <= j < dst.Length ==> dst[j] == old(dst[j])
    {
      hide Stream.Valid, Books, BufferNeeded, Contents, ValidPrefs;
      FillTmp(part);
      var block := Tmp();
      tmpInSize := 0;
      n := AddBlock(dst, op, block);
      if prefs.linked {
        tmpStart := tmpStart + maxBlockSize;
      }
    }

    /** memcpy behind what tmpIn holds. */
    method FillTmp(part: seq<byte>)
      requires tmpStart + tmpInSize + |part| <= tmpBuff.Length
      modifies `tmpInSize, tmpBuff
      ensures tmpInSize == old(tmpInSize) + |part|
      ensures Tmp() == old(Tmp()) + part
    {
      var from := tmpStart + tmpInSize;
      forall j | from <= j < from + |part| {
        tmpBuff[j] := part[j - from];
      }
      tmpInSize := tmpInSize + |part|;
    }

    /** LZ4F_localSaveDict: the last bytes of what was compressed go to the start of the buffer, and
        tmpIn behind them. */
    method SaveDict()
      requires tmpInSize == 0 && KB64 <= tmpBuff.Length
      modifies `tmpStart, tmpBuff
      ensures 0 < tmpStart <= KB64 && Tmp() == []
    {
      var size := Min(KB64, 1 + save(past));
      forall j | 0 <= j < size {
        tmpBuff[j] := if |past| + j >= size then past[|past| + j - size] else 0;
      }
      tmpStart := size;
    }

    /** The dictionary is preserved, and tmpIn kept within limits, after an update. */
    method Place(fromSrc: bool, stableSrc: bool)
      requires Set() && (fromSrc || !Fits() ==> tmpInSize == 0)
      modifies `tmpStart, tmpBuff
      ensures Set() && Fits() && Tmp() == old(Tmp())
    {
      hide ValidPrefs;
      if prefs.linked && fromSrc {
        if stableSrc {
          tmpStart := 0;
        } else {
          SaveDict();
        }
      }
      if tmpStart + maxBlockSize > tmpBuff.Length && !prefs.autoFlush {
        SaveDict();
      }
    }

    /** As many whole blocks as the input holds. */
    method FullBlocks(dst: array<byte>, op: nat, end: nat, src: seq<byte>, ip0: nat, ghost target: seq<byte>) returns (ip: nat, o: nat)
      requires Ready() && Apart(dst) && Left(src, ip0, target) && Room(src, ip0, op, end) && op <= end <= dst.Length
      requires (ip0 == |src| || tmpInSize == 0) && maxBlockSize > 0
      modifies `past, `blocks, `written, stream, stream.hashTable, dst
      ensures Ready() && Left(src, ip, target) && Room(src, ip, o, end) && op <= o <= end
      ensures ip == |src| || tmpInSize == 0
      ensures |src| - ip < maxBlockSize
      ensures written == old(written) + dst[op..o]
      ensures forall j :: 0 <= j < op || end <= j < dst.Length ==> dst[j] == old(dst[j])
    {
      hide Ready, Books, Content;
      ip, o := ip0, op;
      assert dst[op..op] == [];
      while |src| - ip >= maxBlockSize
        invariant Ready() && Left(src, ip, target) && Room(src, ip, o, end) && op <= o <= end
        invariant (ip == |src| || tmpInSize == 0) && ip <= |src|
        invariant written == old(written) + dst[op..o]
        invariant forall j :: 0 <= j < op || end <= j < dst.Length ==> dst[j] == old(dst[j])
        decreases |src| - ip
      {
        ghost var w, o0 := written, o;
        o := NextBlock(dst, o, end, src, ip, ip + maxBlockSize, target);
        ip := ip + maxBlockSize;
        assert dst[op..o] == dst[op..o0] + dst[o0..o];
      }
    }

    /** The block of src[ip..q]. */
    method NextBlock(dst: array<byte>, op: nat, end: nat, src: seq<byte>, ip: nat, q: nat, ghost target: seq<byte>) returns (o: nat)
      requires Ready() && Apart(dst) && Left(src, ip, target) && tmpInSize == 0 && ip < q <= |src| && q - ip <= maxBlockSize
      requires Room(src, ip, op, end) && op <= end <= dst.Length
      requires q - ip == maxBlockSize || (prefs.autoFlush && q == |src|)
      modifies `past, `blocks, `written, stream, stream.hashTable, dst
      ensures Ready() && Left(src, q, target) && Room(src, q, o, end) && op <= o <= end
      ensures written == old(written) + dst[op..o]
      ensures forall j :: 0 <= j < op || end <= j < dst.Length ==> dst[j] == old(dst[j])
    {
      hide Stream.Valid, Books;
      TakeNext(Content(), src, ip, q);
      assert Tmp() == [];
      var n := AddBlock(dst, op, src[ip..q]);
      o := op + n;
    }

    function Bound(srcSize: nat): nat
      requires 4 <= prefs.sizeId <= 7
      reads this
    {
      CompressBoundInternal(srcSize, prefs.sizeId, prefs.autoFlush, prefs.blockSums, prefs.contentSum, tmpInSize)
    }

    lemma CostFlush(n: nat)
      requires maxBlockSize > 0
      ensures Cost(n, maxBlockSize, Crc(prefs.blockSums), false) <= Cost(n, maxBlockSize, Crc(prefs.blockSums), true)
      decreases n
    {
      if n >= maxBlockSize {
        CostFlush(n - maxBlockSize);
      }
    }

    /** What the bound sets aside for the end of the frame. */
    function EndSize(): nat
      reads `prefs
    {
      BLOCK_HEADER + Crc(prefs.contentSum)
    }

    /** The promised bound is room enough for the blocks, and for the end of the frame. */
    lemma BoundRoom(src: seq<byte>, start: nat, end: nat)
      requires Set() && start + Bound(|src|) - EndSize() <= end
      ensures Bound(|src|) >= EndSize() && Room(src, 0, start, end)
    {
      BoundIsCost(|src|, prefs.sizeId, prefs.autoFlush, prefs.blockSums, prefs.contentSum, tmpInSize);
      CostFlush(|src| + tmpInSize);
    }

    /** All blocks the input completes, and with autoFlush the rest of it. */
    method FullAndLast(dst: array<byte>, op: nat, end: nat, src: seq<byte>, ip0: nat, ghost target: seq<byte>) returns (ip: nat, o: nat)
      requires Ready() && Apart(dst) && Left(src, ip0, target) && Room(src, ip0, op, end) && op <= end <= dst.Length
      requires (ip0 == |src| || tmpInSize == 0) && maxBlockSize > 0
      modifies `past, `blocks, `written, stream, stream.hashTable, dst
      ensures Ready() && Left(src, ip, target) && op <= o <= end
      ensures (ip == |src| || tmpInSize == 0) && |src| - ip < maxBlockSize && (prefs.autoFlush ==> ip == |src|)
      ensures written == old(written) + dst[op..o]
      ensures forall j :: 0 <= j < op || end <= j < dst.Length ==> dst[j] == old(dst[j])
    {
      hide Ready, Books, Content, Cost;
      ip, o := FullBlocks(dst, op, end, src, ip0, target);
      if prefs.autoFlush && ip < |src| {
        ghost var o1 := o;
        o := NextBlock(dst, o, end, src, ip, |src|, target);
        assert dst[op..o] == dst[op..o1] + dst[o1..o];
        ip := |src|;
      }
    }

    method Blocks(dst: array<byte>, start: nat, end: nat, src: seq<byte>, ghost target: seq<byte>)
      returns (ip: nat, o: nat, fromSrc: bool)
      requires Ready() && Apart(dst) && Left(src, 0, target) && Room(src, 0, start, end) && start <= end <= dst.Length
      requires maxBlockSize > 0 && Fits()
      modifies `tmpStart, `tmpInSize, `past, `blocks, `written, tmpBuff, stream, stream.hashTable, dst
      ensures Ready() && Left(src, ip, target) && start <= o <= end
      ensures (ip == |src| || tmpInSize == 0) && |src| - ip < maxBlockSize && (prefs.autoFlush ==> ip == |src|)
      ensures fromSrc || !Fits() ==> tmpInSize == 0
      ensures written == old(written) + dst[start..o]
      ensures forall j :: 0 <= j < start || end <= j < dst.Length ==> dst[j] == old(dst[j])
    {
      hide Ready, Books, Content, Cost, BufferNeeded;
      ip, o := 0, start;
      if tmpInSize > 0 {
        ip, o := CompleteTmp(dst, start, end, src, target);
      }
      ghost var o1 := o;
      var ip1 := ip;
      assert dst[start..start] == [];
      ip, o := FullAndLast(dst, o, end, src, ip, target);
      assert dst[start..o] == dst[start..o1] + dst[o1..o];
      fromSrc := ip > ip1;
    }

    /** LZ4F_compressUpdate. */
    method Update(dst: array<byte>, start: nat, capacity: nat, src: seq<byte>, stableSrc: bool) returns (r: Option<nat>)
      requires Valid() && Apart(dst) && start + capacity <= dst.Length
      modifies this, tmpBuff, stream, stream.hashTable, dst
      ensures Valid() && prefs == old(prefs) && cStage == old(cStage) && tmpBuff == old(tmpBuff)
      ensures cStage == 1 && prefs.autoFlush ==> tmpInSize == 0
      ensures r.Some? <==> cStage == 1 && capacity >= old(if cStage == 1 then Bound(|src|) else 0)
      ensures r.Some? ==> fed == old(fed) + src && r.value + EndSize() <= old(Bound(|src|)) && written == old(written) + dst[start..start + r.value]
      ensures r.None? ==> fed == old(fed) && written == old(written)
      ensures forall j :: 0 <= j < start || start + capacity <= j < dst.Length ==> dst[j] == old(dst[j])
    {
      hide Stream.Valid, Books, Cost, CompressBoundInternal, BufferNeeded, Contents;
      if cStage != 1 || capacity < Bound(|src|) {
        return None;
      }
      ghost var target := fed + src;
      var n := MakeBlocks(dst, start, capacity, src, stableSrc, target);
      if prefs.contentSum {
        xxh := xxh + src;
      }
      totalInSize := totalInSize + |src|;
      fed := target;
      r := Some(n);
    }

    /** The blocks, the place of tmpIn, and what is kept. */
    method MakeBlocks(dst: array<byte>, start: nat, capacity: nat, src: seq<byte>, stableSrc: bool, ghost target: seq<byte>)
      returns (n: nat)
      requires Ready() && Fits() && Apart(dst) && start + capacity <= dst.Length
      requires Content() + Tmp() == fed && target == fed + src
      requires ValidPrefs(prefs) && prefs.sizeId != 0 && capacity >= Bound(|src|)
      modifies `tmpStart, `tmpInSize, `past, `blocks, `written, tmpBuff, stream, stream.hashTable, dst
      ensures Ready() && Fits() && Content() + Tmp() == target
      ensures n + EndSize() <= old(Bound(|src|)) && written == old(written) + dst[start..start + n]
      ensures forall j :: 0 <= j < start || start + capacity <= j < dst.Length ==> dst[j] == old(dst[j])
    {
      hide Stream.Valid, Books, Cost, CompressBoundInternal, BufferNeeded, Contents;
      var end: int := start + Bound(|src|) - EndSize();
      BoundRoom(src, start, if end >= 0 then end else 0);
      assert src[0..] == src && Content() + Tmp() + src[0..] == target;
      var ip, o, fromSrc := Blocks(dst, start, end, src, target);
      Place(fromSrc, stableSrc);
      Keep(src, ip, target);
      n := o - start;
    }

    /** What is left of the input, less than a block, is kept. */
    method Keep(src: seq<byte>, ip: nat, ghost target: seq<byte>)
      requires Ready() && Fits() && Left(src, ip, target) && (ip == |src| || tmpInSize == 0) && |src| - ip < maxBlockSize
      requires prefs.autoFlush ==> ip == |src|
      modifies `tmpInSize, tmpBuff
      ensures Ready() && Fits() && Content() + Tmp() == target
    {
      hide Stream.Valid, Books, Contents, BufferNeeded;
      if ip < |src| {
        assert Tmp() == [];
        FillTmp(src[ip..]);
        assert [] + src[ip..] == src[ip..] && Content() + [] == Content();
      } else {
        assert src[ip..] == [] && Content() + Tmp() + [] == Content() + Tmp();
      }
    }

    /** LZ4F_flush. */
    method Flush(dst: array<byte>, start: nat, capacity: nat) returns (r: Option<nat>)
      requires Valid() && Apart(dst) && start + capacity <= dst.Length
      modifies `tmpStart, `tmpInSize, `past, `blocks, `written, tmpBuff, stream, stream.hashTable, dst
      ensures Valid()
      ensures r.None? <==> 0 < old(tmpInSize) && capacity < old(tmpInSize) + BLOCK_HEADER + CHECKSUM
      ensures cStage == 1 || old(tmpInSize) == 0
      ensures r.None? ==> tmpInSize == old(tmpInSize) && blocks == old(blocks) && written == old(written)
      ensures r.Some? ==> tmpInSize == 0 && r.value <= capacity && written == old(written) + dst[start..start + r.value]
      ensures r.Some? && old(tmpInSize) == 0 ==> r.value == 0
      ensures r.Some? ==> r.value <= if old(tmpInSize) == 0 then 0 else BLOCK_HEADER + old(tmpInSize) + CHECKSUM
      ensures forall j :: 0 <= j < start || start + capacity <= j < dst.Length ==> dst[j] == old(dst[j])
    {
      hide Stream.Valid, Books, Contents, BufferNeeded;
      if tmpInSize == 0 {
        assert written + dst[start..start] == written;
        return Some(0);
      }
      if capacity < tmpInSize + BLOCK_HEADER + CHECKSUM {
        return None;
      }
      var n := FlushTmp(dst, start);
      Place(false, false);
      assert Content() + Tmp() == Content();
      r := Some(n);
    }

    /** The block of what is kept. */
    method FlushTmp(dst: array<byte>, start: nat) returns (n: nat)
      requires Ready() && Apart(dst) && 0 < tmpInSize && start + 4 + tmpInSize + Crc(prefs.blockSums) <= dst.Length
      modifies `tmpStart, `tmpInSize, `past, `blocks, `written, stream, stream.hashTable, dst
      ensures Ready() && tmpInSize == 0 && Content() == old(Content() + Tmp()) && Tmp() == []
      ensures n <= 4 + old(tmpInSize) + Crc(prefs.blockSums) && start + n <= dst.Length
      ensures written == old(written) + dst[start..start + n]
      ensures forall j :: 0 <= j < start || start + 4 + old(tmpInSize) + Crc(prefs.blockSums) <= j < dst.Length ==> dst[j] == old(dst[j])
    {
      hide Stream.Valid, Books, Contents, BufferNeeded, ValidPrefs;
      var part := Tmp();
      tmpInSize := 0;
      n := AddBlock(dst, start, part);
      if prefs.linked {
        tmpStart := tmpStart + |part|;
      }
    }

    /** The end mark, and the checksum of what was hashed. */
    function EndMark(): (s: seq<byte>)
      reads `prefs, `xxh
      ensures |s| == EndSize()
    {
      Le(4, 0) + Checksum(x, prefs.contentSum, xxh)
    }

    /** LZ4F_compressEnd: what is left, the end mark and the checksum. What was written is then a
        valid frame of all that was fed. Without a frame under way, only the end is written. */
    method End(dst: array<byte>, start: nat, capacity: nat) returns (r: Option<nat>)
      requires Valid() && Apart(dst) && start + capacity <= dst.Length
      modifies this, tmpBuff, stream, stream.hashTable, dst
      ensures Valid() && prefs == old(prefs) && fed == old(fed) && (r.Some? ==> cStage == 0)
      ensures r.Some? ==> r.value <= capacity && written == old(written) + dst[start..start + r.value]
      ensures r.Some? && old(cStage) == 1 ==> IsFrame(x, prefs, pack, blocks, fed, written)
      ensures old(cStage) != 1 ==> (r.Some? <==> capacity >= EndSize() && (prefs.contentSize == 0 || prefs.contentSize == totalInSize))
      ensures old(cStage) != 1 && r.Some? ==> dst[start..start + r.value] == EndMark()
      ensures r.Some? ==> r.value <= EndSize() + if old(tmpInSize) == 0 then 0 else BLOCK_HEADER + old(tmpInSize) + CHECKSUM
      ensures old(cStage) == 1 && prefs.contentSize != 0 && prefs.contentSize != |fed| ==> r.None?
      ensures old(cStage) == 1 && r.None? ==>
                (prefs.contentSize != 0 && prefs.contentSize != |fed|)
                || capacity < EndSize() + if old(tmpInSize) == 0 then 0 else BLOCK_HEADER + old(tmpInSize) + CHECKSUM
      ensures forall j :: 0 <= j < start || start + capacity <= j < dst.Length ==> dst[j] == old(dst[j])
    {
      hide *;
      var flushSize := Flush(dst, start, capacity);
      if flushSize.None? {
        return None;
      }
      ghost var a := dst[start..start + flushSize.value];
      var n := FinishBehind(dst, start, start + flushSize.value, start + capacity, a);
      if n.None? {
        return None;
      }
      Assoc(old(written), a, EndMark());
      r := Some(flushSize.value + n.value);
    }

    /** The same, seen from where what was flushed begins. */
    method FinishBehind(dst: array<byte>, start: nat, at: nat, end: nat, ghost a: seq<byte>) returns (r: Option<nat>)
      requires Valid() && tmpInSize == 0 && Apart(dst) && start <= at <= end <= dst.Length && dst[start..at] == a
      modifies `cStage, `written, dst
      ensures Valid()
      ensures r.Some? <==> end - at >= EndSize() && (prefs.contentSize == 0 || prefs.contentSize == totalInSize)
      ensures old(cStage) == 1 && prefs.contentSize != 0 ==> totalInSize == |fed|
      ensures r.Some? ==> cStage == 0 && r.value == EndSize()
      ensures r.Some? ==> dst[start..at + r.value] == a + EndMark() && written == old(written) + EndMark()
      ensures r.Some? && old(cStage) == 1 ==> IsFrame(x, prefs, pack, blocks, fed, written)
      ensures forall j :: 0 <= j < start || end <= j < dst.Length ==> dst[j] == old(dst[j])
    {
      hide Valid, IsFrame, EndMark;
      r := Finish(dst, at, end);
      assert dst[start..at] == a;
      if r.Some? {
        assert dst[start..at + r.value] == dst[start..at] + dst[at..at + r.value];
      }
    }

    /** The end, when nothing is left in tmpIn. */
    method Finish(dst: array<byte>, at: nat, end: nat) returns (r: Option<nat>)
      requires Valid() && tmpInSize == 0 && Apart(dst) && at <= end <= dst.Length
      modifies `cStage, `written, dst
      ensures Valid()
      ensures r.Some? <==> end - at >= EndSize() && (prefs.contentSize == 0 || prefs.contentSize == totalInSize)
      ensures old(cStage) == 1 && prefs.contentSize != 0 ==> totalInSize == |fed|
      ensures r.Some? ==> cStage == 0 && r.value == EndSize() && written == old(written) + dst[at..at + r.value]
      ensures r.Some? ==> dst[at..at + r.value] == EndMark()
      ensures r.Some? && old(cStage) == 1 ==> IsFrame(x, prefs, pack, blocks, fed, written)
      ensures forall j :: 0 <= j < at || end <= j < dst.Length ==> dst[j] == old(dst[j])
    {
      hide Ready, Contents, IsFrame, Le, InfoFor, Checksum;
      if end - at < EndSize() {
        return None;
      }
      var n := Seal(dst, at);
      cStage := 0;
      if prefs.contentSize != 0 && prefs.contentSize != totalInSize {
        return None;
      }
      r := Some(n);
    }

    /** Writes the end mark and the checksum. */
    method Seal(dst: array<byte>, start: nat) returns (n: nat)
      requires (cStage == 1 ==> Open()) && tmpInSize == 0 && Apart(dst) && start + EndSize() <= dst.Length
      modifies `written, dst
      ensures n == EndSize() && written == old(written) + dst[start..start + n]
      ensures dst[start..start + n] == EndMark()
      ensures cStage == 1 && (prefs.contentSize == 0 || prefs.contentSize == |fed|) ==> IsFrame(x, prefs, pack, blocks, fed, written)
      ensures forall j :: 0 <= j < start || start + n <= j < dst.Length ==> dst[j] == old(dst[j])
    {
      hide Stream.Valid, InOrder, BlocksBytes, Header, Contents, Le, BufferNeeded, Trusted;
      var suffix := EndMark();
      Put(dst, start, suffix);
      if cStage == 1 {
        assert Tmp() == [] && Content() + [] == Content();
        Sealed(x, prefs, pack, blocks, fed, written, suffix);
      }
      written := written + suffix;
      n := |suffix|;
    }
  }

  /** The bytes are a frame of the given content, and a valid one when the block compressor is
      right. */
  ghost predicate IsFrame(x: Xxh, prefs: Prefs, pack: Packer, blocks: seq<Block>, content: seq<byte>, bytes: seq<byte>) {
    && ValidPrefs(prefs)
    && var f := Frame(InfoFor(prefs), blocks);
    bytes == Render(x, f) && (Trusted(prefs, pack) ==> ValidFrame(f)) && FrameContent(f) == content
  }

  lemma Sealed(x: Xxh, prefs: Prefs, pack: Packer, blocks: seq<Block>, fed: seq<byte>, written: seq<byte>, suffix: seq<byte>)
    requires ValidPrefs(prefs) && (Trusted(prefs, pack) ==> InOrder(InfoFor(prefs), blocks)) && fed == Contents(blocks, |blocks|)
    requires written == Header(x, InfoFor(prefs)) + BlocksBytes(x, InfoFor(prefs), blocks)
    requires prefs.contentSum ==> suffix == Le(4, 0) + Checksum(x, true, fed)
    requires !prefs.contentSum ==> suffix == Le(4, 0) + []
    ensures prefs.contentSize == 0 || prefs.contentSize == |fed| ==> IsFrame(x, prefs, pack, blocks, fed, written + suffix)
  {
    hide Header, RenderBlock, ValidBlock, Le, Render, BlocksBytes, ValidInfo, Trusted, InOrder;
    var info := InfoFor(prefs);
    Assembled(x, info, blocks);
    if (prefs.contentSize == 0 || prefs.contentSize == |fed|) && Trusted(prefs, pack) {
      InOrderIsValid(info, blocks);
    }
  }

  function BlockId(sizeId: nat): nat {
    if sizeId == 0 then 4 else sizeId
  }

  /** LZ4F_compressFrameBound. */
  function FrameBound(srcSize: nat, p: Prefs): nat
    requires ValidPrefs(p)
  {
    CompressFrameBound(srcSize, BlockId(p.sizeId), p.blockSums, p.contentSum)
  }

  /** Blocks and end, after the header. */
  method Rest(c: Cctx, dst: array<byte>, start: nat, src: seq<byte>) returns (n: nat)
    requires c.Valid() && c.cStage == 1 && c.Apart(dst) && c.fed == [] && c.tmpInSize == 0 && c.prefs.autoFlush
    requires start <= dst.Length && ValidPrefs(c.prefs) && c.prefs.sizeId >= 4 && start + c.Bound(|src|) <= dst.Length
    requires c.prefs.contentSize == 0 || c.prefs.contentSize == |src|
    modifies c, c.tmpBuff, c.stream, c.stream.hashTable, dst
    ensures n <= old(c.Bound(|src|)) && start + n <= dst.Length && c.prefs == old(c.prefs)
    ensures c.written == old(c.written) + dst[start..start + n] && IsFrame(c.x, c.prefs, c.pack, c.blocks, src, c.written)
    ensures forall j :: 0 <= j < start ==> dst[j] == old(dst[j])
  {
    hide Cctx.Valid, CompressBoundInternal, IsFrame, Le, Checksum;
    assert [] + src == src;
    var body := c.Update(dst, start, dst.Length - start, src, true);
    var b := body.value;
    ghost var a := dst[start..start + b];
    var tail := c.End(dst, start + b, dst.Length - start - b);
    n := b + tail.value;
    assert dst[start..start + b] == a;
    assert dst[start..start + n] == a + dst[start + b..start + b + tail.value];
  }

  /** Header, blocks and end, in a destination of the promised size. */
  method Compose(x: Xxh, pack: Packer, save: Saver, dst: array<byte>, src: seq<byte>, p: Prefs) returns (n: nat, ghost f: Frame)
    requires ValidPrefs(p) && p.autoFlush && (p.contentSize == 0 || p.contentSize == |src|)
    requires dst.Length >= FrameBound(|src|, p)
    modifies dst
    ensures n <= FrameBound(|src|, p) && f.Frame? && 4 <= f.info.sizeId <= 7 && FrameContent(f) == src && dst[..n] == Render(x, f)
    ensures f.info == InfoFor(p.(sizeId := BlockId(p.sizeId)))
    ensures Trusted(p, pack) ==> ValidFrame(f)
  {
    hide Cctx.Valid, CompressBoundInternal, Render, Header, Stream.Valid, ValidFrame, FrameContent, FrameBound;
    var c := new Cctx(x, pack, save);
    FrameBoundHeader(|src|, p);
    var head := c.Begin(dst, 0, dst.Length, p);
    var h := head.value;
    ghost var a := dst[0..h];
    SizedBy(c, p, |src|);
    var m := Rest(c, dst, h, src);
    n := h + m;
    assert dst[0..h] == a;
    assert dst[..n] == a + dst[h..h + m];
    f := Frame(InfoFor(c.prefs), c.blocks);
  }

  lemma FrameBoundHeader(srcSize: nat, p: Prefs)
    requires ValidPrefs(p)
    ensures FrameBound(srcSize, p) >= MAX_HEADER
  {
  }

  lemma SizedBy(c: Cctx, p: Prefs, srcSize: nat)
    requires ValidPrefs(p) && p.autoFlush && c.prefs == p.(sizeId := BlockId(p.sizeId)) && c.tmpInSize == 0
    ensures FrameBound(srcSize, p) == MAX_HEADER + c.Bound(srcSize)
  {
  }

  /** The frame says of itself what the caller asked for: the checksums; the size of the source, when
      a size was asked for and there is any; the dictionary; the smallest block size that holds the
      source, or the one asked for; and linked blocks only when there is more than one. */
  ghost predicate AsAsked(info: Info, preferences: Prefs, n: nat) {
    && info.contentSum == preferences.contentSum && info.blockSums == preferences.blockSums
    && info.size == (if preferences.contentSize != 0 && n > 0 then Some(n) else None)
    && info.dictId == (if preferences.dictId > 0 then Some(preferences.dictId) else None)
    && (preferences.sizeId <= 4 ==> info.sizeId == 4)
    && (preferences.sizeId > 4 ==> 4 <= info.sizeId <= preferences.sizeId <= 7)
    && (preferences.sizeId > 4 && info.sizeId < preferences.sizeId ==> n <= MaxBlock(info.sizeId))
    && (info.sizeId > 4 ==> n > MaxBlock(info.sizeId - 1))
    && (info.linked <==> preferences.linked && n > MaxBlock(info.sizeId))
  }

  /** 64 KB, 256 KB, 1 MB and 4 MB. */
  function MaxBlock(sizeId: nat): nat {
    match sizeId
    case 4 => 0x1_0000
    case 5 => 0x4_0000
    case 6 => 0x10_0000
    case _ => 0x40_0000
  }

  lemma Asked(info: Info, preferences: Prefs, p: Prefs, id: nat, n: nat)
    requires ValidPrefs(preferences) && n < 0x1_0000_0000_0000_0000
    requires preferences.sizeId <= 4 ==> id == preferences.sizeId
    requires preferences.sizeId > 4 ==> 4 <= id <= preferences.sizeId && (id < preferences.sizeId ==> n <= BlockSize(id))
    requires preferences.sizeId > 4 ==> forall k :: 4 <= k < id ==> n > BlockSize(k)
    requires p == preferences.(contentSize := if preferences.contentSize != 0 then n else 0, sizeId := id, autoFlush := true,
                               linked := preferences.linked && n > BlockSize(BlockId(id)))
    requires info == InfoFor(p.(sizeId := BlockId(id)))
    ensures ValidInfo(info) && AsAsked(info, preferences, n)
  {
    BlockSizesAre();
    if info.sizeId > 4 {
      assert n > BlockSize(info.sizeId - 1);
    }
  }

  /** The first bytes: the magic number, the flags, the block size, and the size of the source. */
  ghost predicate HeadIs(t: seq<byte>, info: Info, preferences: Prefs, n: nat) {
    && |t| > 6 && t[..4] == [0x04, 0x22, 0x4D, 0x18]
    && t[4] == 0x40 + (if preferences.linked && n > MaxBlock(info.sizeId) then 0 else 0x20)
               + (if preferences.blockSums then 0x10 else 0) + (if preferences.contentSize != 0 && n > 0 then 8 else 0)
               + (if preferences.contentSum then 4 else 0) + (if preferences.dictId > 0 then 1 else 0)
    && t[5] == 16 * info.sizeId
    && (preferences.contentSize != 0 && n > 0 ==> |t| > 14 && forall k :: 0 <= k < 8 ==> t[6 + k] == n / Power(k) % 256)
  }

  /** How such a frame begins. */
  lemma Starts(x: Xxh, f: Frame, t: seq<byte>, preferences: Prefs, n: nat)
    requires f.Frame? && ValidInfo(f.info) && t == Render(x, f) && AsAsked(f.info, preferences, n)
    ensures HeadIs(t, f.info, preferences, n)
  {
    hide Header;
    var h := Header(x, f.info);
    HeaderBytes(x, f.info);
    assert t == h + RenderFrom(x, f, 0);
    assert t[..4] == h[..4] == [h[0], h[1], h[2], h[3]];
  }

  /** LZ4F_compressFrame: fails exactly when the destination is below LZ4F_compressFrameBound, and
      else writes, within that bound, a frame of the source, whatever compresses its blocks. The
      frame is valid when that makes blocks that decode. */
  method CompressFrame(x: Xxh, pack: Packer, save: Saver, dst: array<byte>, src: seq<byte>, preferences: Prefs)
    returns (r: Option<nat>, ghost f: Frame)
    requires ValidPrefs(preferences) && |src| < 0x1_0000_0000_0000_0000
    modifies dst
    ensures r.None? <==> dst.Length < FrameBound(|src|, preferences)
    ensures r.Some? ==> r.value <= FrameBound(|src|, preferences) <= dst.Length
    ensures r.Some? ==> f.Frame? && 4 <= f.info.sizeId <= 7 && FrameContent(f) == src && dst[..r.value] == Render(x, f)
    ensures r.Some? && Trusted(preferences, pack) ==> ValidFrame(f)
    ensures r.Some? ==> AsAsked(f.info, preferences, |src|)
    ensures r.Some? ==> HeadIs(dst[..r.value], f.info, preferences, |src|)
  {
    hide CompressBoundInternal, Render, ValidFrame, FrameContent, AsAsked, HeadIs, InfoFor;
    var sized := if preferences.contentSize != 0 then preferences.(contentSize := |src|) else preferences;
    var id := OptimalBSID(sized.sizeId, |src|);
    if sized.sizeId > 4 {
      OptimalKeepsBound(sized.sizeId, id, |src|, sized.blockSums, sized.contentSum);
    }
    var p := sized.(sizeId := id, autoFlush := true, linked := preferences.linked && |src| > BlockSize(BlockId(id)));
    if dst.Length < FrameBound(|src|, p) {
      return None, Skippable(0, []);
    }
    var n;
    n, f := Compose(x, pack, save, dst, src, p);
    r := Some(n);
    Asked(f.info, preferences, p, id, |src|);
    Starts(x, f, dst[..n], preferences, |src|);
  }

  /** A frame written by LZ4F_compressFrame, read back in pieces of any size, is the source. */
  method FrameRoundTrip(x: Xxh, pack: Packer, save: Saver, dst: array<byte>, src: seq<byte>, preferences: Prefs, calls: seq<Piece>)
    returns (r: Option<nat>, d: Drive)
    requires ValidPrefs(preferences) && |src| < 0x1_0000_0000_0000_0000 && Trusted(preferences, pack)
    modifies dst
    ensures r.None? <==> dst.Length < FrameBound(|src|, preferences)
    ensures r.Some? && d.hint == Some(0) ==> d.out == src && d.used == r.value
    ensures r.Some? && Generous(calls) && |calls| > r.value + |src| ==> d.hint == Some(0)
    ensures r.Some? ==> d.hint.Some? && d.out <= src
  {
    hide Render, ValidFrame, FrameContent, FrameBound, FrameSize;
    ghost var f, ds;
    r, f := CompressFrame(x, pack, save, dst, src, preferences);
    d := Drive(None, 0, []);
    if r.Some? {
      var packed := dst[..r.value];
      Begins(x, f, packed);
      SizeFits(x, f, packed);
      d, ds := DriveFresh(x, f, packed, calls);
    }
  }

  lemma Begins(x: Xxh, f: Frame, t: seq<byte>)
    requires ValidFrame(f) && t == Render(x, f)
    ensures Opens(x, f, t)
  {
  }
}
