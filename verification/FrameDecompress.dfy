/**
 LZ4F_decompress: the resumable decoder, one method per stage. A caller hands it a stream in
 pieces of any size; whatever the pieces, the output is the frame's content. And whatever the
 stream, a frame that ends well was one.
 */
module FrameDecompress {
  import opened Bytes
  import opened FrameFormat
  import opened FrameHeader
  import opened FrameHistory
  import opened FrameLayout
  import opened FrameReading
  import Lz4Decompress

  datatype Stage =
    | GetFrameHeader | StoreFrameHeader | Init | GetBlockHeader | StoreBlockHeader | CopyDirect | GetBlockChecksum
    | GetCBlock | StoreCBlock | FlushOut | GetSuffix | StoreSuffix | GetSFrameSize | StoreSFrameSize | SkipSkippable

  /** What a stage ends with: another stage follows, or the call returns a hint or an error. */
  datatype Next = Again | Stop(hint: nat) | Fail

  /** The stream a context is fed, when it is known to begin with a valid frame, how much of it
      was taken, how many blocks were dealt with, and what an earlier frame had left in
      frameRemainingSize when this one began. And whatever the stream: all the bytes taken of this
      frame, what of a frame they have been found to be, and what was taken of a stored block. */
  datatype Goal = Goal(sound: bool, frame: Frame, stream: seq<byte>, pos: nat, at: nat, stale: nat,
                       tape: seq<byte>, seen: Frame, part: seq<byte>)
  {
    /** The part that stays the same. */
    function Aim(): (bool, Frame, seq<byte>, nat) { (sound, frame, stream, stale) }

    /** The same when all before src[p] was taken, src[0] being at position `base` of the stream. */
    function Upto(taken: seq<byte>, src: seq<byte>, base: nat, p: nat): Goal
      requires p <= |src|
    {
      this.(pos := base + p, tape := taken + src[..p])
    }

    lemma Onward(taken: seq<byte>, src: seq<byte>, base: nat, ip: nat, p: nat)
      requires ip <= p <= |src| && tape == taken + src[..ip]
      ensures Upto(taken, src, base, p).tape == tape + src[ip..p]
    {
      assert src[..p] == src[..ip] + src[ip..p];
    }

    /** Nothing was left over, or the frame's header overwrites it. */
    predicate Clean() {
      frame.Skippable? || frame.info.size.Some? || stale == 0
    }

    /** What frameRemainingSize is when there is no size to count down from. */
    function Idle(): nat {
      if frame.Frame? && frame.info.size.Some? then 0 else stale
    }
  }

  /** Stages that follow each other without taking input have falling ranks. */
  function Rank(stage: Stage): nat {
    match stage
    case GetFrameHeader => 14 case StoreFrameHeader => 13 case Init => 12 case GetCBlock => 11 case StoreCBlock => 10
    case FlushOut => 9 case CopyDirect => 8 case GetBlockChecksum => 7 case GetBlockHeader => 6
    case StoreBlockHeader => 5 case GetSuffix => 4 case StoreSuffix => 3
    case GetSFrameSize => 2 case StoreSFrameSize => 1 case SkipSkippable => 0
  }

  /** `src` is what the stream holds from position `base` on. */
  ghost predicate Fed(src: seq<byte>, t: seq<byte>, base: nat) {
    base + |src| <= |t| && forall j :: 0 <= j < |src| ==> src[j] == t[base + j]
  }

  lemma FedSlice(src: seq<byte>, t: seq<byte>, base: nat, a: nat, b: nat, p: nat, q: nat)
    requires Fed(src, t, base) && a <= b <= |src| && p == base + a && q == base + b
    ensures q <= |t| && src[a..b] == t[p..q]
  {
  }

  /** `a[lo..n]` holds what the stream holds at `from + lo`. */
  ghost predicate Buffered(a: array<byte>, lo: nat, n: nat, t: seq<byte>, from: nat)
    reads a
  {
    lo <= n <= a.Length && from + n <= |t| && forall j :: lo <= j < n ==> a[j] == t[from + j]
  }

  lemma BufferedSlice(a: array<byte>, lo: nat, n: nat, t: seq<byte>, from: nat)
    requires Buffered(a, lo, n, t, from)
    ensures lo <= n <= a.Length && from + n <= |t| && a[lo..n] == t[from + lo..from + n]
  {
  }

  lemma BufferGrew(a: array<byte>, lo: nat, n: nat, m: nat, s: seq<byte>, t: seq<byte>)
    requires lo <= n && m == n + |t| <= a.Length && a[lo..n] == s && forall j :: n <= j < m ==> a[j] == t[j - n]
    ensures a[lo..m] == s + t
  {
    assert a[lo..m] == a[lo..n] + a[n..m];
  }

  lemma SliceBuffered(a: array<byte>, lo: nat, n: nat, m: nat, s: seq<byte>, part: seq<byte>, t: seq<byte>, from: nat)
    requires lo <= n <= m <= a.Length && from + m <= |t| && a[lo..m] == s + part
    requires s == t[from + lo..from + n] && part == t[from + n..from + m]
    ensures Buffered(a, lo, m, t, from)
  {
    assert t[from + lo..from + m] == s + part;
    forall j | lo <= j < m ensures a[j] == t[from + j] {
      assert a[j] == a[lo..m][j - lo] == t[from + lo..from + m][j - lo];
    }
  }

  /** How the beginning of a frame is read. */
  function Expected(f: Frame, src: seq<byte>): Reading {
    if f.Skippable? then Skip
    else if |src| < HeaderSize(f.info) then Short(HeaderSize(f.info))
    else Good(f.info, HeaderSize(f.info))
  }

  lemma SplitWord(word: nat)
    requires word < TWO32
    ensures word == word % UNCOMPRESSED_FLAG + (if word / UNCOMPRESSED_FLAG == 1 then UNCOMPRESSED_FLAG else 0)
  {
  }

  lemma WordRead(x: Xxh, f: Frame, t: seq<byte>, at: nat, p: nat, word: nat)
    requires f.Frame? && Laid(x, f, t) && at <= |f.blocks| && p == At(f, at) && p + 4 <= |t| && word == LeNum(t[p..p + 4])
    ensures WordSays(f, at, word)
  {
    assert LaidAt(x, f, t, at);
  }

  /** The content is as long as the header says, if it does. */
  ghost predicate SizeKept(f: Frame)
    requires f.Frame?
  {
    Promised(f.info) != 0 ==> |FrameContent(f)| == Promised(f.info)
  }

  /** How many bytes a frame takes. */
  function FrameSize(f: Frame): nat {
    if f.Skippable? then 8 + |f.data|
    else At(f, |f.blocks|) + 4 + if f.info.contentSum then CHECKSUM else 0
  }

  lemma AtNext(f: Frame, i: nat)
    requires f.Frame? && i < |f.blocks|
    ensures At(f, i + 1) == At(f, i) + 4 + |f.blocks[i].data| + CrcSize(f.info)
  {
  }

  lemma {:induction false} PositionsGrow(f: Frame, i: nat, j: nat)
    requires f.Frame? && i <= j <= |f.blocks|
    ensures At(f, i) <= At(f, j)
    decreases j
  {
    if i < j {
      PositionsGrow(f, i, j - 1);
    }
  }

  /** The end mark follows every block. */
  lemma BlockEnds(f: Frame, at: nat)
    requires f.Frame? && at <= |f.blocks|
    ensures At(f, at) + 4 <= FrameSize(f)
    ensures at < |f.blocks| ==> At(f, at) + 8 + |f.blocks[at].data| + CrcSize(f.info) <= FrameSize(f)
  {
    hide At;
    if at < |f.blocks| {
      AtNext(f, at);
      PositionsGrow(f, at + 1, |f.blocks|);
    }
  }

  /** dst[start..start + n] is the part of the content from position `from` on. */
  ghost predicate Hands(dst: array<byte>, start: nat, n: nat, content: seq<byte>, from: nat)
    reads dst
  {
    from + n <= |content| && start + n <= dst.Length && dst[start..start + n] == content[from..from + n]
  }

  lemma TailHands(dst: array<byte>, start: nat, n: nat, past: seq<byte>, content: seq<byte>, from: nat)
    requires Mirrors(dst, start + n, past, n) && past <= content && |past| == from + n
    ensures Hands(dst, start, n, content, from)
  {
  }

  /** The decodings are those of the compressed ones among the first `n` blocks: each came when
      the output was the content of all blocks before it. */
  ghost predicate Log(f: Frame, n: nat, ds: seq<Decoding>)
    requires f.Frame? && n <= |f.blocks|
  {
    if n == 0 then ds == []
    else if f.blocks[n - 1].Raw? then Log(f, n - 1, ds)
    else
      && ds != [] && Log(f, n - 1, ds[..|ds| - 1])
      && ds[|ds| - 1].linked == f.info.linked && ds[|ds| - 1].output == Contents(f.blocks, n - 1)
  }

  /** How many of the first `n` blocks are compressed. */
  function PackedBefore(f: Frame, n: nat): nat
    requires f.Frame? && n <= |f.blocks|
  {
    if n == 0 then 0 else PackedBefore(f, n - 1) + if f.blocks[n - 1].Packed? then 1 else 0
  }

  /** There is one decoding for each compressed block, in order, and it came when the output was
      exactly the content of the blocks before. */
  lemma {:induction false} LogAt(f: Frame, n: nat, ds: seq<Decoding>, i: nat)
    requires f.Frame? && n <= |f.blocks| && Log(f, n, ds) && i < n && f.blocks[i].Packed?
    ensures |ds| == PackedBefore(f, n) && PackedBefore(f, i) < |ds|
    ensures var d := ds[PackedBefore(f, i)]; d.linked == f.info.linked && d.output == Contents(f.blocks, i)
    decreases n
  {
    if f.blocks[n - 1].Raw? {
      LogAt(f, n - 1, ds, i);
    } else if i == n - 1 {
      LogLength(f, n - 1, ds[..|ds| - 1]);
    } else {
      LogAt(f, n - 1, ds[..|ds| - 1], i);
    }
  }

  lemma {:induction false} LogLength(f: Frame, n: nat, ds: seq<Decoding>)
    requires f.Frame? && n <= |f.blocks| && Log(f, n, ds)
    ensures |ds| == PackedBefore(f, n)
    decreases n
  {
    if n > 0 {
      LogLength(f, n - 1, if f.blocks[n - 1].Raw? then ds else ds[..|ds| - 1]);
    }
  }

  lemma WordBound(b: seq<byte>)
    requires |b| == 4
    ensures LeNum(b) < TWO32
  {
    ReadLe(b);
    Powers();
  }

  /** The checksum word behind block `at`. */
  lemma CrcRead(x: Xxh, f: Frame, t: seq<byte>, at: nat, p: nat, word: nat)
    requires f.Frame? && Laid(x, f, t) && at < |f.blocks| && f.info.blockSums
    requires p == At(f, at) + 4 + |f.blocks[at].data| && p + 4 <= |t| && word == LeNum(t[p..p + 4])
    ensures word == x(f.blocks[at].data)
  {
    assert LaidAt(x, f, t, at);
  }

  /** A block as taken: its data and its checksum. */
  ghost predicate SelectedIs(x: Xxh, f: Frame, at: nat, selected: seq<byte>)
    requires f.Frame? && at < |f.blocks|
  {
    var data := f.blocks[at].data;
    && |selected| == |data| + CrcSize(f.info) && selected[..|data|] == data
    && (f.info.blockSums ==> LeNum(selected[|data|..]) == x(data))
  }

  lemma Cut(t: seq<byte>, p: nat, n: nat, m: nat, s: seq<byte>, q: nat, r: nat)
    requires n <= m && q == p + n && r == p + m && r <= |t| && s == t[p..r]
    ensures s[..n] == t[p..q] && s[n..] == t[q..r]
  {
  }

  lemma SelectedParts(x: Xxh, f: Frame, t: seq<byte>, at: nat, p: nat, n: nat, selected: seq<byte>)
    requires f.Frame? && Laid(x, f, t) && at < |f.blocks| && p == At(f, at) + 4
    requires n == |f.blocks[at].data| + CrcSize(f.info) && p + n <= |t| && selected == t[p..p + n]
    ensures SelectedIs(x, f, at, selected)
  {
    var k := |f.blocks[at].data|;
    assert LaidAt(x, f, t, at);
    Cut(t, p, k, n, selected, p + k, p + n);
  }

  /** Bytes taken at offset `k` of a stored block are its next bytes. */
  lemma RawBytes(x: Xxh, f: Frame, t: seq<byte>, at: nat, k: nat, p: nat, fed: seq<byte>)
    requires f.Frame? && Laid(x, f, t) && at < |f.blocks| && k + |fed| <= |f.blocks[at].data|
    requires p == At(f, at) + 4 + k && p + |fed| <= |t| && fed == t[p..p + |fed|]
    ensures f.blocks[at].data[..k] + fed == f.blocks[at].data[..k + |fed|]
  {
    var data, q := f.blocks[at].data, At(f, at) + 4;
    assert LaidAt(x, f, t, at);
    forall j | 0 <= j < |fed|
      ensures fed[j] == data[k + j]
    {
      assert t[q..q + |data|][k + j] == t[p..p + |fed|][j];
    }
  }

  /** A part of block `at` fits what the whole frame holds. */
  lemma PartFits(f: Frame, at: nat, n: nat)
    requires f.Frame? && at < |f.blocks| && n <= |f.blocks[at].Content()|
    ensures |Contents(f.blocks, at)| + n <= |FrameContent(f)|
  {
    ContentsGrow(f.blocks, at + 1, |f.blocks|);
  }

  lemma MoreRaw(x: Xxh, f: Frame, t: seq<byte>, at: nat, k: nat, p: nat, fed: seq<byte>, decoded: seq<byte>)
    requires f.Frame? && Laid(x, f, t) && at < |f.blocks| && f.blocks[at].Raw? && k + |fed| <= |f.blocks[at].data|
    requires p == At(f, at) + 4 + k && p + |fed| <= |t| && fed == t[p..p + |fed|]
    requires decoded == Contents(f.blocks, at) + f.blocks[at].data[..k]
    ensures f.blocks[at].data[..k] + fed == f.blocks[at].data[..k + |fed|]
    ensures decoded + fed == Contents(f.blocks, at) + f.blocks[at].data[..k + |fed|]
    ensures |decoded| + |fed| <= |FrameContent(f)|
  {
    var a, b := Contents(f.blocks, at), f.blocks[at].data[..k];
    RawBytes(x, f, t, at, k, p, fed);
    assert (a + b) + fed == a + (b + fed);
    PartFits(f, at, k + |fed|);
  }

  /** What a valid frame's compressed block promises to the decoder. */
  lemma PackedGood(f: Frame, at: nat)
    requires f.Frame? && GoodBlocks(f) && at < |f.blocks| && f.blocks[at].Packed?
    ensures 4 <= f.info.sizeId <= 7 && |f.blocks[at].content| <= BlockSize(f.info.sizeId)
    ensures Decodable(f.blocks[at].data, Window(f.info.linked, Contents(f.blocks, at)), f.blocks[at].content)
  {
    assert GoodBlock(f, at);
  }

  lemma LowPart(n: nat, word: nat)
    requires n < UNCOMPRESSED_FLAG && (word == n || word == n + UNCOMPRESSED_FLAG)
    ensures word % UNCOMPRESSED_FLAG == n
  {
  }

  lemma WordSize(f: Frame, at: nat, word: nat)
    requires f.Frame? && 4 <= f.info.sizeId <= 7 && at <= |f.blocks| && WordSays(f, at, word)
    ensures word % UNCOMPRESSED_FLAG <= BlockSize(f.info.sizeId)
  {
    LowPart(if at == |f.blocks| then 0 else |f.blocks[at].data|, word);
  }

  lemma RawSeen(f: Frame, at: nat, n: nat, decoded: seq<byte>)
    requires f.Frame? && at <= |f.blocks| && WordSays(f, at, n + UNCOMPRESSED_FLAG)
    ensures at < |f.blocks| && f.blocks[at].Raw? && |f.blocks[at].data| == n && f.blocks[at].data[..0] == []
    ensures decoded + f.blocks[at].data[..0] == decoded
  {
  }

  predicate Legal(blockSize: nat) {
    blockSize == 65536 || blockSize == 262144 || blockSize == 1048576 || blockSize == 4194304
  }

  class Dctx {
    const x: Xxh
    const header: array<byte>
    const h: History
    var stage: Stage
    var linked: bool
    var blockSums: bool
    var contentSum: bool
    var contentSize: nat
    var remaining: nat
    var maxBlockSize: nat
    var tmpIn: array<byte>
    var tmpInSize: nat
    var tmpInTarget: nat
    /** What went into the content's and the block's running checksum. */
    var xxh: seq<byte>
    var blockXxh: seq<byte>
    ghost var goal: Goal
    /** All that was decoded of this frame, and the decodings of its compressed blocks. */
    ghost var decoded: seq<byte>
    ghost var decodings: seq<Decoding>

    /** LZ4F_createDecompressionContext. */
    constructor (x: Xxh)
      ensures this.x == x && Valid() && stage == GetFrameHeader && remaining == 0 && !goal.sound && Lent() == {}
      ensures fresh(header) && fresh(h) && fresh(h.tmpOutBuffer) && fresh(tmpIn)
    {
      this.x := x;
      header := new byte[MAX_HEADER];
      h := new History();
      stage := GetFrameHeader;
      linked, blockSums, contentSum, contentSize, remaining := true, false, false, 0, 0;
      maxBlockSize, tmpInSize, tmpInTarget := 0, 0, 0;
      tmpIn := new byte[0];
      xxh, blockXxh, decoded, decodings := [], [], [], [];
      goal := Goal(false, Skippable(0, []), [], 0, 0, 0, [], Skippable(0, []), []);
    }

    // ---- the stream's progress ----

    ghost predicate Described()
      reads `goal, `linked, `blockSums, `contentSum, `contentSize, `maxBlockSize
    {
      && goal.frame.Frame? && 4 <= goal.frame.info.sizeId <= 7
      && linked == goal.frame.info.linked && blockSums == goal.frame.info.blockSums
      && contentSum == goal.frame.info.contentSum && contentSize == Promised(goal.frame.info)
      && maxBlockSize == BlockSize(goal.frame.info.sizeId)
    }

    /** Nothing is counted yet. */
    ghost predicate Fresh()
      reads `goal, `contentSize, `remaining
    {
      remaining == if contentSize != 0 then contentSize else goal.Idle()
    }

    ghost predicate Counted()
      reads `goal, `contentSum, `contentSize, `remaining, `xxh, `decoded
    {
      && (contentSize != 0 ==> remaining + |decoded| == contentSize)
      && (contentSize == 0 ==> remaining == goal.Idle())
      && (contentSum ==> xxh == decoded)
    }

    /** Some way into the frame, `off` bytes behind the start of the current block. */
    ghost predicate Behind(off: nat)
      reads `goal, `linked, `blockSums, `contentSum, `contentSize, `maxBlockSize, `remaining, `xxh, `decoded, `decodings
    {
      && Described() && Counted() && goal.at <= |goal.frame.blocks| && goal.pos == At(goal.frame, goal.at) + off
      && Log(goal.frame, goal.at, decodings)
    }

    ghost predicate Between(off: nat)
      reads `goal, `linked, `blockSums, `contentSum, `contentSize, `maxBlockSize, `remaining, `xxh, `decoded, `decodings
    {
      Behind(off) && decoded == Contents(goal.frame.blocks, goal.at)
    }

    ghost predicate Copying()
      reads this
    {
      && goal.frame.Frame? && goal.at < |goal.frame.blocks| && goal.frame.blocks[goal.at].Raw?
      && var data := goal.frame.blocks[goal.at].data;
      && tmpInTarget <= |data|
      && var k := |data| - tmpInTarget;
      && Behind(4 + k) && decoded == Contents(goal.frame.blocks, goal.at) + data[..k]
      && (blockSums ==> blockXxh == data[..k])
    }

    ghost predicate Checking()
      reads this, header
    {
      && goal.frame.Frame? && goal.at < |goal.frame.blocks| && goal.frame.blocks[goal.at].Raw?
      && var data := goal.frame.blocks[goal.at].data;
      && blockSums && blockXxh == data && tmpInSize < 4
      && Behind(4 + |data| + tmpInSize) && decoded == Contents(goal.frame.blocks, goal.at) + data
      && Buffered(header, 0, tmpInSize, goal.stream, At(goal.frame, goal.at) + 4 + |data|)
    }

    ghost predicate Compressed(size: nat)
      reads this
    {
      && goal.frame.Frame? && goal.at < |goal.frame.blocks| && goal.frame.blocks[goal.at].Packed?
      && Between(4 + size) && tmpInTarget == |goal.frame.blocks[goal.at].data| + CrcSize(goal.frame.info)
    }

    ghost predicate Ending(size: nat)
      reads this
    {
      goal.frame.Frame? && goal.at == |goal.frame.blocks| && Between(4 + size)
    }

    /** The context has understood the stream as far as it has taken it. */
    ghost predicate OnTrack()
      reads this, header, tmpIn
    {
      match stage
      case GetFrameHeader => goal.pos == 0 && remaining == goal.stale
      case StoreFrameHeader =>
        && remaining == goal.stale && goal.pos == tmpInSize < tmpInTarget
        && Buffered(header, 0, tmpInSize, goal.stream, 0)
        && (tmpInTarget == MIN_HEADER || (goal.frame.Frame? && tmpInTarget == HeaderSize(goal.frame.info)))
      case Init =>
        Described() && goal.pos == HeaderSize(goal.frame.info) && goal.at == 0 && Fresh()
      case GetBlockHeader => Between(0)
      case StoreBlockHeader =>
        tmpInSize < 4 && Between(tmpInSize)
        && Buffered(tmpIn, 0, tmpInSize, goal.stream, At(goal.frame, goal.at))
      case CopyDirect => Copying()
      case GetBlockChecksum => Checking()
      case GetCBlock => Compressed(0)
      case StoreCBlock =>
        tmpInSize < tmpInTarget && Compressed(tmpInSize)
        && Buffered(tmpIn, 0, tmpInSize, goal.stream, At(goal.frame, goal.at) + 4)
      case FlushOut => Between(0)
      case GetSuffix => Ending(0)
      case StoreSuffix =>
        contentSum && tmpInSize < 4 && remaining == 0 && goal.Clean() && Ending(tmpInSize)
        && Buffered(tmpIn, 0, tmpInSize, goal.stream, At(goal.frame, goal.at) + 4)
      case GetSFrameSize => goal.frame.Skippable? && goal.pos == 4 && remaining == goal.stale
      case StoreSFrameSize =>
        && goal.frame.Skippable? && 4 <= goal.pos == tmpInSize < tmpInTarget == 8 && remaining == goal.stale
        && Buffered(header, 4, tmpInSize, goal.stream, 0)
      case SkipSkippable =>
        goal.frame.Skippable? && goal.pos + tmpInTarget == 8 + |goal.frame.data| && remaining == goal.stale
    }

    /** All before src[ip] was taken, src[0] being at position `base` of the stream. */
    ghost predicate Reached(src: seq<byte>, ip: nat, base: nat)
      reads `goal, h`taken
    {
      ip <= |src| && goal.pos == base + ip && goal.tape == h.taken + src[..ip]
    }

    // ---- what was read, whatever the stream ----

    /** The settings are those of the frame read. */
    ghost predicate Told(f: Frame)
      reads `linked, `blockSums, `contentSum, `contentSize, `maxBlockSize
    {
      && f.Frame? && ValidInfo(f.info)
      && linked == f.info.linked && blockSums == f.info.blockSums && contentSum == f.info.contentSum
      && contentSize == Promised(f.info) && maxBlockSize == BlockSize(f.info.sizeId)
    }

    /** The count and the hash are of what was decoded. */
    ghost predicate Tallied()
      reads `contentSum, `contentSize, `xxh, `remaining, `decoded
    {
      && (contentSum ==> xxh == decoded)
      && (contentSize != 0 ==> (remaining + |decoded|) % TWO64 == contentSize)
    }

    /** The bytes taken are whole blocks of the frame read, and `extra`. */
    ghost predicate Section(g: Goal, extra: seq<byte>)
      reads `linked, `blockSums, `contentSum, `contentSize, `maxBlockSize, `xxh, `remaining, `decoded
    {
      && Told(g.seen) && Tallied() && Sofar(x, g.seen, g.tape, extra)
      && decoded == Contents(g.seen.blocks, |g.seen.blocks|)
    }

    /** The same, and a stored block of which `left` bytes have not been taken. */
    ghost predicate Stored(g: Goal, left: nat, extra: seq<byte>)
      reads `linked, `blockSums, `contentSum, `contentSize, `maxBlockSize, `xxh, `blockXxh, `remaining, `decoded
    {
      && Told(g.seen) && Tallied() && Sofar(x, g.seen, g.tape, RawSofar(g.part, left, extra))
      && decoded == Contents(g.seen.blocks, |g.seen.blocks|) + g.part
      && (blockSums ==> blockXxh == g.part) && |g.part| + left <= maxBlockSize
    }

    /** Only the header was taken. */
    ghost predicate Begun(g: Goal)
      reads `linked, `blockSums, `contentSum, `contentSize, `maxBlockSize, `remaining
    {
      && Told(g.seen) && g.seen.blocks == [] && g.tape == Header(x, g.seen.info)
      && (contentSize != 0 ==> remaining == contentSize)
    }

    /** The first bytes of a skippable frame. */
    ghost predicate Skips(g: Goal, extra: seq<byte>) {
      g.seen.Skippable? && g.seen.tag < 16 && g.tape == Le(4, MAGIC_SKIPPABLE_START + g.seen.tag) + extra
    }

    /** The first bytes of something. */
    ghost predicate Heads(g: Goal, bytes: seq<byte>, target: nat) {
      g.tape == bytes && (target > MIN_HEADER ==> |bytes| >= MIN_HEADER && target == LengthOf(bytes[4]))
    }

    /** All that was taken of this frame is what the context has understood. */
    ghost predicate Reads()
      reads this, header, tmpIn
    {
      match stage
      case GetFrameHeader => goal.tape == []
      case StoreFrameHeader => tmpInSize <= header.Length && Heads(goal, header[..tmpInSize], tmpInTarget)
      case Init => Begun(goal)
      case StoreBlockHeader => tmpInSize <= tmpIn.Length && Section(goal, tmpIn[..tmpInSize])
      case CopyDirect => Stored(goal, tmpInTarget, [])
      case GetBlockChecksum => blockSums && tmpInSize <= header.Length && Stored(goal, 0, header[..tmpInSize])
      case GetCBlock => Section(goal, Le(4, DataSize()))
      case StoreCBlock => tmpInSize <= tmpIn.Length && Section(goal, Le(4, DataSize()) + tmpIn[..tmpInSize])
      case GetSuffix => Section(goal, Le(4, 0))
      case StoreSuffix =>
        contentSum && remaining == 0 && tmpInSize <= tmpIn.Length && Section(goal, Le(4, 0) + tmpIn[..tmpInSize])
      case GetSFrameSize => Skips(goal, [])
      case StoreSFrameSize => 4 <= tmpInSize <= header.Length && Skips(goal, header[4..tmpInSize])
      case SkipSkippable =>
        && goal.seen.Skippable? && |goal.seen.data| + tmpInTarget < TWO32
        && Skips(goal, Le(4, |goal.seen.data| + tmpInTarget) + goal.seen.data)
      case _ => Section(goal, [])
    }

    /** The size of a block's checksum, and of the current block's data. */
    function SumSize(): nat
      reads `blockSums
    {
      if blockSums then CHECKSUM else 0
    }

    function DataSize(): nat
      reads `tmpInTarget, `blockSums
    {
      if tmpInTarget >= SumSize() then tmpInTarget - SumSize() else 0
    }

    /** What was taken is a whole frame that is accepted, and all of its content was decoded. */
    ghost predicate HasRead()
      reads `goal, `decoded
    {
      && Accepted(goal.seen) && goal.tape == Render(x, goal.seen)
      && (goal.seen.Frame? ==> decoded == FrameContent(goal.seen))
    }

    lemma SectionIs(g: Goal)
      requires Told(g.seen) && Tallied() && Sofar(x, g.seen, g.tape, []) && decoded == Contents(g.seen.blocks, |g.seen.blocks|)
      ensures Section(g, [])
    {
    }

    lemma SectionTold(g: Goal, extra: seq<byte>)
      requires Section(g, extra)
      ensures Told(g.seen) && g.seen.Frame? && contentSum == g.seen.info.contentSum
      ensures decoded == FrameContent(g.seen) && (contentSum ==> xxh == decoded)
    {
    }

    lemma SectionMore(g0: Goal, g1: Goal, extra: seq<byte>, bytes: seq<byte>)
      requires Section(g0, extra) && g1.seen == g0.seen && g1.tape == g0.tape + bytes
      ensures Section(g1, extra + bytes)
    {
      SofarMore(x, g0.seen, g0.tape, extra, bytes);
    }

    lemma StoredMore(g0: Goal, g1: Goal, extra: seq<byte>, bytes: seq<byte>)
      requires Stored(g0, 0, extra) && g1.seen == g0.seen && g1.part == g0.part && g1.tape == g0.tape + bytes
      ensures Stored(g1, 0, extra + bytes)
    {
      hide RawSofar;
      SofarMore(x, g0.seen, g0.tape, RawSofar(g0.part, 0, extra), bytes);
      RawExtra(g0.part, extra, bytes);
    }

    lemma SkipsMore(g0: Goal, g1: Goal, extra: seq<byte>, bytes: seq<byte>)
      requires Skips(g0, extra) && g1.tape == g0.tape + bytes
      requires g1.seen.Skippable? && g1.seen.tag == g0.seen.tag
      ensures Skips(g1, extra + bytes)
    {
      hide Le;
      Assoc(Le(4, MAGIC_SKIPPABLE_START + g0.seen.tag), extra, bytes);
    }

    ghost predicate Tracks()
      reads this, header, tmpIn
    {
      (goal.sound ==> OnTrack()) && Reads()
    }

    /** What is known of the stream once and for all. */
    ghost predicate Aimed()
      reads `goal
    {
      goal.sound ==> Opens(x, goal.frame, goal.stream)
    }

    ghost predicate Mapped()
      reads `goal
    {
      goal.sound ==>
        if goal.frame.Frame? then Laid(x, goal.frame, goal.stream) && SizeKept(goal.frame) && GoodBlocks(goal.frame)
        else Number(goal.stream, 4, |goal.frame.data|)
    }

    ghost predicate Feeds(src: seq<byte>, base: nat)
      reads `goal
    {
      goal.sound ==> Fed(src, goal.stream, base)
    }

    // ---- taking input ----

    /** Takes input into a buffer until it holds `want` bytes or the input is used up. */
    method Collect(buf: array<byte>, src: seq<byte>, ip: nat, want: nat, ghost base: nat, ghost lo: nat, ghost from: nat)
      returns (p: nat)
      requires Reached(src, ip, base) && tmpInSize <= want <= buf.Length && Feeds(src, base)
      requires goal.sound ==> from + tmpInSize == goal.pos && Buffered(buf, lo, tmpInSize, goal.stream, from)
      modifies buf, `tmpInSize, `goal
      ensures ip <= p <= |src| && tmpInSize == old(tmpInSize) + p - ip <= want
      ensures tmpInSize < want ==> p == |src|
      ensures forall j :: 0 <= j < old(tmpInSize) ==> buf[j] == old(buf[j])
      ensures goal == old(goal).Upto(h.taken, src, base, p) && goal.tape == old(goal.tape) + src[ip..p]
      ensures lo <= old(tmpInSize) ==> buf[lo..tmpInSize] == old(buf[lo..tmpInSize]) + src[ip..p]
      ensures goal.sound ==> from + tmpInSize == goal.pos && Buffered(buf, lo, tmpInSize, goal.stream, from)
    {
      hide Buffered, Fed;
      var n := Min(want - tmpInSize, |src| - ip);
      p := ip + n;
      var part := src[ip..p];
      ghost var was := if lo <= tmpInSize then buf[lo..tmpInSize] else [];
      if goal.sound {
        BufferedSlice(buf, lo, tmpInSize, goal.stream, from);
        FedSlice(src, goal.stream, base, ip, p, goal.pos, goal.pos + n);
      }
      CopyIn(buf, tmpInSize, part, lo);
      if goal.sound {
        SliceBuffered(buf, lo, tmpInSize, tmpInSize + n, was, part, goal.stream, from);
      }
      tmpInSize := tmpInSize + n;
      goal.Onward(h.taken, src, base, ip, p);
      goal := goal.Upto(h.taken, src, base, p);
    }

    static method CopyIn(buf: array<byte>, at: nat, part: seq<byte>, ghost lo: nat)
      requires at + |part| <= buf.Length
      modifies buf
      ensures forall j :: 0 <= j < at ==> buf[j] == old(buf[j])
      ensures lo <= at ==> buf[lo..at + |part|] == old(buf[lo..at]) + part
    {
      ghost var was := if lo <= at then buf[lo..at] else [];
      forall j | at <= j < at + |part| {
        buf[j] := part[j - at];
      }
      if lo <= at {
        BufferGrew(buf, lo, at, at + |part|, was, part);
      }
    }

    // ---- bounds, whatever the stream ----

    /** Between the header and the end mark, with nothing waiting to go out. */
    predicate InBlocks()
      reads `stage
    {
      || stage == GetBlockHeader || stage == StoreBlockHeader || stage == CopyDirect || stage == GetBlockChecksum
      || stage == GetCBlock || stage == StoreCBlock
    }

    /** Before the first block, and in skippable frames. */
    predicate Early()
      reads `stage
    {
      || stage == GetFrameHeader || stage == StoreFrameHeader || stage == Init
      || stage == GetSFrameSize || stage == StoreSFrameSize || stage == SkipSkippable
    }

    ghost predicate Sane()
      reads this
    {
      header.Length == MAX_HEADER && Tails(decodings)
    }

    ghost predicate Bounds()
      reads this, header
    {
      && Sane()
      && (!Early() ==> Legal(maxBlockSize) && tmpIn.Length >= maxBlockSize + 4)
      && match stage
         case StoreFrameHeader =>
           && MIN_HEADER <= tmpInTarget <= MAX_HEADER && tmpInSize < tmpInTarget
           && (tmpInTarget > MIN_HEADER ==> tmpInSize >= 4 && LeNum(header[..4]) == MAGICNUMBER)
         case Init => Legal(maxBlockSize)
         case StoreBlockHeader => tmpInSize < 4
         case GetBlockChecksum => tmpInSize < 4
         case StoreSuffix => tmpInSize < 4
         case CopyDirect => tmpInTarget <= maxBlockSize
         case GetCBlock => SumSize() < tmpInTarget <= maxBlockSize + SumSize()
         case StoreCBlock => SumSize() < tmpInTarget <= maxBlockSize + SumSize() && tmpInSize < tmpInTarget
         case StoreSFrameSize => tmpInTarget == 8 && 4 <= tmpInSize < 8
         case _ => true
    }

    /** Completes a 4-byte number in a buffer, if the input reaches. */
    method CollectWord(buf: array<byte>, src: seq<byte>, ip: nat, ghost base: nat, ghost from: nat) returns (p: nat, word: nat)
      requires Reached(src, ip, base) && tmpInSize < 4 <= buf.Length && Feeds(src, base)
      requires goal.sound ==> from + tmpInSize == goal.pos && Buffered(buf, 0, tmpInSize, goal.stream, from)
      modifies buf, `tmpInSize, `goal
      ensures ip <= p <= |src| && tmpInSize == old(tmpInSize) + p - ip <= 4
      ensures goal == old(goal).Upto(h.taken, src, base, p) && goal.tape == old(goal.tape) + src[ip..p]
      ensures buf[..tmpInSize] == old(buf[..tmpInSize]) + src[ip..p]
      ensures tmpInSize < 4 ==> p == |src|
      ensures goal.sound ==> from + tmpInSize == goal.pos && Buffered(buf, 0, tmpInSize, goal.stream, from)
      ensures tmpInSize == 4 ==> word < TWO32 && buf[..4] == Le(4, word)
      ensures tmpInSize == 4 && goal.sound ==> from + 4 <= |goal.stream| && word == LeNum(goal.stream[from..from + 4])
    {
      hide Le, LeNum, Power;
      p := Collect(buf, src, ip, 4, base, 0, from);
      word := 0;
      if tmpInSize == 4 {
        word := LeNum(buf[..4]);
        WordBound(buf[..4]);
        ReadLe(buf[..4]);
        if goal.sound {
          BufferedSlice(buf, 0, 4, goal.stream, from);
        }
      }
    }

    /** Reads a 4-byte number off the input. */
    method TakeWord(src: seq<byte>, ip: nat, ghost base: nat, ghost from: nat) returns (p: nat, word: nat)
      requires ip + 4 <= |src| && Reached(src, ip, base) && base + ip == from && Feeds(src, base)
      modifies `goal
      ensures p == ip + 4 && goal == old(goal).Upto(h.taken, src, base, p) && word < TWO32
      ensures goal.tape == old(goal.tape) + Le(4, word)
      ensures goal.sound ==> from + 4 <= |goal.stream| && word == LeNum(goal.stream[from..from + 4])
    {
      p := ip + 4;
      word := LeNum(src[ip..p]);
      WordBound(src[ip..p]);
      ReadLe(src[ip..p]);
      if goal.sound {
        FedSlice(src, goal.stream, base, ip, p, from, from + 4);
      }
      goal.Onward(h.taken, src, base, ip, p);
      goal := goal.Upto(h.taken, src, base, p);
    }

    // ---- the header ----

    /** What the header read sets. */
    method SetInfo(info: Info)
      requires 4 <= info.sizeId <= 7
      modifies `stage, `linked, `blockSums, `contentSum, `contentSize, `remaining, `maxBlockSize, `goal
      ensures stage == Init && Legal(maxBlockSize) && maxBlockSize == BlockSize(info.sizeId)
      ensures linked == info.linked && blockSums == info.blockSums && contentSum == info.contentSum
      ensures contentSize == Promised(info)
      ensures remaining == if info.size.Some? then info.size.value else old(remaining)
      ensures goal == old(goal).(at := 0, seen := Frame(info, []))
    {
      linked, blockSums, contentSum := info.linked, info.blockSums, info.contentSum;
      maxBlockSize := BlockSize(info.sizeId);
      contentSize := 0;
      if info.size.Some? {
        contentSize := info.size.value;
        remaining := contentSize;
      }
      stage := Init;
      goal := goal.(at := 0, seen := Frame(info, []));
    }

    ghost predicate AtHeader(src: seq<byte>, fromHeader: bool)
      reads `goal, `remaining
    {
      && src <= goal.stream && remaining == goal.stale
      && goal.pos == (if fromHeader then |src| else 0)
      && (fromHeader && |src| != MIN_HEADER ==> goal.frame.Frame? && |src| == HeaderSize(goal.frame.info))
    }

    /** Either nothing was taken yet, or all of `src`. */
    ghost predicate HeldBack(src: seq<byte>, fromHeader: bool)
      requires |src| >= MIN_HEADER
      reads `goal
    {
      if fromHeader then goal.tape == src && (|src| == MIN_HEADER || |src| == LengthOf(src[4])) else goal.tape == []
    }

    /** LZ4F_decodeHeader: how many bytes were taken, or none on an error. */
    method DecodeHeader(src: seq<byte>, fromHeader: bool) returns (n: Option<nat>)
      requires |src| >= MIN_HEADER && Sane()
      requires fromHeader ==> |src| <= MAX_HEADER && src == header[..|src|] && (|src| == MIN_HEADER || LeNum(src[..4]) == MAGICNUMBER)
      requires goal.sound ==> Opens(x, goal.frame, goal.stream) && AtHeader(src, fromHeader)
      requires HeldBack(src, fromHeader)
      modifies `stage, `linked, `blockSums, `contentSum, `contentSize, `remaining, `maxBlockSize, `tmpInSize, `tmpInTarget,
               `goal, header
      ensures n.Some? ==> Bounds() && 4 <= n.value <= |src| && Early() && stage != SkipSkippable
      ensures goal.Aim() == old(goal.Aim())
      ensures n.Some? ==> goal.pos == old(goal.pos) + if fromHeader then 0 else n.value
      ensures n.Some? ==> Reads() && goal.tape == if fromHeader then src else src[..n.value]
      ensures goal.sound ==> n.Some? && OnTrack()
    {
      if goal.sound {
        HeadRead(x, goal.frame, goal.stream, src);
      }
      var r := ReadHeader(x, src);
      HeaderFound(x, src);
      n := Apply(src, fromHeader, r);
    }

    method Apply(src: seq<byte>, fromHeader: bool, r: Reading) returns (n: Option<nat>)
      requires |src| >= MIN_HEADER && Sane() && Found(x, src, r) && HeldBack(src, fromHeader)
      requires fromHeader ==> |src| <= MAX_HEADER && src == header[..|src|] && (r.Skip? ==> |src| == MIN_HEADER)
      requires goal.sound ==> AtHeader(src, fromHeader) && r == Expected(goal.frame, src)
      modifies `stage, `linked, `blockSums, `contentSum, `contentSize, `remaining, `maxBlockSize, `tmpInSize, `tmpInTarget,
               `goal, header
      ensures n.Some? ==> Bounds() && 4 <= n.value <= |src| && Early() && stage != SkipSkippable
      ensures goal.Aim() == old(goal.Aim())
      ensures n.Some? ==> goal.pos == old(goal.pos) + if fromHeader then 0 else n.value
      ensures n.Some? ==> Reads() && goal.tape == if fromHeader then src else src[..n.value]
      ensures goal.sound ==> n.Some? && OnTrack()
    {
      hide Opens, Laid, GoodBlocks, SizeKept, Tails, Log, Contents, Told, Tallied, Sofar, RawSofar, RenderBlock,
           Render, Accepted, Le;
      linked, blockSums, contentSum, contentSize := true, false, false, 0;
      match r
      case Bad =>
        return None;
      case Skip =>
        n := StartSkipping(src, fromHeader);
      case Short(target) =>
        n := AwaitHeader(src, fromHeader, target);
      case Good(info, size) =>
        n := AcceptHeader(src, fromHeader, info, size);
    }

    method AcceptHeader(ghost src: seq<byte>, fromHeader: bool, info: Info, size: nat) returns (n: Option<nat>)
      requires |src| >= MIN_HEADER && Sane() && Found(x, src, Good(info, size)) && HeldBack(src, fromHeader)
      requires goal.sound ==> goal.frame.Frame? && info == goal.frame.info
      requires goal.sound ==> remaining == goal.stale && size == HeaderSize(info) && goal.pos == if fromHeader then size else 0
      modifies `stage, `linked, `blockSums, `contentSum, `contentSize, `remaining, `maxBlockSize, `goal
      ensures n == Some(size) && size <= |src| && stage == Init && Bounds()
      ensures goal.Aim() == old(goal.Aim())
      ensures goal.pos == old(goal.pos) + if fromHeader then 0 else size
      ensures Reads() && goal.tape == if fromHeader then src else src[..size]
      ensures goal.sound ==> OnTrack()
    {
      hide Section, Stored, Tails, Copying, Checking, Compressed, Ending, Between, Skips, Heads;
      SetInfo(info);
      n := Some(size);
      if !fromHeader {
        goal := goal.(pos := goal.pos + size, tape := src[..size]);
      } else {
        assert src[..size] == src;
      }
    }

    method StartSkipping(src: seq<byte>, fromHeader: bool) returns (n: Option<nat>)
      requires |src| >= MIN_HEADER && Sane() && (fromHeader ==> |src| == MIN_HEADER)
      requires fromHeader ==> src == header[..|src|]
      requires Found(x, src, Skip) && HeldBack(src, fromHeader)
      requires goal.sound ==> src <= goal.stream && remaining == goal.stale
      requires goal.sound ==> goal.frame.Skippable? && goal.pos == if fromHeader then |src| else 0
      modifies `stage, `tmpInSize, `tmpInTarget, `goal
      ensures n.Some? && 4 <= n.value <= |src| && Bounds() && (stage == GetSFrameSize || stage == StoreSFrameSize)
      ensures goal.Aim() == old(goal.Aim())
      ensures goal.pos == old(goal.pos) + if fromHeader then 0 else n.value
      ensures Reads() && goal.tape == if fromHeader then src else src[..n.value]
      ensures goal.sound ==> OnTrack()
    {
      hide Section, Stored, Tails, Copying, Checking, Compressed, Ending, Between, Begun, Heads, Described;
      ghost var tag := SkipFound(src[..4]);
      goal := goal.(seen := Skippable(tag, []));
      if fromHeader {
        tmpInSize, tmpInTarget, stage := |src|, 8, StoreSFrameSize;
        n := Some(|src|);
        assert src == src[..4] + header[4..|src|];
      } else {
        stage := GetSFrameSize;
        n := Some(4);
        goal := goal.(pos := goal.pos + 4, tape := src[..4]);
        assert src[..4] == src[..4] + [];
      }
    }

    method AwaitHeader(src: seq<byte>, fromHeader: bool, target: nat) returns (n: Option<nat>)
      requires MIN_HEADER <= |src| < target && Sane() && (fromHeader ==> |src| <= MAX_HEADER) && (fromHeader ==> src == header[..|src|])
      requires Found(x, src, Short(target)) && HeldBack(src, fromHeader)
      requires goal.sound ==> src <= goal.stream && remaining == goal.stale
      requires goal.sound ==> goal.frame.Frame? && target == HeaderSize(goal.frame.info)
      requires goal.sound ==> goal.pos == if fromHeader then |src| else 0
      modifies `stage, `tmpInSize, `tmpInTarget, `goal, header
      ensures n == Some(|src|) && stage == StoreFrameHeader && Bounds()
      ensures goal.Aim() == old(goal.Aim())
      ensures goal.pos == old(goal.pos) + if fromHeader then 0 else |src|
      ensures Reads() && goal.tape == src
      ensures goal.sound ==> OnTrack()
    {
      hide Section, Stored, Tails, Copying, Checking, Compressed, Ending, Between, Begun, Skips, Described;
      if !fromHeader {
        forall j | 0 <= j < |src| {
          header[j] := src[j];
        }
        goal := goal.(pos := goal.pos + |src|, tape := src);
        assert header[..|src|] == src;
      }
      assert header[..4] == src[..4];
      tmpInSize, tmpInTarget, stage := |src|, target, StoreFrameHeader;
      n := Some(|src|);
    }
  
    // ---- stages that only take input ----

    /** `src[ip..]` is still to be taken. */
    ghost predicate Taking(src: seq<byte>, ip: nat, base: nat)
      reads this, header, tmpIn, h`taken
    {
      Bounds() && Reached(src, ip, base) && Feeds(src, base) && Tracks()
    }

    method DoGetFrameHeader(src: seq<byte>, ip: nat, ghost base: nat) returns (p: nat, next: Next)
      requires stage == GetFrameHeader && Taking(src, ip, base) && Aimed()
      modifies `stage, `linked, `blockSums, `contentSum, `contentSize, `remaining, `maxBlockSize, `tmpInSize, `tmpInTarget,
               `goal, header
      ensures next != Fail ==> ip <= p && Taking(src, p, base) && Early() && stage != SkipSkippable
      ensures goal.Aim() == old(goal.Aim()) && (goal.sound ==> next != Fail)
      ensures next.Stop? ==> ip == p == |src| && next.hint != 0
      ensures next.Again? ==> p > ip || Rank(stage) < Rank(old(stage))
    {
      hide Opens, Laid, GoodBlocks, SizeKept, Tails, Log, Contents, Told, Tallied, Sofar, RawSofar, RenderBlock,
           Render, Accepted, Le;
      if |src| - ip >= MAX_HEADER {
        if goal.sound {
          assert src[ip..] <= goal.stream;
        }
        assert src[ip..] == src;
        var hSize := DecodeHeader(src[ip..], false);
        if hSize.None? {
          return ip, Fail;
        }
        return ip + hSize.value, Again;
      }
      assert header[..0] == [];
      tmpInSize := 0;
      if ip == |src| {
        return ip, Stop(MIN_HEADER);
      }
      tmpInTarget, stage := MIN_HEADER, StoreFrameHeader;
      return ip, Again;
    }

    method DoStoreFrameHeader(src: seq<byte>, ip: nat, ghost base: nat) returns (p: nat, next: Next)
      requires stage == StoreFrameHeader && Taking(src, ip, base) && Aimed()
      modifies `stage, `linked, `blockSums, `contentSum, `contentSize, `remaining, `maxBlockSize, `tmpInSize, `tmpInTarget,
               `goal, header
      ensures next != Fail ==> ip <= p && Taking(src, p, base) && Early() && stage != SkipSkippable
      ensures goal.Aim() == old(goal.Aim()) && (goal.sound ==> next != Fail)
      ensures next.Stop? ==> p == |src| && next.hint != 0
      ensures next.Again? ==> p > ip || Rank(stage) < Rank(old(stage))
    {
      hide Opens, Laid, GoodBlocks, SizeKept, Tails, Log, Contents, Told, Tallied, Sofar, RawSofar, RenderBlock,
           Render, Accepted, Le, LengthOf, Header, LeNum;
      ghost var magic := header[..4];
      p := Collect(header, src, ip, tmpInTarget, base, 0, 0);
      assert tmpInTarget > MIN_HEADER ==> header[..4] == magic;
      if tmpInSize < tmpInTarget {
        return p, Stop(tmpInTarget - tmpInSize + BLOCK_HEADER);
      }
      if goal.sound {
        BufferedSlice(header, 0, tmpInSize, goal.stream, 0);
      }
      assert header[..tmpInTarget][..4] == header[..4];
      var hSize := DecodeHeader(header[..tmpInTarget], true);
      next := if hSize.None? then Fail else Again;
    }
  
    /** What a size word of the stream says. */
    ghost predicate HeaderSeen(word: nat)
      reads this
    {
      && goal.frame.Frame? && Between(4)
      && WordSays(goal.frame, goal.at, word)
    }

    ghost predicate Roomy()
      reads this
    {
      Sane() && Legal(maxBlockSize) && tmpIn.Length >= maxBlockSize + 4
    }

    /** A block's size word, or the end mark, has been read. */
    method ReadBlockHeader(word: nat, stopHere: bool) returns (next: Next)
      requires Roomy() && word < TWO32 && (goal.sound ==> HeaderSeen(word)) && Section(goal, Le(4, word))
      modifies `stage, `tmpInTarget, `blockXxh, `goal
      ensures goal == old(goal).(part := goal.part)
      ensures next != Fail ==> Bounds() && (stage == GetSuffix || stage == CopyDirect || stage == GetCBlock)
      ensures next != Fail ==> Tracks()
      ensures goal.sound ==> next != Fail
      ensures next.Stop? ==> next.hint != 0 && stopHere && stage == GetCBlock
    {
      hide Section, OnTrack, Reads, Contents, Log, Tails;
      SplitWord(word);
      if goal.sound {
        WordSize(goal.frame, goal.at, word);
      }
      var nextCBlockSize := word % UNCOMPRESSED_FLAG;
      if word == 0 {
        EndBlocks();
        return Again;
      }
      if nextCBlockSize > maxBlockSize {
        return Fail;
      }
      if word / UNCOMPRESSED_FLAG == 1 {
        BeginRaw(nextCBlockSize);
        return Again;
      }
      BeginPacked(nextCBlockSize);
      next := if stopHere then Stop(BLOCK_HEADER + tmpInTarget) else Again;
    }

    method EndBlocks()
      requires Roomy() && (goal.sound ==> HeaderSeen(0)) && Section(goal, Le(4, 0))
      modifies `stage
      ensures stage == GetSuffix && Bounds() && Tracks()
    {
      stage := GetSuffix;
    }

    method BeginRaw(n: nat)
      requires Roomy() && n <= maxBlockSize && (goal.sound ==> HeaderSeen(n + UNCOMPRESSED_FLAG))
      requires Section(goal, Le(4, n + UNCOMPRESSED_FLAG))
      modifies `stage, `tmpInTarget, `blockXxh, `goal
      ensures goal == old(goal).(part := [])
      ensures stage == CopyDirect && Bounds() && Tracks()
    {
      hide Section, Stored, Le, Contents, Log, Tails, OnTrack, Reads, WordSays, At;
      if goal.sound {
        RawSeen(goal.frame, goal.at, n, decoded);
      }
      ghost var g := goal.(part := []);
      blockXxh := [];
      StoredBegins(g, n);
      tmpInTarget, stage, goal := n, CopyDirect, g;
      CopyTracks();
    }

    lemma CopyTracks()
      requires stage == CopyDirect && (goal.sound ==> Copying()) && Stored(goal, tmpInTarget, [])
      ensures Tracks()
    {
      hide Copying, Stored;
    }

    lemma StoredBegins(g: Goal, n: nat)
      requires Section(goal, Le(4, n + UNCOMPRESSED_FLAG)) && g == goal.(part := [])
      requires n <= maxBlockSize && blockXxh == []
      ensures Stored(g, n, [])
    {
      hide Sofar, RawSofar, Le, Contents;
      RawStart(n);
    }

    method BeginPacked(n: nat)
      requires Roomy() && 0 < n <= maxBlockSize && (goal.sound ==> HeaderSeen(n)) && Section(goal, Le(4, n))
      modifies `stage, `tmpInTarget
      ensures stage == GetCBlock && Bounds() && Tracks() && tmpInTarget == n + if blockSums then CHECKSUM else 0
    {
      hide Section, Le, Contents, Log, Tails;
      tmpInTarget, stage := n + (if blockSums then CHECKSUM else 0), GetCBlock;
    }
  
    method TakeBlockHeader(src: seq<byte>, ip: nat, ghost base: nat) returns (p: nat, word: nat)
      requires ip + 4 <= |src| && Reached(src, ip, base) && Feeds(src, base) && Mapped()
      requires goal.sound ==> goal.frame.Frame? && Between(0)
      requires Section(goal, [])
      modifies `goal
      ensures p == ip + 4 && word < TWO32 && goal == old(goal).Upto(h.taken, src, base, p)
      ensures Section(goal, Le(4, word))
      ensures goal.sound ==> HeaderSeen(word)
    {
      hide Section, Contents, Log;
      ghost var from, g := base + ip, goal;
      p, word := TakeWord(src, ip, base, from);
      SectionMore(g, goal, [], Le(4, word));
      assert [] + Le(4, word) == Le(4, word);
      if goal.sound {
        WordRead(x, goal.frame, goal.stream, goal.at, from, word);
      }
    }

    method DoGetBlockHeader(src: seq<byte>, ip: nat, ghost base: nat, outFull: bool) returns (p: nat, next: Next)
      requires stage == GetBlockHeader && Taking(src, ip, base) && Mapped()
      modifies `stage, `tmpInSize, `tmpInTarget, `blockXxh, `goal
      ensures next != Fail ==> ip <= p && Taking(src, p, base)
      ensures next != Fail ==> InBlocks() || stage == GetSuffix
      ensures goal.Aim() == old(goal.Aim()) && (goal.sound ==> next != Fail)
      ensures next.Stop? ==> next.hint != 0 && (outFull || p == |src|) && stage != GetSuffix
      ensures next.Again? ==> p > ip || Rank(stage) < Rank(old(stage))
    {
      hide Opens, Laid, GoodBlocks, SizeKept, Tails, Log, Contents, Told, Tallied, Sofar, RawSofar, RenderBlock,
           Render, Accepted, Le;
      if |src| - ip < BLOCK_HEADER {
        tmpInSize, stage := 0, StoreBlockHeader;
        return ip, Again;
      }
      var word: nat;
      p, word := TakeBlockHeader(src, ip, base);
      next := ReadBlockHeader(word, outFull || p == |src|);
    }

    method DoStoreBlockHeader(src: seq<byte>, ip: nat, ghost base: nat, outFull: bool) returns (p: nat, next: Next)
      requires stage == StoreBlockHeader && Taking(src, ip, base) && Mapped()
      modifies `stage, `tmpInSize, `tmpInTarget, `blockXxh, `goal, tmpIn
      ensures next != Fail ==> ip <= p && Taking(src, p, base)
      ensures next != Fail ==> InBlocks() || stage == GetSuffix
      ensures goal.Aim() == old(goal.Aim()) && (goal.sound ==> next != Fail)
      ensures next.Stop? ==> next.hint != 0 && (outFull || p == |src|) && stage != GetSuffix
      ensures next.Again? ==> p > ip
    {
      hide Opens, Laid, GoodBlocks, SizeKept, Tails, Log, Contents, Told, Tallied, Sofar, RawSofar, RenderBlock,
           Render, Accepted, Le;
      ghost var from := if goal.sound then At(goal.frame, goal.at) else 0;
      ghost var g, bytes := goal, tmpIn[..tmpInSize];
      var word: nat;
      p, word := CollectWord(tmpIn, src, ip, base, from);
      SectionMore(g, goal, bytes, src[ip..p]);
      if tmpInSize < BLOCK_HEADER {
        return p, Stop(BLOCK_HEADER - tmpInSize);
      }
      if goal.sound {
        WordRead(x, goal.frame, goal.stream, goal.at, from, word);
      }
      next := ReadBlockHeader(word, outFull || p == |src|);
    }
  
    // ---- a stored block's checksum ----

    method DoGetBlockChecksum(src: seq<byte>, ip: nat, ghost base: nat) returns (p: nat, next: Next)
      requires stage == GetBlockChecksum && Taking(src, ip, base) && Mapped()
      modifies `stage, `tmpInSize, `goal, header
      ensures next != Fail ==> ip <= p && Taking(src, p, base) && InBlocks()
      ensures goal.Aim() == old(goal.Aim()) && (goal.sound ==> next != Fail)
      ensures next.Stop? ==> next.hint != 0 && p == |src|
      ensures next.Again? ==> p > ip
    {
      hide Opens, Laid, GoodBlocks, SizeKept, Tails, Log, Contents, Told, Tallied, Sofar, RawSofar, RenderBlock,
           Render, Accepted, Le;
      hide Stored;
      ghost var from := if goal.sound then goal.pos - tmpInSize else goal.pos;
      var word, got;
      p, got, word := ChecksumWord(src, ip, base, from);
      if !got {
        return p, Stop(1);
      }
      next := CompareChecksum(word, from);
    }

    method ChecksumWord(src: seq<byte>, ip: nat, ghost base: nat, ghost from: nat) returns (p: nat, got: bool, word: nat)
      requires Reached(src, ip, base) && tmpInSize < 4 <= header.Length && Feeds(src, base)
      requires Stored(goal, 0, header[..tmpInSize])
      requires goal.sound ==> from + tmpInSize == goal.pos && Buffered(header, 0, tmpInSize, goal.stream, from)
      requires !goal.sound ==> from == goal.pos
      modifies header, `tmpInSize, `goal
      ensures ip <= p <= |src| && goal == old(goal).Upto(h.taken, src, base, p) && (got ==> p > ip)
      ensures got ==> Stored(goal, 0, Le(4, word))
      ensures !got ==> tmpInSize <= header.Length && Stored(goal, 0, header[..tmpInSize])
      ensures !got ==> p == |src| && tmpInSize == old(tmpInSize) + p - ip < 4
      ensures !got && goal.sound ==> from + tmpInSize == goal.pos && Buffered(header, 0, tmpInSize, goal.stream, from)
      ensures got && goal.sound ==> goal.pos == from + 4 <= |goal.stream| && word == LeNum(goal.stream[from..from + 4])
    {
      hide Stored;
      ghost var g, bytes := goal, header[..tmpInSize];
      if |src| - ip >= CHECKSUM && tmpInSize == 0 {
        p, word := TakeWord(src, ip, base, from);
        got := true;
        StoredMore(g, goal, bytes, Le(4, word));
        assert bytes + Le(4, word) == Le(4, word);
      } else {
        p, word := CollectWord(header, src, ip, base, from);
        got := tmpInSize == 4;
        StoredMore(g, goal, bytes, src[ip..p]);
      }
    }

    method CompareChecksum(word: nat, ghost from: nat) returns (next: Next)
      requires Roomy() && Mapped() && blockSums && Stored(goal, 0, Le(4, word))
      requires goal.sound ==> goal.frame.Frame? && goal.at < |goal.frame.blocks| && goal.frame.blocks[goal.at].Raw?
      requires goal.sound ==> blockSums && blockXxh == goal.frame.blocks[goal.at].data
      requires goal.sound ==> Behind(8 + |goal.frame.blocks[goal.at].data|) && goal.pos == from + 4 <= |goal.stream|
      requires goal.sound ==> decoded == Contents(goal.frame.blocks, goal.at) + goal.frame.blocks[goal.at].data
      requires goal.sound ==> word == LeNum(goal.stream[from..from + 4])
      modifies `stage, `goal
      ensures next == if word == x(blockXxh) then Again else Fail
      ensures goal.sound ==> next != Fail
      ensures goal.Aim() == old(goal.Aim()) && goal.pos == old(goal.pos) && goal.tape == old(goal.tape)
      ensures next != Fail ==> stage == GetBlockHeader && Bounds() && Tracks()
    {
      if goal.sound {
        CrcRead(x, goal.frame, goal.stream, goal.at, from, word);
      }
      if word != x(blockXxh) {
        return Fail;
      }
      NextBlock();
      next := Again;
    }

    /** A block has been dealt with. */
    method NextBlock()
      requires Roomy() && (goal.sound ==> goal.frame.Frame? && goal.at < |goal.frame.blocks|)
      requires goal.sound ==> goal.frame.blocks[goal.at].Raw?
      requires goal.sound ==> Behind(4 + |goal.frame.blocks[goal.at].data| + CrcSize(goal.frame.info))
      requires goal.sound ==> decoded == Contents(goal.frame.blocks, goal.at) + goal.frame.blocks[goal.at].Content()
      requires Stored(goal, 0, Checksum(x, blockSums, goal.part))
      modifies `stage, `goal
      ensures stage == GetBlockHeader && Bounds() && Tracks() && goal.Aim() == old(goal.Aim()) && goal.pos == old(goal.pos)
      ensures goal.tape == old(goal.tape)
    {
      hide Section, Stored, Checksum, Told, Tails;
      StoredFrame();
      ghost var g := goal.(at := goal.at + 1, seen := goal.seen.(blocks := goal.seen.blocks + [Raw(goal.part)]));
      StoredBlock(g);
      stage, goal := GetBlockHeader, g;
    }

    lemma StoredFrame()
      requires Stored(goal, 0, Checksum(x, blockSums, goal.part))
      ensures goal.seen.Frame?
    {
    }

    /** A stored block is complete. */
    lemma StoredBlock(g: Goal)
      requires Stored(goal, 0, Checksum(x, blockSums, goal.part)) && goal.seen.Frame?
      requires g.tape == goal.tape && g.seen == goal.seen.(blocks := goal.seen.blocks + [Raw(goal.part)])
      ensures Section(g, [])
    {
      hide RawSofar, RenderBlock, Sofar;
      RawBlock(x, goal.seen.info, goal.part);
      SofarBlock(x, goal.seen, goal.tape, Raw(goal.part));
    }
  
    // ---- a compressed block ----

    /** All of the current block, its checksum included, was taken and is in `selected`. */
    ghost predicate Selected(selected: seq<byte>, from: nat)
      reads this
    {
      && Compressed(tmpInTarget) && from == At(goal.frame, goal.at) + 4
      && from <= goal.pos <= |goal.stream| && selected == goal.stream[from..goal.pos]
    }

    method DoGetCBlock(src: seq<byte>, ip: nat, ghost base: nat) returns (p: nat, got: bool, selected: seq<byte>, ghost from: nat)
      requires stage == GetCBlock && Taking(src, ip, base)
      modifies `stage, `tmpInSize, `goal
      ensures ip <= p <= |src| && goal == old(goal).Upto(h.taken, src, base, p) && Roomy()
      ensures !got ==> p == ip && stage == StoreCBlock && Taking(src, p, base)
      ensures got ==> |selected| == tmpInTarget && (goal.sound ==> Selected(selected, from))
      ensures got ==> Section(goal, Le(4, DataSize()) + selected)
    {
      hide Opens, Laid, GoodBlocks, SizeKept, Tails, Log, Contents, Told, Tallied, Sofar, RawSofar, RenderBlock,
           Render, Accepted, Le;
      hide Section;
      from := base + ip;
      if |src| - ip < tmpInTarget {
        assert Le(4, DataSize()) + tmpIn[..0] == Le(4, DataSize());
        tmpInSize, stage := 0, StoreCBlock;
        return ip, false, [], from;
      }
      p, got, selected := ip + tmpInTarget, true, src[ip..ip + tmpInTarget];
      if goal.sound {
        FedSlice(src, goal.stream, base, ip, p, from, base + p);
      }
      goal.Onward(h.taken, src, base, ip, p);
      SectionMore(goal, goal.Upto(h.taken, src, base, p), Le(4, DataSize()), selected);
      goal := goal.Upto(h.taken, src, base, p);
    }

    method DoStoreCBlock(src: seq<byte>, ip: nat, ghost base: nat) returns (p: nat, got: bool, selected: seq<byte>, ghost from: nat)
      requires stage == StoreCBlock && Taking(src, ip, base)
      modifies `tmpInSize, `goal, tmpIn
      ensures ip <= p <= |src| && goal == old(goal).Upto(h.taken, src, base, p) && Roomy()
      ensures !got ==> p == |src| && tmpInSize < tmpInTarget && Taking(src, p, base)
      ensures got ==> |selected| == tmpInTarget && (goal.sound ==> Selected(selected, from))
      ensures got ==> Section(goal, Le(4, DataSize()) + selected)
    {
      hide Opens, Laid, GoodBlocks, SizeKept, Tails, Log, Contents, Told, Tallied, Sofar, RawSofar, RenderBlock,
           Render, Accepted, Le;
      hide Section;
      from := if goal.sound then At(goal.frame, goal.at) + 4 else 0;
      ghost var g, size, bytes := goal, Le(4, DataSize()), tmpIn[..tmpInSize];
      p := Collect(tmpIn, src, ip, tmpInTarget, base, 0, from);
      SectionMore(g, goal, size + bytes, src[ip..p]);
      Assoc(size, bytes, src[ip..p]);
      if tmpInSize < tmpInTarget {
        return p, false, [], from;
      }
      got, selected := true, tmpIn[..tmpInTarget];
      if goal.sound {
        BufferedSlice(tmpIn, 0, tmpInTarget, goal.stream, from);
      }
    }

    /** The block's checksum is compared and cut off. */
    method CheckCBlock(selected: seq<byte>) returns (ok: bool, data: seq<byte>)
      requires |selected| == tmpInTarget && (blockSums ==> |selected| >= CHECKSUM)
      modifies `tmpInTarget
      ensures data == selected[..|selected| - if blockSums then CHECKSUM else 0] && tmpInTarget == |data|
      ensures ok <==> !blockSums || LeNum(selected[|data|..]) == x(data)
    {
      tmpInTarget := tmpInTarget - if blockSums then CHECKSUM else 0;
      data := selected[..tmpInTarget];
      ok := !blockSums || LeNum(selected[tmpInTarget..]) == x(data);
    }

    lemma SelectedGood(selected: seq<byte>, from: nat)
      requires goal.sound && Mapped() && Selected(selected, from)
      ensures SelectedIs(x, goal.frame, goal.at, selected)
    {
      SelectedParts(x, goal.frame, goal.stream, goal.at, from, tmpInTarget, selected);
    }
  
    // ---- the end of the frame ----

    /** What LZ4F_resetDecompressionContext does. */
    method Reset()
      modifies `stage, h`dict, h`dictSize
      ensures stage == GetFrameHeader && h.Cleared()
    {
      stage := GetFrameHeader;
      h.Reset();
    }

    /** All of the frame was taken, and its content decoded. */
    ghost predicate Complete()
      reads this
    {
      && stage == GetFrameHeader && goal.Clean() && remaining == (if goal.frame.Skippable? then goal.stale else 0)
      && goal.pos == FrameSize(goal.frame)
      && (goal.frame.Frame? ==> decoded == FrameContent(goal.frame) && Log(goal.frame, |goal.frame.blocks|, decodings))
    }

    /** The frame's size is right at its end: all that was promised was decoded. */
    lemma Exhausted()
      requires goal.sound && Ending(0) && SizeKept(goal.frame)
      ensures remaining == 0 <==> goal.Clean()
    {
    }

    method DoGetSuffix(src: seq<byte>, ip: nat, ghost base: nat) returns (p: nat, next: Next)
      requires stage == GetSuffix && Taking(src, ip, base) && Mapped()
      modifies `stage, `tmpInSize, `goal, h`dict, h`dictSize
      ensures next != Fail ==> ip <= p && Reached(src, p, base)
      ensures goal.Aim() == old(goal.Aim())
      ensures next.Again? ==> stage == StoreSuffix && Taking(src, p, base) && p == ip
      ensures next.Again? ==> h.dict == old(h.dict) && h.dictSize == old(h.dictSize)
      ensures next.Stop? ==> next.hint == 0 && Finished() && goal.seen.Frame?
      ensures next == Fail <== old(remaining) != 0
      ensures goal.sound ==> (next == Fail <==> !goal.Clean())
    {
      hide Opens, Laid, GoodBlocks, SizeKept, Tails, Log, Contents, Told, Tallied, Sofar, RawSofar, RenderBlock,
           Render, Accepted, Le;
      if goal.sound {
        Exhausted();
      }
      if remaining != 0 {
        return ip, Fail;
      }
      if !contentSum {
        SectionTold(goal, Le(4, 0));
        EndWord(x, goal.seen);
        Ended(Le(4, 0));
        Reset();
        return ip, Stop(0);
      }
      p, next := SuffixWord(src, ip, base);
    }

    method SuffixWord(src: seq<byte>, ip: nat, ghost base: nat) returns (p: nat, next: Next)
      requires stage == GetSuffix && Taking(src, ip, base) && Mapped() && contentSum && remaining == 0 && (goal.sound ==> goal.Clean())
      modifies `stage, `tmpInSize, `goal, h`dict, h`dictSize
      ensures next != Fail ==> ip <= p && Reached(src, p, base)
      ensures goal.Aim() == old(goal.Aim()) && (goal.sound ==> next != Fail)
      ensures next.Again? ==> stage == StoreSuffix && Taking(src, p, base) && p == ip
      ensures next.Again? ==> h.dict == old(h.dict) && h.dictSize == old(h.dictSize)
      ensures next.Stop? ==> next.hint == 0 && Finished() && goal.seen.Frame?
    {
      hide Section, Le, LeNum, Ending, Laid, GoodBlocks, SizeKept, Bounds, Tracks, Reached, Finished;
      AtEnd();
      if |src| - ip < CHECKSUM {
        AwaitSuffix();
        return ip, Again;
      }
      var word;
      p, word := TakeSuffix(src, ip, base);
      next := CheckSuffix(word, base + ip);
    }

    lemma AtEnd()
      requires stage == GetSuffix && Tracks()
      ensures (goal.sound ==> goal.frame.Frame? && Ending(0)) && Section(goal, Le(4, 0))
    {
      hide Section, Le;
    }

    /** The checksum behind the end mark. */
    method TakeSuffix(src: seq<byte>, ip: nat, ghost base: nat) returns (p: nat, word: nat)
      requires ip + 4 <= |src| && Reached(src, ip, base) && Feeds(src, base)
      requires (goal.sound ==> Ending(0)) && Section(goal, Le(4, 0))
      modifies `goal
      ensures p == ip + 4 && goal == old(goal).Upto(h.taken, src, base, p) && Reached(src, p, base)
      ensures Section(goal, Le(4, 0) + Le(4, word))
      ensures goal.sound ==> Ending(4) && goal.pos == base + ip + 4 <= |goal.stream|
      ensures goal.sound ==> word == LeNum(goal.stream[base + ip..base + ip + 4])
    {
      hide Section, Le, Contents, Log, LeNum;
      ghost var g := goal;
      p, word := TakeWord(src, ip, base, base + ip);
      SectionMore(g, goal, Le(4, 0), Le(4, word));
    }

    method AwaitSuffix()
      requires stage == GetSuffix && Bounds() && Mapped() && contentSum && remaining == 0
      requires goal.sound ==> goal.Clean() && Ending(0)
      requires Section(goal, Le(4, 0))
      modifies `stage, `tmpInSize
      ensures stage == StoreSuffix && Bounds() && Tracks()
    {
      hide Section, Le, Contents, Log, Tails;
      assert Le(4, 0) + tmpIn[..0] == Le(4, 0);
      if goal.sound {
        assert LaidAt(x, goal.frame, goal.stream, goal.at);
      }
      tmpInSize, stage := 0, StoreSuffix;
    }

    ghost predicate Finished()
      reads this, h
    {
      stage == GetFrameHeader && h.Cleared() && (goal.sound ==> Complete()) && HasRead()
    }

    /** The end of the frame was read, and nothing is left to count down. */
    lemma Ended(extra: seq<byte>)
      requires Section(goal, extra) && remaining == 0 && goal.seen.Frame? && extra == Suffix(x, goal.seen)
      ensures HasRead()
    {
      hide Suffix, Sofar, Contents;
      SofarEnd(x, goal.seen, goal.tape);
    }

    method DoStoreSuffix(src: seq<byte>, ip: nat, ghost base: nat) returns (p: nat, next: Next)
      requires stage == StoreSuffix && Taking(src, ip, base) && Mapped()
      modifies `stage, `tmpInSize, `goal, tmpIn, h`dict, h`dictSize
      ensures next != Fail ==> ip <= p && Reached(src, p, base)
      ensures goal.Aim() == old(goal.Aim()) && (goal.sound ==> next != Fail)
      ensures !next.Again?
      ensures next.Stop? ==> if next.hint == 0 then Finished() && goal.seen.Frame? else stage == StoreSuffix && Taking(src, p, base) && p == |src|
      ensures next.Stop? && next.hint != 0 ==> h.dict == old(h.dict) && h.dictSize == old(h.dictSize)
    {
      hide Opens, Laid, GoodBlocks, SizeKept, Tails, Log, Contents, Told, Tallied, Sofar, RawSofar, RenderBlock,
           Render, Accepted, Le;
      hide Section;
      ghost var from := if goal.sound then At(goal.frame, goal.at) + 4 else 0;
      ghost var g, bytes := goal, tmpIn[..tmpInSize];
      var word;
      p, word := CollectWord(tmpIn, src, ip, base, from);
      SectionMore(g, goal, Le(4, 0) + bytes, src[ip..p]);
      Assoc(Le(4, 0), bytes, src[ip..p]);
      if tmpInSize < CHECKSUM {
        return p, Stop(CHECKSUM - tmpInSize);
      }
      next := CheckSuffix(word, from);
    }

    method CheckSuffix(word: nat, ghost from: nat) returns (next: Next)
      requires Mapped() && (goal.sound ==> Ending(4) && goal.Clean())
      requires contentSum && remaining == 0 && Section(goal, Le(4, 0) + Le(4, word))
      requires goal.sound ==> goal.pos == from + 4 <= |goal.stream| && word == LeNum(goal.stream[from..from + 4])
      modifies `stage, h`dict, h`dictSize
      ensures next == if word == x(xxh) then Stop(0) else Fail
      ensures goal.sound ==> next != Fail
      ensures next.Stop? ==> Finished() && goal.seen.Frame?
    {
      hide Section, Le, Log;
      SectionTold(goal, Le(4, 0) + Le(4, word));
      if goal.sound {
        assert LaidAt(x, goal.frame, goal.stream, goal.at);
      }
      if word != x(xxh) {
        return Fail;
      }
      EndWord(x, goal.seen);
      Ended(Le(4, 0) + Le(4, word));
      Reset();
      next := Stop(0);
    }
  
    // ---- skippable frames ----

    method DoGetSFrameSize(src: seq<byte>, ip: nat, ghost base: nat) returns (p: nat, next: Next)
      requires stage == GetSFrameSize && Taking(src, ip, base) && Mapped()
      modifies `stage, `tmpInSize, `tmpInTarget, `contentSize, `goal
      ensures ip <= p && Taking(src, p, base) && Early() && next == Again
      ensures goal.Aim() == old(goal.Aim())
      ensures p > ip || Rank(stage) < Rank(old(stage))
    {
      hide Opens, Laid, GoodBlocks, SizeKept, Tails, Log, Contents, Told, Tallied, Sofar, RawSofar, RenderBlock,
           Render, Accepted, Le;
      next := Again;
      if |src| - ip < 4 {
        assert header[4..4] == [];
        tmpInSize, tmpInTarget, stage := 4, 8, StoreSFrameSize;
        return ip, next;
      }
      ghost var g := goal;
      var word;
      p, word := TakeWord(src, ip, base, base + ip);
      SkipsMore(g, goal, [], Le(4, word));
      BeginSkipping(word);
    }

    method BeginSkipping(word: nat)
      requires Sane() && word < TWO32 && Skips(goal, Le(4, word))
      requires goal.sound ==> goal.frame.Skippable? && goal.pos == 8 && word == |goal.frame.data| && remaining == goal.stale
      modifies `stage, `tmpInTarget, `contentSize, `goal
      ensures stage == SkipSkippable && Bounds() && Tracks()
      ensures goal == old(goal).(seen := goal.seen)
    {
      SkipsMore(goal, goal.(seen := goal.seen.(data := [])), Le(4, word), []);
      goal := goal.(seen := goal.seen.(data := []));
      contentSize, tmpInTarget, stage := word, word, SkipSkippable;
    }

    method DoStoreSFrameSize(src: seq<byte>, ip: nat, ghost base: nat) returns (p: nat, next: Next)
      requires stage == StoreSFrameSize && Taking(src, ip, base) && Mapped()
      modifies `stage, `tmpInSize, `tmpInTarget, `contentSize, `goal, header
      ensures ip <= p && Taking(src, p, base) && Early() && next != Fail
      ensures goal.Aim() == old(goal.Aim())
      ensures next.Stop? ==> next.hint != 0 && p == |src| && stage == StoreSFrameSize
      ensures next.Again? ==> p > ip
    {
      hide Opens, Laid, GoodBlocks, SizeKept, Tails, Log, Contents, Told, Tallied, Sofar, RawSofar, RenderBlock,
           Render, Accepted, Le;
      ghost var g, bytes := goal, header[4..tmpInSize];
      p := Collect(header, src, ip, tmpInTarget, base, 4, 0);
      SkipsMore(g, goal, bytes, src[ip..p]);
      if tmpInSize < tmpInTarget {
        return p, Stop(tmpInTarget - tmpInSize);
      }
      if goal.sound {
        BufferedSlice(header, 4, 8, goal.stream, 0);
      }
      ReadLe(header[4..8]);
      WordBound(header[4..8]);
      BeginSkipping(LeNum(header[4..8]));
      next := Again;
    }

    method DoSkipSkippable(src: seq<byte>, ip: nat, ghost base: nat) returns (p: nat, next: Next)
      requires stage == SkipSkippable && Taking(src, ip, base)
      modifies `stage, `tmpInTarget, `goal, h`dict, h`dictSize
      ensures ip <= p && Reached(src, p, base) && goal.Aim() == old(goal.Aim()) && next.Stop?
      ensures if next.hint == 0 then Finished() && goal.seen.Skippable? else stage == SkipSkippable && Taking(src, p, base) && p == |src|
      ensures next.hint != 0 ==> h.dict == old(h.dict) && h.dictSize == old(h.dictSize) && tmpInTarget > 0
    {
      hide Opens, Laid, GoodBlocks, SizeKept, Tails, Log, Contents, Told, Tallied, Sofar, RawSofar, RenderBlock,
           Render, Accepted, Le;
      var skipSize := Min(tmpInTarget, |src| - ip);
      p := ip + skipSize;
      goal.Onward(h.taken, src, base, ip, p);
      ghost var g := goal.Upto(h.taken, src, base, p).(seen := goal.seen.(data := goal.seen.data + src[ip..p]));
      SkipsOn(goal, g, tmpInTarget, src[ip..p]);
      tmpInTarget := tmpInTarget - skipSize;
      goal := g;
      if tmpInTarget == 0 {
        Reset();
      }
      next := Stop(tmpInTarget);
    }
  
    /** More of a skippable frame's data. */
    lemma SkipsOn(g0: Goal, g1: Goal, left: nat, bytes: seq<byte>)
      requires g0.seen.Skippable? && Skips(g0, Le(4, |g0.seen.data| + left) + g0.seen.data) && |bytes| <= left
      requires g1.seen == g0.seen.(data := g0.seen.data + bytes) && g1.tape == g0.tape + bytes
      ensures Skips(g1, Le(4, |g1.seen.data| + (left - |bytes|)) + g1.seen.data)
      ensures |bytes| == left && |g1.seen.data| < TWO32 ==> Accepted(g1.seen) && g1.tape == Render(x, g1.seen)
    {
      hide Le;
      var size := Le(4, |g0.seen.data| + left);
      assert |g1.seen.data| + (left - |bytes|) == |g0.seen.data| + left;
      SkipsMore(g0, g1, size + g0.seen.data, bytes);
      Assoc(size, g0.seen.data, bytes);
    }

    // ---- buffers and history ----

    /** The context's arrays are its own. */
    ghost predicate Apart()
      reads this, h
    {
      && tmpIn != header && h.tmpOutBuffer != header && h.tmpOutBuffer != tmpIn
      && h.dict != header && h.dict != tmpIn
    }

    /** What holds even after an error. */
    ghost predicate Owned()
      reads `tmpIn, h`tmpOutBuffer
    {
      && header.Length == MAX_HEADER && tmpIn != header && h.tmpOutBuffer != header && h.tmpOutBuffer != tmpIn && Shapes()
    }

    lemma Owns()
      requires Buffers() && Bounds()
      ensures Owned()
    {
    }

    /** The buffers were made for one of the legal block sizes, with or without the extra 128 KB. */
    ghost predicate Shapes()
      reads `tmpIn, h`tmpOutBuffer
    {
      || h.tmpOutBuffer.Length == 0
      || (tmpIn.Length >= 4 && Legal(tmpIn.Length - 4)
          && (h.tmpOutBuffer.Length == tmpIn.Length - 4 || h.tmpOutBuffer.Length == tmpIn.Length - 4 + KB128))
    }

    function BufferNeeded(): nat
      reads this
    {
      maxBlockSize + if linked then KB128 else 0
    }

    ghost predicate Buffers()
      reads this, h
    {
      Apart() && Shapes() && (!Early() ==> h.tmpOutBuffer.Length >= BufferNeeded())
    }

    /** The buffer the history lies in, while there is still something to decode or deliver. */
    ghost function Lent(): set<object>
      reads this, h
    {
      if (InBlocks() || stage == FlushOut) && h.dict != null then
        var o: object := h.dict;
        {o}
      else {}
    }

    /** What is known of the history, and how it relates to what was decoded. */
    ghost predicate Hist()
      reads this, h, h.tmpOutBuffer, Lent()
    {
      if Early() then h.Cleared()
      else if stage == FlushOut then h.Flushing(linked) && decoded == h.before + h.block
      else decoded == h.past && (InBlocks() ==> h.Resting(linked))
    }

    /** Buffers that suffice by size also suffice in shape. */
    method Allocate()
      requires Apart() && Shapes() && Legal(maxBlockSize) && h.Cleared()
      modifies `tmpIn, h`tmpOutBuffer, h`tmpOut, h`tmpOutSize, h`tmpOutStart, h`past, h`kept
      ensures tmpIn == old(tmpIn) || fresh(tmpIn)
      ensures h.tmpOutBuffer == old(h.tmpOutBuffer) || fresh(h.tmpOutBuffer)
      ensures Apart() && Shapes() && tmpIn.Length >= maxBlockSize + CHECKSUM && h.tmpOutBuffer.Length >= BufferNeeded()
      ensures h.past == [] && h.kept == [] && h.Resting(linked)
    {
      if BufferNeeded() > h.tmpOutBuffer.Length {
        tmpIn := new byte[maxBlockSize + CHECKSUM];
      }
      h.Prepare(BufferNeeded());
    }

    /** dstage_init. */
    method DoInit(src: seq<byte>, ip: nat, ghost base: nat)
      requires stage == Init && Taking(src, ip, base) && Buffers() && Hist()
      modifies `stage, `xxh, `tmpIn, `tmpInSize, `tmpInTarget, `decoded, `decodings
      modifies h`tmpOutBuffer, h`tmpOut, h`tmpOutSize, h`tmpOutStart, h`past, h`kept
      ensures stage == GetBlockHeader && Taking(src, ip, base) && Buffers() && Hist() && h.past == [] && h.kept == []
      ensures tmpIn == old(tmpIn) || fresh(tmpIn)
      ensures h.tmpOutBuffer == old(h.tmpOutBuffer) || fresh(h.tmpOutBuffer)
    {
      hide OnTrack, Opens, Laid, GoodBlocks, Tails, Reads, HasRead, Section, Stored, Skips, Begun, Heads;
      FrameKind();
      Allocate();
      BeginBlocks();
    }

    method BeginBlocks()
      requires Roomy()
      requires goal.sound ==> Described() && goal.pos == HeaderSize(goal.frame.info) && goal.at == 0 && Fresh()
      requires Begun(goal)
      modifies `stage, `xxh, `decoded, `decodings, `tmpInSize, `tmpInTarget
      ensures stage == GetBlockHeader && Bounds() && Tracks() && decoded == []
    {
      hide Begun, Section, OnTrack, Reads, Described;
      xxh, decoded, decodings := [], [], [];
      tmpInSize, tmpInTarget := 0, 0;
      BegunSection();
      stage := GetBlockHeader;
      NextTracks();
    }

    lemma BegunSection()
      requires Begun(goal) && xxh == decoded == []
      ensures Section(goal, [])
    {
      hide Sofar, Header;
      SofarHeader(x, goal.seen.info);
    }

    /** Ready for the next block. */
    lemma NextTracks()
      requires stage == GetBlockHeader && (goal.sound ==> Between(0)) && Section(goal, [])
      ensures Tracks()
    {
      hide Between, Section;
    }

    // ---- a stored block ----

    /** What a U64 counter is left with. */
    function Sub64(a: nat, n: nat): nat
      requires n <= 0x1_0000_0000_0000_0000
    {
      if n <= a then a - n else a + 0x1_0000_0000_0000_0000 - n
    }

    /** Keeps count of what was decoded. */
    method Count(fed: seq<byte>)
      requires |fed| <= 4194304 && (goal.sound ==> Counted()) && Tallied()
      requires goal.sound && contentSize != 0 ==> |decoded| + |fed| <= contentSize
      modifies `xxh, `remaining, `decoded
      ensures decoded == old(decoded) + fed && Tallied()
      ensures goal.sound ==> Counted()
    {
      if contentSum {
        xxh := xxh + fed;
      }
      if contentSize != 0 {
        remaining := Sub64(remaining, |fed|);
      }
      decoded := decoded + fed;
    }

    lemma StoredParts()
      requires Stored(goal, tmpInTarget, [])
      ensures goal.seen.Frame? && Told(goal.seen) && Tallied()
      ensures Sofar(x, goal.seen, goal.tape, RawSofar(goal.part, tmpInTarget, []))
      ensures decoded == Contents(goal.seen.blocks, |goal.seen.blocks|) + goal.part
      ensures (blockSums ==> blockXxh == goal.part) && |goal.part| + tmpInTarget <= maxBlockSize
    {
    }

    lemma StoredIs()
      requires goal.seen.Frame? && Told(goal.seen) && Tallied()
      requires Sofar(x, goal.seen, goal.tape, RawSofar(goal.part, tmpInTarget, []))
      requires decoded == Contents(goal.seen.blocks, |goal.seen.blocks|) + goal.part
      requires (blockSums ==> blockXxh == goal.part) && |goal.part| + tmpInTarget <= maxBlockSize
      ensures Stored(goal, tmpInTarget, [])
    {
    }

    lemma StoredOn(g: Goal, fed: seq<byte>)
      requires |fed| <= tmpInTarget && Sofar(x, g.seen, g.tape, RawSofar(g.part, tmpInTarget, []))
      ensures Sofar(x, g.seen, g.tape + fed, RawSofar(g.part + fed, tmpInTarget - |fed|, []))
    {
      hide Sofar, RawSofar;
      SofarMore(x, g.seen, g.tape, RawSofar(g.part, tmpInTarget, []), fed);
      RawMore(g.part, tmpInTarget, fed);
    }

    /** Keeps the books for `fed`, the next bytes of a stored block. */
    method CountDirect(fed: seq<byte>, ghost from: nat)
      requires |fed| <= tmpInTarget <= maxBlockSize <= 4194304 && Mapped()
      requires goal.sound ==> Copying() && goal.pos == from && from + |fed| <= |goal.stream|
      requires goal.sound ==> fed == goal.stream[from..from + |fed|]
      requires Stored(goal, tmpInTarget, [])
      modifies `blockXxh, `xxh, `remaining, `decoded, `tmpInTarget, `goal
      ensures tmpInTarget == old(tmpInTarget) - |fed| && decoded == old(decoded) + fed
      ensures goal == old(goal).(pos := old(goal.pos) + |fed|, tape := old(goal.tape) + fed, part := old(goal.part) + fed)
      ensures goal.sound ==> Copying()
      ensures Stored(goal, tmpInTarget, [])
    {
      hide Stored, Told, Tallied, Sofar, RawSofar, Contents, Laid, Log, Tails, Copying, At, GoodBlocks;
      StoredParts();
      Assoc(Contents(goal.seen.blocks, |goal.seen.blocks|), goal.part, fed);
      if goal.sound {
        CopyingMeans();
        MoreRaw(x, goal.frame, goal.stream, goal.at, |goal.frame.blocks[goal.at].data| - tmpInTarget, from, fed, decoded);
      }
      if blockSums {
        blockXxh := blockXxh + fed;
      }
      Count(fed);
      StoredOn(goal, fed);
      tmpInTarget := tmpInTarget - |fed|;
      goal := goal.(pos := goal.pos + |fed|, tape := goal.tape + fed, part := goal.part + fed);
      StoredIs();
      if goal.sound {
        CopyingNow();
      }
    }

    lemma CopyingMeans()
      requires Copying()
      ensures goal.frame.Frame? && goal.at < |goal.frame.blocks| && goal.frame.blocks[goal.at].Raw?
      ensures var data := goal.frame.blocks[goal.at].data; var k := |data| - tmpInTarget;
        && k >= 0 && Described() && Counted() && Log(goal.frame, goal.at, decodings)
        && goal.pos == At(goal.frame, goal.at) + 4 + k && decoded == Contents(goal.frame.blocks, goal.at) + data[..k]
        && (blockSums ==> blockXxh == data[..k])
    {
      hide Contents, Log, At;
    }

    lemma CopyingNow()
      requires goal.frame.Frame? && goal.at < |goal.frame.blocks| && goal.frame.blocks[goal.at].Raw?
      requires var data := goal.frame.blocks[goal.at].data; var k := |data| - tmpInTarget;
        && k >= 0 && Described() && Counted() && Log(goal.frame, goal.at, decodings)
        && goal.pos == At(goal.frame, goal.at) + 4 + k && decoded == Contents(goal.frame.blocks, goal.at) + data[..k]
        && (blockSums ==> blockXxh == data[..k])
      ensures Copying()
    {
      hide Contents, Log, At;
    }
  
    /** Output has gone to dst[start..op], and may go up to `end`. */
    ghost predicate Given(dst: array<byte>, start: nat, op: nat, end: nat)
      reads this, h, dst
    {
      && start <= op <= end <= dst.Length && dst != header && dst != tmpIn && dst != h.tmpOutBuffer
      && (h.below ==> h.Behind(dst, op)) && Mirrors(dst, op, h.past, op - start) && h.kept <= h.past && |h.past| == |h.kept| + op - start
    }

    /** The same, and nothing the history needs lies where output may still go. */
    ghost predicate Giving(dst: array<byte>, start: nat, op: nat, end: nat)
      reads this, h, dst
    {
      && start <= op <= end <= dst.Length && dst != header && dst != tmpIn && h.Clear(dst, op, end)
      && Mirrors(dst, op, h.past, op - start) && h.kept <= h.past && |h.past| == |h.kept| + op - start
    }

    predicate AtSuffix()
      reads `stage
    {
      stage == GetSuffix || stage == StoreSuffix
    }

    /** A part of a stored block goes to the destination. */
    method PutDirect(fed: seq<byte>, dst: array<byte>, start: nat, op: nat, end: nat)
      requires Apart() && Giving(dst, start, op, end) && h.Resting(linked)
      requires linked ==> h.tmpOutBuffer.Length >= KB64 + KB128
      requires op + |fed| <= end
      modifies h`past, h`dict, h`dictStart, h`dictSize, h.tmpOutBuffer, dst
      ensures h.past == old(h.past) + fed && h.Resting(linked)
      ensures Apart() && Giving(dst, start, op + |fed|, end)
      ensures forall j :: 0 <= j < op || op + |fed| <= j < dst.Length ==> dst[j] == old(dst[j])
    {
      var n := |fed|;
      WriteOut(fed, dst, start, op, end);
      h.Direct(linked, dst, start, op, n, end, fed);
    }

    method WriteOut(fed: seq<byte>, dst: array<byte>, start: nat, op: nat, end: nat)
      requires Apart() && Giving(dst, start, op, end) && h.Resting(linked)
      requires op + |fed| <= end
      modifies dst
      ensures h.Resting(linked) && Giving(dst, start, op, end) && Bears(dst, op, fed)
      ensures forall j :: 0 <= j < op || op + |fed| <= j < dst.Length ==> dst[j] == old(dst[j])
    {
      forall j | op <= j < op + |fed| {
        dst[j] := fed[j - op];
      }
    }

    /** A stored block was taken whole. */
    lemma CopyDone()
      requires goal.sound && Mapped() && Copying() && tmpInTarget == 0
      ensures goal.frame.Frame? && goal.at < |goal.frame.blocks| && goal.frame.blocks[goal.at].Raw?
      ensures var data := goal.frame.blocks[goal.at].data;
        && Behind(4 + |data|) && decoded == Contents(goal.frame.blocks, goal.at) + data && (blockSums ==> blockXxh == data)
      ensures CrcSize(goal.frame.info) == SumSize() && goal.pos <= |goal.stream|
    {
      hide Contents, Log;
      assert LaidAt(x, goal.frame, goal.stream, goal.at);
      var data := goal.frame.blocks[goal.at].data;
      assert data[..|data|] == data;
    }

    lemma StoredSums()
      requires Stored(goal, 0, [])
      ensures !blockSums ==> Checksum(x, blockSums, goal.part) == []
    {
      hide Sofar, RawSofar, Contents;
    }

    /** A stored block is all out. */
    method EndDirect()
      requires Roomy() && tmpInTarget == 0 && Mapped() && Stored(goal, 0, [])
      requires goal.sound ==> Copying()
      modifies `stage, `tmpInSize, `goal
      ensures stage == GetBlockChecksum || stage == GetBlockHeader
      ensures Bounds() && Tracks() && goal.Aim() == old(goal.Aim()) && goal.pos == old(goal.pos)
      ensures goal.tape == old(goal.tape)
    {
      hide Copying, Stored, Told, Laid, Described, Counted, Tails, Contents, Log, Checksum, RawSofar;
      assert header[..0] == [];
      StoredSums();
      if goal.sound {
        CopyDone();
      }
      if blockSums {
        tmpInSize, stage := 0, GetBlockChecksum;
      } else {
        NextBlock();
      }
    }
  
    // ---- decoding ----

    /** Between blocks, buffers and history are in order. */
    ghost predicate Kept()
      reads this, h, h.dict
    {
      Apart() && h.tmpOutBuffer.Length >= BufferNeeded() && h.Resting(linked) && decoded == h.past
    }

    /** Decodes a block straight into the destination. */
    method DecodeDirect(data: seq<byte>, dst: array<byte>, start: nat, op: nat, end: nat, ghost content: seq<byte>)
      returns (n: int, ghost m: Decoding)
      requires Legal(maxBlockSize) && h.Resting(linked) && Apart() && Giving(dst, start, op, end)
      requires |data| < 0x8000_0000 && op + maxBlockSize <= end
      modifies dst
      ensures n <= maxBlockSize && h.Resting(linked) && Giving(dst, start, op, end)
      ensures |content| <= maxBlockSize && Decodable(data, Window(linked, h.past), content)
        ==> n == |content| && Bears(dst, op, content)
      ensures n >= 0 ==> Lz4Decompress.Decodes(data, Window(linked, h.past), dst[op..op + n])
      ensures m.Tail() && m.linked == linked && m.output == h.past
      ensures forall j :: 0 <= j < op || end <= j < dst.Length ==> dst[j] == old(dst[j])
    {
      hide Lz4Decompress.Decodes, Decodable, Window, Decoding.Tail;
      n, m := h.DecodeBlock(linked, data, dst, op, maxBlockSize, content);
    }

    method ToDestination(data: seq<byte>, dst: array<byte>, start: nat, op: nat, end: nat, ghost content: seq<byte>)
      returns (ok: bool, fed: seq<byte>, ghost m: Decoding)
      requires Legal(maxBlockSize) && h.Resting(linked) && Apart() && Giving(dst, start, op, end)
      requires linked ==> h.tmpOutBuffer.Length >= KB64 + KB128
      requires |data| < 0x8000_0000 && op + maxBlockSize <= end
      modifies h`past, h`dict, h`dictStart, h`dictSize, h.tmpOutBuffer, dst
      ensures ok ==> |fed| <= maxBlockSize && h.past == old(h.past) + fed && h.Resting(linked)
      ensures ok ==> Apart() && Giving(dst, start, op + |fed|, end)
      ensures |content| <= maxBlockSize && Decodable(data, Window(linked, old(h.past)), content) ==> ok && fed == content
      ensures ok ==> Lz4Decompress.Decodes(data, Window(linked, old(h.past)), fed)
      ensures m.Tail() && m.linked == linked && m.output == old(h.past)
      ensures forall j :: 0 <= j < op || end <= j < dst.Length ==> dst[j] == old(dst[j])
    {
      hide History.DictFor, Mirrors, Decodable, Decoding.Tail;
      var n;
      n, m := DecodeDirect(data, dst, start, op, end, content);
      if n < 0 {
        return false, [], m;
      }
      ok, fed := true, dst[op..op + n];
      SliceBears(dst, op, op + n);
      if Bears(dst, op, content) && n == |content| {
        BearsSlice(dst, op, content);
      }
      h.Direct(linked, dst, start, op, n, end, fed);
    }
  
    /** The current block was taken whole. */
    ghost predicate Due()
      reads this
    {
      && goal.frame.Frame? && goal.at < |goal.frame.blocks| && goal.frame.blocks[goal.at].Packed?
      && Between(4 + |goal.frame.blocks[goal.at].data| + CrcSize(goal.frame.info))
    }

    /** What the current block decodes to. */
    ghost function Owed(): seq<byte>
      reads this
    {
      if goal.sound && goal.frame.Frame? && goal.at < |goal.frame.blocks| then goal.frame.blocks[goal.at].Content() else []
    }

    lemma DueGood(past: seq<byte>)
      requires goal.sound && Mapped() && Due() && past == decoded
      ensures |Owed()| <= maxBlockSize
      ensures Decodable(goal.frame.blocks[goal.at].data, Window(linked, past), Owed())
      ensures contentSize != 0 ==> |decoded| + |Owed()| <= contentSize
    {
      PackedGood(goal.frame, goal.at);
      PartFits(goal.frame, goal.at, |Owed()|);
    }

    method ToTmp(data: seq<byte>, ghost content: seq<byte>) returns (ok: bool, fed: seq<byte>, ghost m: Decoding)
      requires Legal(maxBlockSize) && h.Resting(linked) && h.tmpOutBuffer.Length >= BufferNeeded() && |data| < 0x8000_0000
      modifies h`tmpOut, h`tmpOutSize, h`tmpOutStart, h`dictSize, h`before, h`block, h.tmpOutBuffer
      ensures ok ==> |fed| <= maxBlockSize && h.Flushing(linked) && h.before == h.past && h.block == fed
      ensures h.dict != h.tmpOutBuffer ==> h.dictSize == old(h.dictSize)
      ensures |content| <= maxBlockSize && Decodable(data, Window(linked, h.past), content) ==> ok && fed == content
      ensures ok ==> Lz4Decompress.Decodes(data, Window(linked, h.past), fed)
      ensures m.Tail() && m.linked == linked && m.output == h.past
    {
      var n;
      n, m := h.DecodeToTmp(linked, data, maxBlockSize, content);
      if n < 0 {
        return false, [], m;
      }
      BearsSlice(h.tmpOutBuffer, h.tmpOut, h.block);
      ok, fed := true, h.tmpOutBuffer[h.tmpOut..h.tmpOut + n];
    }

    /** All of a compressed block was taken. */
    ghost predicate Cut(g: Goal, data: seq<byte>)
      reads `linked, `blockSums, `contentSum, `contentSize, `maxBlockSize, `xxh, `remaining, `decoded
    {
      && Told(g.seen) && Section(g, RenderBlock(x, g.seen.info, Packed(data, [])))
      && 0 < |data| <= maxBlockSize
    }

    /** What the frame read is when the block is decoded. */
    lemma PackedBlock(data: seq<byte>, fed: seq<byte>)
      requires Cut(goal, data) && |fed| <= maxBlockSize && Lz4Decompress.Decodes(data, Window(linked, decoded), fed)
      ensures goal.seen.Frame?
      ensures var f := goal.seen.(blocks := goal.seen.blocks + [Packed(data, fed)]);
        Told(f) && Tallied() && Sofar(x, f, goal.tape, []) && decoded + fed == Contents(f.blocks, |f.blocks|)
    {
      hide Sofar, Contents, Lz4Decompress.Decodes;
      SofarBlock(x, goal.seen, goal.tape, Packed(data, fed));
    }

    /** The current block was decoded, into the destination or aside. */
    method Tally(ghost data: seq<byte>, fed: seq<byte>, aside: bool, ghost m: Decoding)
      requires Roomy() && |fed| <= maxBlockSize && Cut(goal, data) && Lz4Decompress.Decodes(data, Window(linked, decoded), fed)
      requires goal.sound ==> Due() && fed == Owed() && (contentSize != 0 ==> |decoded| + |fed| <= contentSize)
      requires m.Tail() && m.linked == linked && m.output == decoded
      modifies `stage, `xxh, `remaining, `decoded, `decodings, `goal
      ensures stage == (if aside then FlushOut else GetBlockHeader) && (goal.sound ==> Between(0)) && Roomy()
      ensures goal.Aim() == old(goal.Aim()) && goal.pos == old(goal.pos) && decoded == old(decoded) + fed
      ensures goal.tape == old(goal.tape) && Section(goal, [])
    {
      hide Section, Cut, Sofar, Told, Tallied, Lz4Decompress.Decodes, Due, Behind, Between, Log, Contents, At,
           CrcSize, BlockSize, Promised;
      PackedBlock(data, fed);
      ghost var ds, before := decodings, decoded;
      assert (ds + [m])[..|ds|] == ds;
      if goal.sound {
        DueMeans();
      }
      decodings := ds + [m];
      Count(fed);
      stage := if aside then FlushOut else GetBlockHeader;
      goal := goal.(at := goal.at + 1, seen := goal.seen.(blocks := goal.seen.blocks + [Packed(data, fed)]));
      if goal.sound {
        BetweenNow(ds, m, before);
      }
      SectionIs(goal);
    }

    /** What it means that a compressed block was taken whole. */
    lemma DueMeans()
      requires Due()
      ensures Described() && Counted() && goal.frame.Frame? && goal.at < |goal.frame.blocks| && goal.frame.blocks[goal.at].Packed?
      ensures goal.pos == At(goal.frame, goal.at) + 4 + |goal.frame.blocks[goal.at].data| + CrcSize(goal.frame.info)
      ensures Log(goal.frame, goal.at, decodings) && decoded == Contents(goal.frame.blocks, goal.at)
    {
      hide Contents, Log, At;
    }

    /** What it means that the next block is to come. */
    lemma BetweenNow(ds: seq<Decoding>, m: Decoding, before: seq<byte>)
      requires Described() && Counted() && 0 < goal.at <= |goal.frame.blocks|
      requires var at := goal.at - 1; var b := goal.frame.blocks[at];
        && b.Packed? && goal.pos == At(goal.frame, at) + 4 + |b.data| + CrcSize(goal.frame.info)
        && Log(goal.frame, at, ds) && before == Contents(goal.frame.blocks, at) && decoded == before + b.content
      requires decodings == ds + [m] && m.linked == linked && m.output == before
      ensures Between(0)
    {
      assert (ds + [m])[..|ds|] == ds;
    }

    /** Room for a whole block: it is decoded into the destination. */
    method DecodeOut(data: seq<byte>, dst: array<byte>, start: nat, op: nat, end: nat) returns (o: nat, next: Next)
      requires Roomy() && Mapped() && Kept() && Giving(dst, start, op, end) && Cut(goal, data)
      requires |data| < 0x8000_0000 && op + maxBlockSize <= end
      requires goal.sound ==> Due() && data == goal.frame.blocks[goal.at].data
      modifies `stage, `xxh, `remaining, `decoded, `decodings, `goal, h`past, h`dict, h`dictStart, h`dictSize, h.tmpOutBuffer, dst
      ensures goal.Aim() == old(goal.Aim()) && goal.pos == old(goal.pos) && (goal.sound ==> next != Fail) && !next.Stop?
      ensures goal.tape == old(goal.tape) && (next != Fail ==> Section(goal, []))
      ensures next != Fail ==> Roomy() && stage == GetBlockHeader && (goal.sound ==> Between(0))
      ensures next != Fail ==> Kept() && op <= o && Giving(dst, start, o, end)
      ensures forall j :: 0 <= j < op || end <= j < dst.Length ==> dst[j] == old(dst[j])
    {
      hide Opens, Laid, GoodBlocks, Tails, Mirrors, History.DictFor, Decodable, Log, Described, Counted, Told,
           Tallied, Sofar, RawSofar, RenderBlock, Render, Accepted, Le, Cut, Section, Lz4Decompress.Decodes;
      if goal.sound {
        DueGood(h.past);
      }
      var ok, fed;
      ghost var m;
      ok, fed, m := ToDestination(data, dst, start, op, end, Owed());
      if !ok {
        return op, Fail;
      }
      Tally(data, fed, false, m);
      return op + |fed|, Again;
    }

    /** No room: it is decoded into tmpOut. */
    method DecodeAside(data: seq<byte>) returns (next: Next)
      requires Roomy() && Mapped() && Kept() && |data| < 0x8000_0000 && Cut(goal, data)
      requires goal.sound ==> Due() && data == goal.frame.blocks[goal.at].data
      modifies `stage, `xxh, `remaining, `decoded, `decodings, `goal
      modifies h`tmpOut, h`tmpOutSize, h`tmpOutStart, h`dictSize, h`before, h`block, h.tmpOutBuffer
      ensures goal.Aim() == old(goal.Aim()) && goal.pos == old(goal.pos) && (goal.sound ==> next != Fail) && !next.Stop?
      ensures goal.tape == old(goal.tape) && (next != Fail ==> Section(goal, []))
      ensures next != Fail ==> Roomy() && stage == FlushOut && (goal.sound ==> Between(0))
      ensures next != Fail ==> h.Flushing(linked) && decoded == h.before + h.block && h.tmpOutBuffer.Length >= BufferNeeded()
      ensures h.dict != h.tmpOutBuffer ==> h.dictSize == old(h.dictSize)
    {
      hide Opens, Laid, GoodBlocks, Tails, Mirrors, History.DictFor, Decodable, Log, Described, Counted,
           History.Holding, History.Continues, Told, Tallied, Sofar, RawSofar, RenderBlock, Render, Accepted, Le, Cut,
           Section, Lz4Decompress.Decodes;
      if goal.sound {
        DueGood(h.past);
      }
      var ok, fed;
      ghost var m;
      ok, fed, m := ToTmp(data, Owed());
      if !ok {
        return Fail;
      }
      Tally(data, fed, true, m);
      next := Again;
    }
  
    // ---- stages that give output ----

    /** dstage_copyDirect. */
    method DoCopyDirect(src: seq<byte>, ip: nat, ghost base: nat, dst: array<byte>, start: nat, op: nat, end: nat, noDst: bool)
      returns (p: nat, o: nat, next: Next)
      requires stage == CopyDirect && Roomy() && tmpInTarget <= maxBlockSize && Mapped() && Kept()
      requires Reached(src, ip, base) && Feeds(src, base) && (goal.sound ==> Copying()) && Stored(goal, tmpInTarget, [])
      requires Giving(dst, start, op, end) && (noDst ==> op == end)
      modifies `stage, `blockXxh, `xxh, `remaining, `decoded, `tmpInSize, `tmpInTarget, `goal
      modifies h`past, h`dict, h`dictStart, h`dictSize, h.tmpOutBuffer, dst
      ensures ip <= p && op <= o && Reached(src, p, base) && goal.Aim() == old(goal.Aim())
      ensures Kept() && Giving(dst, start, o, end) && Bounds() && Tracks()
      ensures forall j :: 0 <= j < op || end <= j < dst.Length ==> dst[j] == old(dst[j])
      ensures next != Fail
      ensures next.Again? ==> stage == GetBlockChecksum || stage == GetBlockHeader
      ensures next.Stop? ==> stage == CopyDirect && next.hint != 0 && (p == |src| || o == end)
    {
      hide Opens, Laid, GoodBlocks, SizeKept, Tails, Log, Contents, Told, Tallied, Sofar, RawSofar, RenderBlock,
           Render, Accepted, Le, Stored, History.DictFor, Mirrors, History.InRange, BlockSize, History.Cleared;
      p, o := PassDirect(src, ip, base, dst, start, op, end, noDst);
      if tmpInTarget == 0 {
        EndDirect();
        return p, o, Again;
      }
      next := Stop(tmpInTarget + (if blockSums then CHECKSUM else 0) + BLOCK_HEADER);
    }

    method PassDirect(src: seq<byte>, ip: nat, ghost base: nat, dst: array<byte>, start: nat, op: nat, end: nat, noDst: bool)
      returns (p: nat, o: nat)
      requires Roomy() && tmpInTarget <= maxBlockSize && Mapped() && Kept()
      requires Reached(src, ip, base) && Feeds(src, base) && (goal.sound ==> Copying()) && Stored(goal, tmpInTarget, [])
      requires Giving(dst, start, op, end) && (noDst ==> op == end)
      modifies `blockXxh, `xxh, `remaining, `decoded, `tmpInTarget, `goal
      modifies h`past, h`dict, h`dictStart, h`dictSize, h.tmpOutBuffer, dst
      ensures ip <= p <= |src| && op <= o && goal == old(goal).Upto(h.taken, src, base, p).(part := goal.part)
      ensures (goal.sound ==> Copying()) && Stored(goal, tmpInTarget, [])
      ensures Kept() && Giving(dst, start, o, end) && tmpInTarget <= maxBlockSize
      ensures forall j :: 0 <= j < op || end <= j < dst.Length ==> dst[j] == old(dst[j])
      ensures tmpInTarget == 0 || p == |src| || o == end
    {
      hide Opens, Laid, GoodBlocks, Tails, Mirrors, History.DictFor, Log, Described, Counted, Copying, Told, Tallied,
           Sofar, RawSofar, RenderBlock, Render, Accepted, Le;
      var n := if noDst then 0 else Min(tmpInTarget, Min(|src| - ip, end - op));
      ghost var from := base + ip;
      p, o := ip + n, op + n;
      var fed := src[ip..p];
      if goal.sound {
        FedSlice(src, goal.stream, base, ip, p, from, from + n);
      }
      goal.Onward(h.taken, src, base, ip, p);
      GiveDirect(fed, dst, start, op, end, noDst);
      CountDirect(fed, from);
    }

    method GiveDirect(fed: seq<byte>, dst: array<byte>, start: nat, op: nat, end: nat, noDst: bool)
      requires Apart() && Giving(dst, start, op, end) && h.Resting(linked) && (noDst ==> fed == [])
      requires linked ==> h.tmpOutBuffer.Length >= KB64 + KB128
      requires op + |fed| <= end
      modifies h`past, h`dict, h`dictStart, h`dictSize, h.tmpOutBuffer, dst
      ensures h.past == old(h.past) + fed && h.Resting(linked)
      ensures Apart() && Giving(dst, start, op + |fed|, end)
      ensures forall j :: 0 <= j < op || op + |fed| <= j < dst.Length ==> dst[j] == old(dst[j])
    {
      if !noDst {
        PutDirect(fed, dst, start, op, end);
      }
    }

    /** dstage_flushOut. */
    method DoFlushOut(dst: array<byte>, start: nat, op: nat, end: nat, noDst: bool) returns (o: nat, next: Next)
      requires stage == FlushOut && Apart() && h.Flushing(linked) && decoded == h.before + h.block
      requires linked ==> h.tmpOutBuffer.Length >= KB64 + KB128
      requires Giving(dst, start, op, end) && (noDst ==> op == end)
      modifies `stage, h`past, h`tmpOutStart, h`dict, h`dictStart, h`dictSize, h.tmpOutBuffer, dst
      ensures Apart() && op <= o && Giving(dst, start, o, end) && next != Fail
      ensures forall j :: 0 <= j < op || end <= j < dst.Length ==> dst[j] == old(dst[j])
      ensures next.Again? ==> stage == GetBlockHeader && h.Resting(linked) && decoded == h.past
      ensures next.Stop? ==> stage == FlushOut && h.Flushing(linked) && next.hint != 0 && o == end
    {
      hide Opens, Laid, GoodBlocks, Tails, Mirrors, History.DictFor, History.Holding, History.Continues, Told,
           Tallied, Sofar, RawSofar, RenderBlock, Render, Accepted, Le;
      o := op;
      if !noDst {
        o := FlushSome(dst, start, op, end);
      }
      if h.tmpOutStart == h.tmpOutSize {
        AllOut();
        stage := GetBlockHeader;
        return o, Again;
      }
      next := Stop(BLOCK_HEADER);
    }

    method FlushSome(dst: array<byte>, start: nat, op: nat, end: nat) returns (o: nat)
      requires Apart() && h.Flushing(linked) && Giving(dst, start, op, end)
      requires linked ==> h.tmpOutBuffer.Length >= KB64 + KB128
      modifies h`past, h`tmpOutStart, h`dict, h`dictStart, h`dictSize, h.tmpOutBuffer, dst
      ensures Apart() && op <= o && Giving(dst, start, o, end) && h.Flushing(linked)
      ensures h.tmpOutStart == h.tmpOutSize || o == end
      ensures forall j :: 0 <= j < op || end <= j < dst.Length ==> dst[j] == old(dst[j])
    {
      var n := h.Flush(linked, dst, start, op, end);
      o := op + n;
    }

    lemma AllOut()
      requires h.Flushing(linked) && h.tmpOutStart == h.tmpOutSize
      ensures h.Resting(linked) && h.past == h.before + h.block
    {
      h.Flushed(linked);
      assert h.block[..h.tmpOutStart] == h.block;
    }
  
    // ---- one step, whatever the stage ----

    /** The state between two stages: `src[ip..]` is to be taken, dst[start..op] has been given. */
    ghost predicate Moving(src: seq<byte>, ip: nat, base: nat, dst: array<byte>, start: nat, op: nat, end: nat)
      reads this, header, tmpIn, h, h.dict, h.tmpOutBuffer, dst
    {
      && Taking(src, ip, base) && Buffers() && Hist()
      && (if AtSuffix() then Given(dst, start, op, end) else Giving(dst, start, op, end))
      && (Early() ==> op == start && h.kept == [])
    }

    /** More input or more room is needed before the frame is done. */
    predicate Waiting()
      reads `stage, `tmpInTarget
    {
      stage != GetSuffix && (stage == SkipSkippable ==> tmpInTarget > 0)
    }

    /** How a stage leaves things. */
    ghost predicate Stepped(next: Next, src: seq<byte>, p: nat, base: nat, dst: array<byte>, start: nat, o: nat, end: nat)
      reads this, header, tmpIn, h, h.dict, h.tmpOutBuffer, dst
    {
      match next
      case Fail => !goal.sound || !goal.Clean()
      case Again => Moving(src, p, base, dst, start, o, end)
      case Stop(hint) =>
        if hint == 0 then
          && Finished() && Bounds() && Buffers() && Reached(src, p, base)
          && start <= o <= end <= dst.Length && Mirrors(dst, o, h.past, o - start) && h.kept <= h.past && |h.past| == |h.kept| + o - start
          && (goal.sound ==> if goal.frame.Frame? then decoded == h.past else o == start && h.kept == [])
          && (if goal.seen.Frame? then decoded == h.past else o == start && h.kept == [])
        else Moving(src, p, base, dst, start, o, end) && (p == |src| || o == end) && Waiting()
    }

    /** What the stage says of the frame. */
    lemma FrameKind()
      requires Tracks()
      ensures goal.sound && AtSuffix() ==> goal.frame.Frame?
      ensures goal.sound && (stage == GetSFrameSize || stage == StoreSFrameSize || stage == SkipSkippable) ==> goal.frame.Skippable?
      ensures goal.sound && stage == CopyDirect ==> Copying()
      ensures goal.sound && stage == FlushOut ==> Between(0)
      ensures goal.sound && stage == Init ==>
                Described() && goal.pos == HeaderSize(goal.frame.info) && goal.at == 0 && Fresh()
      ensures stage == CopyDirect ==> Stored(goal, tmpInTarget, [])
      ensures stage == FlushOut ==> Section(goal, [])
      ensures stage == Init ==> Begun(goal)
    {
    }

    method StepHeader(src: seq<byte>, ip: nat, ghost base: nat, dst: array<byte>, start: nat, op: nat, end: nat)
      returns (p: nat, next: Next)
      requires Moving(src, ip, base, dst, start, op, end) && Aimed()
      requires stage == GetFrameHeader || stage == StoreFrameHeader
      modifies `stage, `linked, `blockSums, `contentSum, `contentSize, `remaining, `maxBlockSize, `tmpInSize, `tmpInTarget,
               `goal, header
      ensures goal.Aim() == old(goal.Aim()) && Stepped(next, src, p, base, dst, start, op, end)
      ensures next != Fail ==> ip <= p
      ensures next.Again? ==> p > ip || Rank(stage) < Rank(old(stage))
    {
      hide OnTrack, Bounds, Opens, Laid, GoodBlocks, History.DictFor, Mirrors, Tails, Reads, HasRead, Section, Stored,
           Skips, Begun, Heads;
      if stage == GetFrameHeader {
        p, next := DoGetFrameHeader(src, ip, base);
      } else {
        p, next := DoStoreFrameHeader(src, ip, base);
      }
    }

    method StepSkip(src: seq<byte>, ip: nat, ghost base: nat, dst: array<byte>, start: nat, op: nat, end: nat)
      returns (p: nat, next: Next)
      requires Moving(src, ip, base, dst, start, op, end) && Mapped()
      requires stage == GetSFrameSize || stage == StoreSFrameSize || stage == SkipSkippable
      modifies `stage, `tmpInSize, `tmpInTarget, `contentSize, `goal, header, h`dict, h`dictSize
      ensures goal.Aim() == old(goal.Aim()) && Stepped(next, src, p, base, dst, start, op, end)
      ensures next != Fail ==> ip <= p
      ensures next.Again? ==> p > ip || Rank(stage) < Rank(old(stage))
    {
      hide OnTrack, Opens, Laid, GoodBlocks, Tails, Reads, HasRead, Section, Stored, Skips, Begun, Heads, Told,
           Tallied, Mirrors, History.DictFor, History.InRange;
      FrameKind();
      if stage == GetSFrameSize {
        p, next := DoGetSFrameSize(src, ip, base);
      } else if stage == StoreSFrameSize {
        p, next := DoStoreSFrameSize(src, ip, base);
      } else {
        p, next := DoSkipSkippable(src, ip, base);
      }
    }

    method StepGetSuffix(src: seq<byte>, ip: nat, ghost base: nat, dst: array<byte>, start: nat, op: nat, end: nat)
      returns (p: nat, next: Next)
      requires Moving(src, ip, base, dst, start, op, end) && Mapped() && stage == GetSuffix
      modifies `stage, `tmpInSize, `goal, h`dict, h`dictSize
      ensures goal.Aim() == old(goal.Aim()) && Stepped(next, src, p, base, dst, start, op, end)
      ensures next != Fail ==> ip <= p
      ensures next.Again? ==> Rank(stage) < Rank(old(stage))
    {
      hide OnTrack, Opens, Laid, GoodBlocks, Tails, Reads, HasRead, Section, Stored, Skips, Begun, Heads;
      FrameKind();
      p, next := DoGetSuffix(src, ip, base);
    }

    method StepStoreSuffix(src: seq<byte>, ip: nat, ghost base: nat, dst: array<byte>, start: nat, op: nat, end: nat)
      returns (p: nat, next: Next)
      requires Moving(src, ip, base, dst, start, op, end) && Mapped() && stage == StoreSuffix
      modifies `stage, `tmpInSize, `goal, tmpIn, h`dict, h`dictSize
      ensures goal.Aim() == old(goal.Aim()) && Stepped(next, src, p, base, dst, start, op, end)
      ensures next != Fail ==> ip <= p && !next.Again?
    {
      hide OnTrack, Opens, Laid, GoodBlocks, Tails, Reads, HasRead, Section, Stored, Skips, Begun, Heads;
      FrameKind();
      p, next := DoStoreSuffix(src, ip, base);
    }
  
    method StepInit(src: seq<byte>, ip: nat, ghost base: nat, dst: array<byte>, start: nat, op: nat, end: nat)
      requires Moving(src, ip, base, dst, start, op, end) && stage == Init
      modifies `stage, `xxh, `tmpIn, `tmpInSize, `tmpInTarget, `decoded, `decodings
      modifies h`tmpOutBuffer, h`tmpOut, h`tmpOutSize, h`tmpOutStart, h`past, h`kept
      ensures Moving(src, ip, base, dst, start, op, end) && stage == GetBlockHeader && h.kept == old(h.kept)
      ensures tmpIn == old(tmpIn) || fresh(tmpIn)
      ensures h.tmpOutBuffer == old(h.tmpOutBuffer) || fresh(h.tmpOutBuffer)
    {
      DoInit(src, ip, base);
    }

    method StepGetBlockHeader(src: seq<byte>, ip: nat, ghost base: nat, dst: array<byte>, start: nat, op: nat, end: nat)
      returns (p: nat, next: Next)
      requires Moving(src, ip, base, dst, start, op, end) && Mapped() && stage == GetBlockHeader
      modifies `stage, `tmpInSize, `tmpInTarget, `blockXxh, `goal
      ensures goal.Aim() == old(goal.Aim()) && Stepped(next, src, p, base, dst, start, op, end)
      ensures next != Fail ==> ip <= p
      ensures next.Again? ==> p > ip || Rank(stage) < Rank(old(stage))
    {
      hide OnTrack, Bounds, Opens, Laid, GoodBlocks, History.DictFor, Mirrors, Tails, Reads, HasRead, Section, Stored,
           Skips, Begun, Heads;
      p, next := DoGetBlockHeader(src, ip, base, op == end);
    }

    method StepStoreBlockHeader(src: seq<byte>, ip: nat, ghost base: nat, dst: array<byte>, start: nat, op: nat, end: nat)
      returns (p: nat, next: Next)
      requires Moving(src, ip, base, dst, start, op, end) && Mapped() && stage == StoreBlockHeader
      modifies `stage, `tmpInSize, `tmpInTarget, `blockXxh, `goal, tmpIn
      ensures goal.Aim() == old(goal.Aim()) && Stepped(next, src, p, base, dst, start, op, end)
      ensures next != Fail ==> ip <= p
      ensures next.Again? ==> p > ip
    {
      hide OnTrack, Bounds, Opens, Laid, GoodBlocks, History.DictFor, Mirrors, Tails, Reads, HasRead, Section, Stored,
           Skips, Begun, Heads;
      p, next := DoStoreBlockHeader(src, ip, base, op == end);
    }

    method StepChecksum(src: seq<byte>, ip: nat, ghost base: nat, dst: array<byte>, start: nat, op: nat, end: nat)
      returns (p: nat, next: Next)
      requires Moving(src, ip, base, dst, start, op, end) && Mapped() && stage == GetBlockChecksum
      modifies `stage, `tmpInSize, `goal, header
      ensures goal.Aim() == old(goal.Aim()) && Stepped(next, src, p, base, dst, start, op, end)
      ensures next != Fail ==> ip <= p
      ensures next.Again? ==> p > ip
    {
      hide OnTrack, Bounds, Opens, Laid, GoodBlocks, History.DictFor, Mirrors, Tails, Reads, HasRead, Section, Stored,
           Skips, Begun, Heads;
      p, next := DoGetBlockChecksum(src, ip, base);
    }

    method StepCopy(src: seq<byte>, ip: nat, ghost base: nat, dst: array<byte>, start: nat, op: nat, end: nat, noDst: bool)
      returns (p: nat, o: nat, next: Next)
      requires Moving(src, ip, base, dst, start, op, end) && Mapped() && stage == CopyDirect && (noDst ==> op == end)
      modifies `stage, `blockXxh, `xxh, `remaining, `decoded, `tmpInSize, `tmpInTarget, `goal
      modifies h`past, h`dict, h`dictStart, h`dictSize, h.tmpOutBuffer, dst
      ensures goal.Aim() == old(goal.Aim()) && Stepped(next, src, p, base, dst, start, o, end)
      ensures ip <= p && op <= o && (next.Again? ==> Rank(stage) < Rank(old(stage)))
      ensures forall j :: 0 <= j < op || end <= j < dst.Length ==> dst[j] == old(dst[j])
    {
      hide OnTrack, Opens, Laid, GoodBlocks, Tails, Reads, HasRead, Section, Stored, Skips, Begun, Heads, Told,
           Tallied, Mirrors, History.DictFor, History.InRange, Copying;
      FrameKind();
      p, o, next := DoCopyDirect(src, ip, base, dst, start, op, end, noDst);
    }

    /** The checksum is checked and cut off a block that was taken. */
    method CutBlock(selected: seq<byte>, ghost from: nat) returns (ok: bool, data: seq<byte>)
      requires Whole(selected) && Mapped()
      requires goal.sound ==> Selected(selected, from)
      modifies `tmpInTarget
      ensures |data| <= |selected| && (ok ==> Cut(goal, data))
      ensures goal.sound ==> ok && Due() && data == goal.frame.blocks[goal.at].data
    {
      hide Section, RenderBlock, Le, Mapped, SelectedIs, Told;
      SectionTold(goal, Le(4, DataSize()) + selected);
      if goal.sound {
        SelectedGood(selected, from);
      }
      ok, data := CheckCBlock(selected);
      if ok {
        PackedWhole(x, goal.seen.info, data, [], selected);
      }
    }

    /** The current block with its checksum was taken. */
    ghost predicate Whole(selected: seq<byte>)
      reads this
    {
      && |selected| == tmpInTarget && SumSize() < |selected| <= maxBlockSize + SumSize()
      && Section(goal, Le(4, DataSize()) + selected)
    }

    /** A block has been decoded. */
    ghost predicate After(dst: array<byte>, start: nat, o: nat, end: nat)
      reads this, h, h.dict, h.tmpOutBuffer, dst
    {
      && Roomy() && (goal.sound ==> Between(0)) && Section(goal, []) && Apart() && h.tmpOutBuffer.Length >= BufferNeeded() && Giving(dst, start, o, end)
      && ((stage == GetBlockHeader && Kept())
          || (stage == FlushOut && h.Flushing(linked) && decoded == h.before + h.block))
    }

    lemma AfterMoves(src: seq<byte>, p: nat, base: nat, dst: array<byte>, start: nat, o: nat, end: nat)
      requires Reached(src, p, base) && Feeds(src, base) && Roomy() && Shapes() && After(dst, start, o, end)
      ensures Moving(src, p, base, dst, start, o, end)
    {
    }

    /** A block that was taken is decoded, to where there is room for it. */
    method DecodeSelected(selected: seq<byte>, ghost from: nat, dst: array<byte>, start: nat, op: nat, end: nat)
      returns (o: nat, next: Next)
      requires Whole(selected) && Roomy() && Mapped() && Kept() && Giving(dst, start, op, end)
      requires goal.sound ==> Selected(selected, from)
      modifies `stage, `xxh, `remaining, `decoded, `decodings, `tmpInTarget, `goal, h`past, h`dict, h`dictStart, h`dictSize
      modifies h`tmpOut, h`tmpOutSize, h`tmpOutStart, h`before, h`block, h.tmpOutBuffer, dst
      ensures goal.Aim() == old(goal.Aim()) && goal.pos == old(goal.pos) && (goal.sound ==> next != Fail) && !next.Stop?
      ensures goal.tape == old(goal.tape)
      ensures next != Fail ==> op <= o && After(dst, start, o, end)
      ensures forall j :: 0 <= j < op || end <= j < dst.Length ==> dst[j] == old(dst[j])
    {
      hide Opens, Laid, GoodBlocks, Tails, Selected, Due, History.DictFor, History.Holding, History.Continues,
           Mirrors, Described, Counted, Log, Between, Told, Tallied, Sofar, RawSofar, RenderBlock, Render, Accepted,
           Le;
      var ok, data := CutBlock(selected, from);
      if !ok {
        return op, Fail;
      }
      if end - op >= maxBlockSize {
        o, next := DecodeOut(data, dst, start, op, end);
      } else {
        o := op;
        next := DecodeAside(data);
      }
    }

    method FinishBlock(selected: seq<byte>, ghost from: nat, src: seq<byte>, p: nat, ghost base: nat,
                       dst: array<byte>, start: nat, op: nat, end: nat) returns (o: nat, next: Next)
      requires Mapped() && Gathered(selected, from, src, p, base, dst, start, op, end)
      modifies `stage, `xxh, `remaining, `decoded, `decodings, `tmpInTarget, `goal, h`past, h`dict, h`dictStart, h`dictSize
      modifies h`tmpOut, h`tmpOutSize, h`tmpOutStart, h`before, h`block, h.tmpOutBuffer, dst
      ensures goal.Aim() == old(goal.Aim()) && Stepped(next, src, p, base, dst, start, o, end)
      ensures next != Fail ==> op <= o && next.Again? && Rank(stage) <= Rank(FlushOut)
      ensures forall j :: 0 <= j < op || end <= j < dst.Length ==> dst[j] == old(dst[j])
    {
      hide OnTrack, Opens, Laid, GoodBlocks, Tails, Moving, History.DictFor, History.Flushing, Mirrors, Between, Log,
           Selected, Reads, HasRead, Section, Stored, Skips, Begun, Heads;
      o, next := DecodeSelected(selected, from, dst, start, op, end);
      if next.Again? {
        AfterMoves(src, p, base, dst, start, o, end);
      }
    }

    /** A block was taken, and nothing else has changed. */
    ghost predicate Gathered(selected: seq<byte>, from: nat, src: seq<byte>, p: nat, base: nat,
                             dst: array<byte>, start: nat, op: nat, end: nat)
      reads this, h, h.dict, dst
    {
      && Whole(selected) && Roomy() && Kept() && Shapes() && Giving(dst, start, op, end)
      && Reached(src, p, base) && Feeds(src, base) && (goal.sound ==> Selected(selected, from))
    }

    method GatherDirect(src: seq<byte>, ip: nat, ghost base: nat, dst: array<byte>, start: nat, op: nat, end: nat)
      returns (p: nat, got: bool, selected: seq<byte>, ghost from: nat)
      requires Moving(src, ip, base, dst, start, op, end) && stage == GetCBlock
      modifies `stage, `tmpInSize, `goal
      ensures ip <= p && goal.Aim() == old(goal.Aim())
      ensures !got ==> stage == StoreCBlock && Moving(src, p, base, dst, start, op, end)
      ensures got ==> Gathered(selected, from, src, p, base, dst, start, op, end)
    {
      hide Section, OnTrack, Tails, History.DictFor, Mirrors;
      p, got, selected, from := DoGetCBlock(src, ip, base);
    }

    method GatherStored(src: seq<byte>, ip: nat, ghost base: nat, dst: array<byte>, start: nat, op: nat, end: nat)
      returns (p: nat, got: bool, selected: seq<byte>, ghost from: nat)
      requires Moving(src, ip, base, dst, start, op, end) && stage == StoreCBlock
      modifies `tmpInSize, `goal, tmpIn
      ensures ip <= p && goal.Aim() == old(goal.Aim())
      ensures !got ==> tmpInSize < tmpInTarget && p == |src| && Moving(src, p, base, dst, start, op, end)
      ensures got ==> Gathered(selected, from, src, p, base, dst, start, op, end)
    {
      hide Section, OnTrack, Tails, History.DictFor, Mirrors;
      p, got, selected, from := DoStoreCBlock(src, ip, base);
    }

    method StepGetCBlock(src: seq<byte>, ip: nat, ghost base: nat, dst: array<byte>, start: nat, op: nat, end: nat)
      returns (p: nat, o: nat, next: Next)
      requires Moving(src, ip, base, dst, start, op, end) && Mapped() && stage == GetCBlock
      modifies `stage, `tmpInSize, `xxh, `remaining, `decoded, `decodings, `tmpInTarget, `goal, h`past, h`dict, h`dictStart, h`dictSize
      modifies h`tmpOut, h`tmpOutSize, h`tmpOutStart, h`before, h`block, h.tmpOutBuffer, dst
      ensures goal.Aim() == old(goal.Aim()) && Stepped(next, src, p, base, dst, start, o, end)
      ensures next != Fail ==> ip <= p && op <= o
      ensures next.Again? ==> Rank(stage) < Rank(old(stage))
      ensures forall j :: 0 <= j < op || end <= j < dst.Length ==> dst[j] == old(dst[j])
    {
      hide OnTrack, Bounds, Opens, Laid, GoodBlocks, Hist, Buffers, Mirrors, Tails, Reads, HasRead, Section, Stored,
           Skips, Begun, Heads;
      var got, selected;
      ghost var from;
      p, got, selected, from := GatherDirect(src, ip, base, dst, start, op, end);
      if !got {
        return p, op, Again;
      }
      o, next := FinishBlock(selected, from, src, p, base, dst, start, op, end);
    }

    method StepStoreCBlock(src: seq<byte>, ip: nat, ghost base: nat, dst: array<byte>, start: nat, op: nat, end: nat)
      returns (p: nat, o: nat, next: Next)
      requires Moving(src, ip, base, dst, start, op, end) && Mapped() && stage == StoreCBlock
      modifies `stage, `tmpInSize, `xxh, `remaining, `decoded, `decodings, `tmpInTarget, `goal, h`past, h`dict, h`dictStart, h`dictSize
      modifies h`tmpOut, h`tmpOutSize, h`tmpOutStart, h`before, h`block, h.tmpOutBuffer, dst, tmpIn
      ensures goal.Aim() == old(goal.Aim()) && Stepped(next, src, p, base, dst, start, o, end)
      ensures next != Fail ==> ip <= p && op <= o
      ensures next.Again? ==> Rank(stage) < Rank(old(stage))
      ensures forall j :: 0 <= j < op || end <= j < dst.Length ==> dst[j] == old(dst[j])
    {
      hide OnTrack, Bounds, Opens, Laid, GoodBlocks, Hist, Buffers, Mirrors, Tails, Reads, HasRead, Section, Stored,
           Skips, Begun, Heads;
      var got, selected;
      ghost var from;
      p, got, selected, from := GatherStored(src, ip, base, dst, start, op, end);
      if !got {
        return p, op, Stop(tmpInTarget - tmpInSize + (if blockSums then CHECKSUM else 0) + BLOCK_HEADER);
      }
      o, next := FinishBlock(selected, from, src, p, base, dst, start, op, end);
    }

    method FlushMore(dst: array<byte>, start: nat, op: nat, end: nat, noDst: bool) returns (o: nat, next: Next)
      requires stage == FlushOut && Legal(maxBlockSize) && After(dst, start, op, end) && (noDst ==> op == end)
      modifies `stage, h`past, h`tmpOutStart, h`dict, h`dictStart, h`dictSize, h.tmpOutBuffer, dst
      ensures op <= o && After(dst, start, o, end) && next != Fail
      ensures next.Again? ==> stage == GetBlockHeader
      ensures next.Stop? ==> next.hint != 0 && o == end
      ensures forall j :: 0 <= j < op || end <= j < dst.Length ==> dst[j] == old(dst[j])
    {
      hide Section, Tails, Between, History.DictFor, Mirrors, History.Continues, History.Holding;
      o, next := DoFlushOut(dst, start, op, end, noDst);
    }

    method StepFlush(src: seq<byte>, ip: nat, ghost base: nat, dst: array<byte>, start: nat, op: nat, end: nat, noDst: bool)
      returns (o: nat, next: Next)
      requires Moving(src, ip, base, dst, start, op, end) && stage == FlushOut && (noDst ==> op == end)
      modifies `stage, h`past, h`tmpOutStart, h`dict, h`dictStart, h`dictSize, h.tmpOutBuffer, dst
      ensures Stepped(next, src, ip, base, dst, start, o, end)
      ensures op <= o && (next.Again? ==> Rank(stage) < Rank(old(stage)))
      ensures forall j :: 0 <= j < op || end <= j < dst.Length ==> dst[j] == old(dst[j])
    {
      hide OnTrack, Opens, Laid, GoodBlocks, Tails, Reads, HasRead, Section, Stored, Skips, Begun, Heads;
      FrameKind();
      o, next := FlushMore(dst, start, op, end, noDst);
      AfterMoves(src, ip, base, dst, start, o, end);
    }
  
    ghost predicate Known()
      reads `goal
    {
      Aimed() && Mapped()
    }

    /** The stages of a block. */
    method StepInBlock(src: seq<byte>, ip: nat, ghost base: nat, dst: array<byte>, start: nat, op: nat, end: nat, noDst: bool)
      returns (p: nat, o: nat, next: Next)
      requires Moving(src, ip, base, dst, start, op, end) && Mapped() && InBlocks() && (noDst ==> op == end)
      modifies `stage, `tmpInSize, `tmpInTarget, `blockXxh, `xxh, `remaining, `decoded, `decodings, `goal, header, tmpIn
      modifies h`past, h`dict, h`dictStart, h`dictSize, h`tmpOut, h`tmpOutSize, h`tmpOutStart, h`before, h`block
      modifies h.tmpOutBuffer, dst
      ensures goal.Aim() == old(goal.Aim()) && Stepped(next, src, p, base, dst, start, o, end)
      ensures next != Fail ==> ip <= p && op <= o
      ensures next.Again? ==> p > ip || Rank(stage) < Rank(old(stage))
      ensures forall j :: 0 <= j < op || end <= j < dst.Length ==> dst[j] == old(dst[j])
    {
      hide OnTrack, Bounds, Opens, Laid, GoodBlocks, Hist, Buffers, Mirrors, Tails, Reads, HasRead, Section, Stored,
           Skips, Begun, Heads;
      o := op;
      match stage
      case GetBlockHeader => p, next := StepGetBlockHeader(src, ip, base, dst, start, op, end);
      case StoreBlockHeader => p, next := StepStoreBlockHeader(src, ip, base, dst, start, op, end);
      case CopyDirect => p, o, next := StepCopy(src, ip, base, dst, start, op, end, noDst);
      case GetBlockChecksum => p, next := StepChecksum(src, ip, base, dst, start, op, end);
      case GetCBlock => p, o, next := StepGetCBlock(src, ip, base, dst, start, op, end);
      case StoreCBlock => p, o, next := StepStoreCBlock(src, ip, base, dst, start, op, end);
    }

    /** The stages before the first block, and those of skippable frames. */
    method StepEarly(src: seq<byte>, ip: nat, ghost base: nat, dst: array<byte>, start: nat, op: nat, end: nat)
      returns (p: nat, next: Next)
      requires Moving(src, ip, base, dst, start, op, end) && Known() && Early()
      modifies this, header, h
      ensures goal.Aim() == old(goal.Aim()) && Stepped(next, src, p, base, dst, start, op, end)
      ensures next != Fail ==> ip <= p
      ensures next.Again? ==> p > ip || Rank(stage) < Rank(old(stage))
      ensures tmpIn == old(tmpIn) || fresh(tmpIn)
      ensures h.tmpOutBuffer == old(h.tmpOutBuffer) || fresh(h.tmpOutBuffer)
      ensures h.kept == old(h.kept) && h.taken == old(h.taken) && h.below == old(h.below)
      ensures Owned()
    {
      hide OnTrack, Bounds, Opens, Laid, GoodBlocks, Hist, Buffers, Mirrors, Tails, Reads, HasRead, Section, Stored,
           Skips, Begun, Heads;
      Owns();
      if stage == GetFrameHeader || stage == StoreFrameHeader {
        p, next := StepHeader(src, ip, base, dst, start, op, end);
      } else if stage == Init {
        StepInit(src, ip, base, dst, start, op, end);
        Owns();
        p, next := ip, Again;
      } else {
        p, next := StepSkip(src, ip, base, dst, start, op, end);
      }
    }

    /** The stages after the first. */
    method StepLate(src: seq<byte>, ip: nat, ghost base: nat, dst: array<byte>, start: nat, op: nat, end: nat, noDst: bool)
      returns (p: nat, o: nat, next: Next)
      requires Moving(src, ip, base, dst, start, op, end) && Known() && !Early() && (noDst ==> op == end)
      modifies `stage, `tmpInSize, `tmpInTarget, `blockXxh, `xxh, `remaining, `decoded, `decodings, `goal, header, tmpIn
      modifies h`past, h`dict, h`dictStart, h`dictSize, h`tmpOut, h`tmpOutSize, h`tmpOutStart, h`before, h`block
      modifies h.tmpOutBuffer, dst
      ensures goal.Aim() == old(goal.Aim()) && Stepped(next, src, p, base, dst, start, o, end)
      ensures next != Fail ==> ip <= p && op <= o
      ensures next.Again? ==> p > ip || Rank(stage) < Rank(old(stage))
      ensures forall j :: 0 <= j < op || end <= j < dst.Length ==> dst[j] == old(dst[j])
      ensures Owned()
    {
      hide OnTrack, Bounds, Opens, Laid, GoodBlocks, Hist, Buffers, Mirrors, Tails, Reads, HasRead, Section, Stored,
           Skips, Begun, Heads;
      Owns();
      p, o := ip, op;
      if InBlocks() {
        p, o, next := StepInBlock(src, ip, base, dst, start, op, end, noDst);
      } else if stage == FlushOut {
        o, next := StepFlush(src, ip, base, dst, start, op, end, noDst);
      } else if stage == GetSuffix {
        p, next := StepGetSuffix(src, ip, base, dst, start, op, end);
      } else {
        p, next := StepStoreSuffix(src, ip, base, dst, start, op, end);
      }
    }

    /** One turn of the state machine. */
    method Step(src: seq<byte>, ip: nat, ghost base: nat, dst: array<byte>, start: nat, op: nat, end: nat, noDst: bool)
      returns (p: nat, o: nat, next: Next)
      requires Moving(src, ip, base, dst, start, op, end) && Known() && (noDst ==> op == end)
      modifies this, header, tmpIn, h, h.tmpOutBuffer, dst
      ensures goal.Aim() == old(goal.Aim()) && Stepped(next, src, p, base, dst, start, o, end)
      ensures next != Fail ==> ip <= p && op <= o
      ensures next.Again? ==> p > ip || Rank(stage) < Rank(old(stage))
      ensures tmpIn == old(tmpIn) || fresh(tmpIn)
      ensures h.tmpOutBuffer == old(h.tmpOutBuffer) || fresh(h.tmpOutBuffer)
      ensures h.kept == old(h.kept) && h.taken == old(h.taken) && h.below == old(h.below)
      ensures forall j :: 0 <= j < op || end <= j < dst.Length ==> dst[j] == old(dst[j])
      ensures Owned()
    {
      hide OnTrack, Bounds, Opens, Laid, GoodBlocks, Hist, Buffers, Mirrors, Tails, Reads, HasRead, Section, Stored,
           Skips, Begun, Heads;
      if Early() {
        o := op;
        p, next := StepEarly(src, ip, base, dst, start, op, end);
      } else {
        p, o, next := StepLate(src, ip, base, dst, start, op, end, noDst);
      }
    }
  
    // ---- a call ----

    /** Between calls. The history may lie in a buffer of the caller; then that buffer must not change. */
    ghost predicate Valid()
      reads this, header, tmpIn, h, h.tmpOutBuffer, Lent()
    {
      Bounds() && Buffers() && Hist() && Tracks()
    }

    /** What was delivered of the current frame's content, and how much. */
    ghost function Out(): seq<byte>
      reads `stage, h`past
    {
      if Early() then [] else h.past
    }

    ghost function Delivered(): nat
      reads `stage, h`past
    {
      if Early() then 0 else |h.past|
    }

    /** What a call that does not fail has done, on any stream: with the hint 0, the bytes taken for this
        frame are one that is accepted, and all of its content was given; with another, all that was
        taken and given is kept in mind. */
    ghost predicate Took(hint: nat, tape0: seq<byte>, bytes: seq<byte>, out0: seq<byte>, piece: seq<byte>)
      reads `goal, `stage, h`past
    {
      if hint == 0 then
        Accepted(goal.seen) && tape0 + bytes == Render(x, goal.seen) && out0 + piece == FrameContent(goal.seen)
      else
        goal.tape == tape0 + bytes && Out() == out0 + piece
    }

    /** The state machine, run until it stops. */
    method Run(src: seq<byte>, ghost base: nat, dst: array<byte>, start: nat, end: nat, noDst: bool)
      returns (p: nat, o: nat, next: Next)
      requires Moving(src, 0, base, dst, start, start, end) && Known() && (noDst ==> start == end)
      modifies this, header, tmpIn, h, h.tmpOutBuffer, dst
      ensures goal.Aim() == old(goal.Aim()) && Stepped(next, src, p, base, dst, start, o, end) && !next.Again?
      ensures h.kept == old(h.kept) && h.taken == old(h.taken) && h.below == old(h.below)
      ensures forall j :: 0 <= j < start || end <= j < dst.Length ==> dst[j] == old(dst[j])
      ensures next != Fail ==> p <= |src| && start <= o <= end && Reached(src, p, base)
      ensures next.Stop? && next.hint != 0 ==> p == |src| || o == end
      ensures next == Fail ==> !goal.sound || !goal.Clean()
      ensures tmpIn == old(tmpIn) || fresh(tmpIn)
      ensures h.tmpOutBuffer == old(h.tmpOutBuffer) || fresh(h.tmpOutBuffer)
      ensures Owned()
    {
      hide OnTrack, Hist, Buffers, Bounds, Opens, Laid, Mirrors, Reads, HasRead, Section, Stored, Skips, Begun, Heads;
      Owns();
      p, o, next := 0, start, Again;
      while next.Again?
        invariant Owned()
        invariant Stepped(next, src, p, base, dst, start, o, end) && Known()
        invariant goal.Aim() == old(goal.Aim()) && h.kept == old(h.kept) && h.taken == old(h.taken) && h.below == old(h.below)
        invariant next != Fail ==> start <= o
        invariant noDst && next.Again? ==> o == end
        invariant tmpIn == old(tmpIn) || fresh(tmpIn)
        invariant h.tmpOutBuffer == old(h.tmpOutBuffer) || fresh(h.tmpOutBuffer)
        invariant forall j :: 0 <= j < start || end <= j < dst.Length ==> dst[j] == old(dst[j])
        decreases next.Again?, |src| - p, Rank(stage)
      {
        p, o, next := Step(src, p, base, dst, start, o, end, noDst);
      }
    }
  
    /** What was decoded so far begins the content. */
    lemma DecodedBegins()
      requires goal.sound && OnTrack() && !Early()
      ensures goal.frame.Frame? && decoded <= FrameContent(goal.frame)
    {
      if stage == CopyDirect {
        PartPrefix(goal.frame, goal.at, |goal.frame.blocks[goal.at].data| - tmpInTarget);
      } else if stage == GetBlockChecksum {
        assert goal.frame.blocks[goal.at].data[..|goal.frame.blocks[goal.at].data|] == goal.frame.blocks[goal.at].data;
        PartPrefix(goal.frame, goal.at, |goal.frame.blocks[goal.at].data|);
      } else {
        ContentsPrefix(goal.frame.blocks, goal.at, |goal.frame.blocks|);
      }
    }

    /** What was delivered begins what was decoded. */
    lemma PastBegins()
      requires Hist() && !Early()
      ensures h.past <= decoded
    {
      if stage == FlushOut {
        assert h.before + h.block[..h.tmpOutStart] <= h.before + h.block;
      }
    }

    lemma NotYetEarly()
      requires goal.sound && OnTrack() && Waiting() && Bounds() && Early()
      ensures goal.pos < FrameSize(goal.frame)
    {
      if goal.frame.Frame? {
        PositionsGrow(goal.frame, 0, |goal.frame.blocks|);
      }
    }

    lemma NotYetLate()
      requires goal.sound && OnTrack() && Waiting() && Bounds() && !Early()
      ensures goal.pos < FrameSize(goal.frame)
    {
      BlockEnds(goal.frame, goal.at);
    }

    /** Before the frame is done, some of it is still to come. */
    lemma NotYet()
      requires goal.sound && OnTrack() && Waiting() && Bounds()
      ensures goal.pos < FrameSize(goal.frame)
    {
      if Early() {
        NotYetEarly();
      } else {
        NotYetLate();
      }
    }
  
    /** The end of LZ4F_decompress: unless the caller vouches for his buffer, history moves out of it. */
    method KeepHistory(stableDst: bool)
      requires Buffers() && Hist() && (!Early() ==> Legal(maxBlockSize))
      modifies h`dict, h`dictStart, h`dictSize, h`tmpOut, h.tmpOutBuffer
      ensures Buffers() && Hist()
      ensures !stableDst && linked ==> Lent() <= {h.tmpOutBuffer}
      ensures stableDst ==> h.dict == old(h.dict) && h.dictStart == old(h.dictStart) && h.dictSize == old(h.dictSize)
    {
      if linked && h.dict != h.tmpOutBuffer && h.dict != null && !stableDst && (InBlocks() || stage == FlushOut) {
        h.Preserve(stage == FlushOut);
      }
    }

    /** Where a call may put its output. */
    ghost predicate Accepts(dst: array<byte>, start: nat, end: nat)
      reads this, h
    {
      && start <= end <= dst.Length && dst != header && dst != tmpIn && dst != h.tmpOutBuffer
      && (AtSuffix() || h.Free(dst, start, end))
    }

    /** The books are opened for a call. */
    ghost method Open(dst: array<byte>, start: nat)
      requires Buffers() && Hist()
      modifies h`past, h`kept, h`taken, h`below
      ensures Buffers() && Hist() && h.past == h.kept && |h.kept| == old(Delivered()) && (Early() ==> h.kept == [])
      ensures h.below == h.Behind(dst, start) && h.taken == goal.tape && h.kept == old(Out())
    {
      hide Mirrors, Bears, Legal, Need, Tails, History.InRange, History.Resting, History.Flushing, History.Cleared;
      if Early() {
        h.past := [];
      }
      h.kept, h.taken := h.past, goal.tape;
      h.below := h.Behind(dst, start);
    }

    lemma Opened(src: seq<byte>, dst: array<byte>, start: nat, end: nat)
      requires Valid() && h.past == h.kept && (Early() ==> h.kept == []) && h.taken == goal.tape
      requires h.below == h.Behind(dst, start)
      requires Accepts(dst, start, end) && Feeds(src, goal.pos)
      ensures Moving(src, 0, goal.pos, dst, start, start, end)
    {
      hide OnTrack, Reads;
      assert src[..0] == [];
    }
  
    /** What a call on a valid frame has done when it stops. */
    lemma Result(hint: nat, src: seq<byte>, p: nat, base: nat, dst: array<byte>, start: nat, n: nat, end: nat)
      requires goal.sound && Stepped(Stop(hint), src, p, base, dst, start, start + n, end)
      ensures Hands(dst, start, n, FrameContent(goal.frame), |h.kept|)
      ensures hint == 0 ==> |h.kept| + n == |FrameContent(goal.frame)| && goal.pos == FrameSize(goal.frame)
      ensures hint == 0 ==> stage == GetFrameHeader && goal.Clean() && remaining == (if goal.frame.Frame? then 0 else goal.stale)
      ensures hint == 0 && goal.frame.Frame? ==> Log(goal.frame, |goal.frame.blocks|, decodings)
      ensures hint != 0 ==> Delivered() == |h.kept| + n && goal.pos < FrameSize(goal.frame)
    {
      if hint != 0 {
        ResultSoFar(src, p, base, dst, start, n, end);
        NotYet();
      } else if goal.frame.Frame? {
        TailHands(dst, start, n, h.past, FrameContent(goal.frame), |h.kept|);
      }
    }

    lemma ResultSoFar(src: seq<byte>, p: nat, base: nat, dst: array<byte>, start: nat, n: nat, end: nat)
      requires goal.sound && Moving(src, p, base, dst, start, start + n, end)
      ensures Hands(dst, start, n, FrameContent(goal.frame), |h.kept|) && Delivered() == |h.kept| + n
    {
      if !Early() {
        PastBegins();
        DecodedBegins();
        TailHands(dst, start, n, h.past, FrameContent(goal.frame), |h.kept|);
      }
    }
  
    /** How far a call took the stream and the output; 0 is returned exactly when all of the
        frame was taken. */
    ghost predicate Advances(hint: Option<nat>, g0: Goal, given: nat, consumed: nat, produced: nat)
      reads this, h
    {
      && hint.Some? && goal.frame == g0.frame && goal.stream == g0.stream && goal.stale == g0.stale
      && goal.pos == g0.pos + consumed
      && (hint.value == 0 <==> goal.pos == FrameSize(g0.frame)) && goal.pos <= FrameSize(g0.frame)
      && (if hint.value == 0 then
            given + produced == |FrameContent(g0.frame)| && stage == GetFrameHeader && g0.Clean()
            && remaining == (if g0.frame.Frame? then 0 else g0.stale)
            && (g0.frame.Frame? ==> Log(g0.frame, |g0.frame.blocks|, decodings))
          else goal.sound && Delivered() == given + produced)
    }

    /** What a call hands over: the next part of the content, and no more. */
    ghost predicate Answers(hint: Option<nat>, g0: Goal, given: nat, consumed: nat, dst: array<byte>, start: nat, produced: nat)
      reads this, h, dst
    {
      Advances(hint, g0, given, consumed, produced) && Hands(dst, start, produced, FrameContent(g0.frame), given)
    }

    lemma PieceGiven(dst: array<byte>, start: nat, o: nat)
      requires start <= o <= dst.Length && Mirrors(dst, o, h.past, o - start)
      requires h.kept <= h.past && |h.past| == |h.kept| + o - start
      ensures h.past == h.kept + dst[start..o]
    {
      assert h.past == h.past[..|h.kept|] + h.past[|h.kept|..];
      assert h.past[|h.kept|..] == dst[start..o];
    }

    lemma StoppedTook(hint: nat, src: seq<byte>, p: nat, base: nat, dst: array<byte>, start: nat, o: nat, end: nat)
      requires Stepped(Stop(hint), src, p, base, dst, start, o, end)
      ensures p <= |src| && start <= o <= dst.Length && Took(hint, h.taken, src[..p], h.kept, dst[start..o])
    {
      hide OnTrack, Reads, Opens, Laid, GoodBlocks, Tails, Log, Mirrors, Accepted, Render, FrameSize, History.Clear,
           History.Behind, Hist, Buffers;
      if hint == 0 && goal.seen.Skippable? {
        assert h.kept + dst[start..o] == [];
      } else if hint == 0 {
        PieceGiven(dst, start, o);
      } else if Early() {
        assert h.kept + dst[start..o] == [];
      } else {
        PieceGiven(dst, start, o);
      }
    }

    method CloseDone()
      requires Finished() && Bounds() && Buffers()
      modifies `goal
      ensures Valid() && goal == old(goal).(sound := false, tape := []) && Lent() == {}
    {
      goal := goal.(sound := false, tape := []);
    }

    lemma LentUnlinked()
      requires Hist() && !linked
      ensures Lent() == {}
    {
    }

    method CloseMore(stableDst: bool)
      requires Valid()
      modifies h`dict, h`dictStart, h`dictSize, h`tmpOut, h.tmpOutBuffer
      ensures Valid()
      ensures !stableDst ==> Lent() <= {h.tmpOutBuffer}
      ensures stableDst ==> h.dict == old(h.dict) && h.dictStart == old(h.dictStart) && h.dictSize == old(h.dictSize)
    {
      hide OnTrack, Reads;
      KeepHistory(stableDst);
      if !linked {
        LentUnlinked();
      }
    }

    /** The output so far is behind the history, when it was at first. */
    lemma StoppedBehind(hint: nat, src: seq<byte>, p: nat, base: nat, dst: array<byte>, start: nat, o: nat, end: nat)
      requires Stepped(Stop(hint), src, p, base, dst, start, o, end)
      ensures hint != 0 && h.below ==> h.Behind(dst, o)
    {
    }

    method Close(hint: nat, src: seq<byte>, p: nat, ghost base: nat, dst: array<byte>, start: nat, o: nat, end: nat,
                 stableDst: bool)
      requires Stepped(Stop(hint), src, p, base, dst, start, o, end)
      modifies `goal, h`dict, h`dictStart, h`dictSize, h`tmpOut, h.tmpOutBuffer
      ensures Valid() && (!stableDst ==> Lent() <= {h.tmpOutBuffer})
      ensures goal == if hint == 0 then old(goal).(sound := false, tape := []) else old(goal)
      ensures hint != 0 && stableDst && h.below ==> h.Behind(dst, o)
    {
      hide Stepped, Valid, Finished, Bounds, Buffers, Hist, Lent;
      StoppedBehind(hint, src, p, base, dst, start, o, end);
      StoppedAs(hint, src, p, base, dst, start, o, end);
      if hint == 0 {
        CloseDone();
      } else {
        CloseMore(stableDst);
      }
    }

    lemma StoppedAs(hint: nat, src: seq<byte>, p: nat, base: nat, dst: array<byte>, start: nat, o: nat, end: nat)
      requires Stepped(Stop(hint), src, p, base, dst, start, o, end)
      ensures if hint == 0 then Finished() && Bounds() && Buffers() else Valid()
    {
      hide OnTrack, Giving, Given, Reads, HasRead, Bounds, Buffers, Hist;
    }

    /** The end of a call that stops. */
    method Conclude(hint: nat, src: seq<byte>, p: nat, ghost base: nat, dst: array<byte>, start: nat, o: nat, end: nat,
                    stableDst: bool)
      requires Stepped(Stop(hint), src, p, base, dst, start, o, end) && dst != h.tmpOutBuffer
      modifies `goal, h`dict, h`dictStart, h`dictSize, h`tmpOut, h.tmpOutBuffer
      ensures Valid() && (!stableDst ==> Lent() <= {h.tmpOutBuffer})
      ensures goal == if hint == 0 then old(goal).(sound := false, tape := []) else old(goal)
      ensures hint != 0 && stableDst && h.below ==> h.Behind(dst, o)
      ensures p <= |src| && start <= o <= dst.Length && Took(hint, h.taken, src[..p], h.kept, dst[start..o])
    {
      hide Stepped, Valid, Lent, History.Behind, Accepted, Render, FrameContent, Out;
      StoppedTook(hint, src, p, base, dst, start, o, end);
      Close(hint, src, p, base, dst, start, o, end, stableDst);
    }

    /** The same, and what it means for a valid frame. */
    method Answer(hint: nat, src: seq<byte>, p: nat, ghost base: nat, dst: array<byte>, start: nat, o: nat, end: nat,
                  stableDst: bool, ghost g0: Goal)
      requires Stepped(Stop(hint), src, p, base, dst, start, o, end) && dst != h.tmpOutBuffer && start <= o
      requires goal.Aim() == g0.Aim() && g0.pos == base && goal.pos == base + p
      modifies `goal, h`dict, h`dictStart, h`dictSize, h`tmpOut, h.tmpOutBuffer
      ensures Valid() && (!stableDst ==> Lent() <= {h.tmpOutBuffer})
      ensures hint != 0 && stableDst && h.below ==> h.Behind(dst, o)
      ensures goal.frame == g0.frame && goal.stream == g0.stream && goal.pos == base + p && (goal.sound ==> g0.sound)
      ensures p <= |src| && start <= o <= dst.Length && Took(hint, h.taken, src[..p], h.kept, dst[start..o])
      ensures g0.sound ==> Answers(Some(hint), g0, |h.kept|, p, dst, start, o - start)
    {
      hide Stepped, Valid, Lent, History.Behind, Took, Log, Hands, FrameSize, FrameContent;
      if goal.sound {
        Result(hint, src, p, base, dst, start, o - start, end);
      }
      Conclude(hint, src, p, base, dst, start, o, end, stableDst);
    }

    /** A call after the books are opened. */
    method Serve(src: seq<byte>, ghost base: nat, dst: array<byte>, start: nat, end: nat, noDst: bool, stableDst: bool)
      returns (hint: Option<nat>, consumed: nat, produced: nat)
      requires Moving(src, 0, base, dst, start, start, end) && Known() && (noDst ==> start == end)
      requires dst != h.tmpOutBuffer && goal.pos == base
      modifies this, header, tmpIn, h, h.tmpOutBuffer, dst
      ensures hint.None? ==> (!old(goal.sound) || !old(goal.Clean())) && consumed == 0 && produced == 0
      ensures hint.Some? ==> Valid() && consumed <= |src| && produced <= end - start && goal.pos == base + consumed
      ensures hint.Some? && hint.value != 0 ==> consumed == |src| || start + produced == end
      ensures old(goal.sound) && hint.Some? ==> Answers(hint, old(goal), old(|h.kept|), consumed, dst, start, produced)
      ensures hint.Some? && hint.value != 0 && stableDst && old(h.below) ==> h.Behind(dst, start + produced)
      ensures hint.Some? ==> Took(hint.value, old(h.taken), src[..consumed], old(h.kept), dst[start..start + produced])
      ensures goal.frame == old(goal.frame) && goal.stream == old(goal.stream) && (goal.sound ==> old(goal.sound))
      ensures hint.Some? && !stableDst ==> Lent() <= {h.tmpOutBuffer}
      ensures tmpIn == old(tmpIn) || fresh(tmpIn)
      ensures h.tmpOutBuffer == old(h.tmpOutBuffer) || fresh(h.tmpOutBuffer)
      ensures forall j :: 0 <= j < start || end <= j < dst.Length ==> dst[j] == old(dst[j])
      ensures Owned()
    {
      hide OnTrack, Hist, Buffers, Bounds, Tracks, Valid, Moving, Stepped, Known, Opens, Laid, FrameContent,
           FrameSize, Answers, Took, Lent, Owned, Reads, HasRead, Section, Stored, Skips, Begun, Heads;
      ghost var g0 := goal;
      var p, o, next := Run(src, base, dst, start, end, noDst);
      if next == Fail {
        return None, 0, 0;
      }
      hint, consumed, produced := Some(next.hint), p, o - start;
      Answer(next.hint, src, p, base, dst, start, o, end, stableDst, g0);
    }

    /** What a stream that begins with a valid frame gives the stages to rely on. */
    lemma Maps(f: Frame, stream: seq<byte>)
      requires Opens(x, f, stream)
      ensures f.Frame? ==> Laid(x, f, stream) && SizeKept(f) && GoodBlocks(f)
      ensures f.Skippable? ==> Number(stream, 4, |f.data|)
    {
      if f.Frame? {
        FromStart(x, f, stream);
        LaysOut(x, f, stream);
        ValidIsGood(f);
      } else {
        SkippableAt(x, f, stream);
      }
    }

    /** From here on the context is fed a stream that begins with the valid frame `f`. */
    ghost method Aim(f: Frame, stream: seq<byte>)
      requires Valid() && stage == GetFrameHeader && Opens(x, f, stream)
      modifies `goal
      ensures Valid() && Known() && goal.sound && goal.frame == f && goal.stream == stream && goal.stale == remaining
      ensures goal.pos == goal.at == 0 && Delivered() == 0
    {
      Maps(f, stream);
      goal := goal.(sound := true, frame := f, stream := stream, pos := 0, at := 0, stale := remaining);
    }

    /** A call with some destination. */
    method Call(src: seq<byte>, dst: array<byte>, start: nat, end: nat, noDst: bool, stableDst: bool)
      returns (hint: Option<nat>, consumed: nat, produced: nat)
      requires Valid() && Known() && Feeds(src, goal.pos) && Accepts(dst, start, end) && (noDst ==> start == end)
      modifies this, header, tmpIn, h, h.tmpOutBuffer, dst
      ensures hint.None? ==> (!old(goal.sound) || !old(goal.Clean())) && consumed == 0 && produced == 0
      ensures hint.Some? ==> Valid() && consumed <= |src| && produced <= end - start
      ensures hint.Some? && hint.value != 0 ==> consumed == |src| || start + produced == end
      ensures old(goal.sound) && hint.Some? ==> Answers(hint, old(goal), old(Delivered()), consumed, dst, start, produced)
      ensures hint.Some? && hint.value != 0 && stableDst && old(h.Behind(dst, start)) ==> h.Behind(dst, start + produced)
      ensures hint.Some? ==> Took(hint.value, old(goal.tape), src[..consumed], old(Out()), dst[start..start + produced])
      ensures goal.frame == old(goal.frame) && goal.stream == old(goal.stream) && (goal.sound ==> old(goal.sound))
      ensures hint.Some? && !stableDst ==> Lent() <= {h.tmpOutBuffer}
      ensures tmpIn == old(tmpIn) || fresh(tmpIn)
      ensures h.tmpOutBuffer == old(h.tmpOutBuffer) || fresh(h.tmpOutBuffer)
      ensures forall j :: 0 <= j < start || end <= j < dst.Length ==> dst[j] == old(dst[j])
      ensures Owned()
    {
      hide OnTrack, Hist, Buffers, Bounds, Known, Moving, Answers, Lent, Reads, HasRead, Section, Stored, Skips,
           Begun, Heads;
      ghost var base := goal.pos;
      Open(dst, start);
      Opened(src, dst, start, end);
      hint, consumed, produced := Serve(src, base, dst, start, end, noDst, stableDst);
    }

    /** LZ4F_decompress. No hint means an error; a null destination has no room. */
    method Decompress(src: seq<byte>, dst: array?<byte>, start: nat, capacity: nat, stableDst: bool)
      returns (hint: Option<nat>, consumed: nat, produced: nat)
      requires Valid() && Known() && Feeds(src, goal.pos)
      requires if dst == null then capacity == 0 else Accepts(dst, start, start + capacity)
      modifies this, header, tmpIn, h, h.tmpOutBuffer, dst
      ensures hint.None? ==> (!old(goal.sound) || !old(goal.Clean())) && consumed == 0 && produced == 0
      ensures hint.Some? ==> Valid() && Known() && consumed <= |src| && produced <= capacity
      ensures hint.Some? && hint.value != 0 ==> consumed == |src| || produced == capacity
      ensures old(goal.sound) && hint.Some? ==> Advances(hint, old(goal), old(Delivered()), consumed, produced)
      ensures old(goal.sound) && hint.Some? && dst != null ==> Hands(dst, start, produced, FrameContent(old(goal.frame)), old(Delivered()))
      ensures goal.sound ==> old(goal.sound)
      ensures hint.Some? ==> Took(hint.value, old(goal.tape), src[..consumed], old(Out()), if dst == null then [] else dst[start..start + produced])
      ensures hint.Some? && !stableDst ==> Lent() <= {h.tmpOutBuffer}
      ensures hint.Some? && hint.value != 0 && stableDst && dst != null && old(h.Behind(dst, start)) ==> h.Behind(dst, start + produced)
      ensures tmpIn == old(tmpIn) || fresh(tmpIn)
      ensures h.tmpOutBuffer == old(h.tmpOutBuffer) || fresh(h.tmpOutBuffer)
      ensures dst != null ==> forall j :: 0 <= j < start || start + capacity <= j < dst.Length ==> dst[j] == old(dst[j])
      ensures Owned()
    {
      hide OnTrack, Opens, Laid, GoodBlocks, Advances, Hands, Delivered, Took, Out, Reads, HasRead, Section, Stored,
           Skips, Begun, Heads;
      if dst == null {
        var none := new byte[0];
        hint, consumed, produced := Call(src, none, 0, 0, true, stableDst);
        assert none[0..0] == [];
      } else {
        hint, consumed, produced := Call(src, dst, start, start + capacity, false, stableDst);
      }
    }

    /** LZ4F_resetDecompressionContext, at any time, after an error too. It leaves
        frameRemainingSize as it is. */
    method ResetContext()
      requires Owned()
      modifies `stage, `goal, `decodings, h`dict, h`dictSize
      ensures Valid() && stage == GetFrameHeader && remaining == old(remaining) && !goal.sound && Lent() == {}
    {
      Reset();
      decodings := [];
      goal := goal.(sound := false, tape := []);
    }

    /** When just the header was taken, frameRemainingSize is all of the promised size. */
    lemma LeftOver()
      requires Valid() && goal.sound && goal.frame.Frame? && Promised(goal.frame.info) != 0
      requires goal.pos == HeaderSize(goal.frame.info)
      ensures remaining == Promised(goal.frame.info)
    {
      PositionsGrow(goal.frame, 0, |goal.frame.blocks|);
      if !Early() {
        NoBlocksYet();
      }
    }

    /** No output comes before the header is taken. */
    lemma HeaderFirst()
      requires Valid() && goal.sound && goal.frame.Frame? && goal.pos < HeaderSize(goal.frame.info)
      ensures Delivered() == 0
    {
      if !Early() {
        PositionsGrow(goal.frame, 0, goal.at);
      }
    }

    lemma NoBlocksYet()
      requires Valid() && goal.sound && !Early() && goal.frame.Frame? && goal.pos == HeaderSize(goal.frame.info)
      ensures decoded == [] && Counted() && Described()
    {
      if goal.at > 0 {
        AtNext(goal.frame, 0);
        PositionsGrow(goal.frame, 1, goal.at);
      }
    }
  }
}
