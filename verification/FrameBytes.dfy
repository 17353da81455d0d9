/** The bytes of a frame by their positions and values. */
module FrameBytes {
  import opened Bytes
  import opened FrameFormat

  lemma BlockSizesAre()
    ensures BlockSize(4) == 64 * 1024 && BlockSize(5) == 256 * 1024
    ensures BlockSize(6) == 1024 * 1024 && BlockSize(7) == 4 * 1024 * 1024
  {
  }

  /** The bytes of a 32-bit number, the low one first. */
  function Word(n: nat): seq<byte> {
    [n % 256, n / 0x100 % 256, n / 0x1_0000 % 256, n / 0x100_0000 % 256]
  }

  lemma LeIsWord(n: nat)
    ensures Le(4, n) == Word(n)
  {
    assert Power(0) == 1 && Power(1) == 0x100 && Power(2) == 0x1_0000;
    assert Power(3) == 256 * Power(2);
    LeAt(4, n, 0);
    LeAt(4, n, 1);
    LeAt(4, n, 2);
    LeAt(4, n, 3);
  }

  lemma {:induction false} LeAt(size: nat, n: nat, k: nat)
    requires k < size
    ensures Le(size, n)[k] == n / Power(k) % 256
    decreases k
  {
    if k > 0 {
      LeAt(size - 1, n / 256, k - 1);
      DivTwice(n, Power(k - 1));
    }
  }

  lemma QuotientIs(n: nat, d: nat, q: nat, r: nat)
    requires n == d * q + r && r < d
    ensures n / d == q
  {
    var e := n / d - q;
    assert d * (n / d) == d * q + d * e;
    Small(d, e);
  }

  lemma Small(d: int, e: int)
    requires -d < d * e < d
    ensures e == 0
  {
  }

  lemma DivTwice(n: nat, p: nat)
    requires p > 0
    ensures n / 256 / p == n / (256 * p)
  {
    var q, r := n / 256, n % 256;
    var s, t := q / p, q % p;
    assert n == 256 * (p * s + t) + r;
    assert 256 * (p * s) == (256 * p) * s;
    QuotientIs(n, 256 * p, s, 256 * t + r);
  }

  /** The header: magic number, flags, block size, the sizes that are given, and the checksum of
      what is between. */
  lemma HeaderBytes(x: Xxh, info: Info)
    requires ValidInfo(info)
    ensures var h := Header(x, info);
      && |h| == 7 + (if info.size.Some? then 8 else 0) + (if info.dictId.Some? then 4 else 0)
      && h[0] == 0x04 && h[1] == 0x22 && h[2] == 0x4D && h[3] == 0x18
      && h[4] == 0x40 + (if info.linked then 0 else 0x20) + (if info.blockSums then 0x10 else 0)
                 + (if info.size.Some? then 8 else 0) + (if info.contentSum then 4 else 0) + (if info.dictId.Some? then 1 else 0)
      && h[5] == 16 * info.sizeId
      && (info.size.Some? ==> forall k :: 0 <= k < 8 ==> h[6 + k] == info.size.value / Power(k) % 256)
      && (info.dictId.Some? ==> h[|h| - 5..|h| - 1] == Word(info.dictId.value))
      && h[|h| - 1] == x(h[4..|h| - 1]) / 256 % 256
  {
    var h, d := Header(x, info), Descriptor(info);
    LeIsWord(MAGICNUMBER);
    HeaderParts(x, info);
    if info.size.Some? {
      forall k | 0 <= k < 8 ensures SizeField(info)[k] == info.size.value / Power(k) % 256 {
        LeAt(8, info.size.value, k);
      }
    }
    if info.dictId.Some? {
      LeIsWord(info.dictId.value);
    }
  }

  lemma HeaderParts(x: Xxh, info: Info)
    requires ValidInfo(info)
    ensures var h, s, d := Header(x, info), SizeField(info), DictField(info);
      && |h| == 7 + |s| + |d| && h[..4] == Le(4, MAGICNUMBER) && h[4] == Flg(info) && h[5] == info.sizeId * 16
      && (forall k :: 0 <= k < |s| ==> h[6 + k] == s[k])
      && h[6 + |s|..|h| - 1] == d
      && h[4..|h| - 1] == Descriptor(info) && h[|h| - 1] == x(h[4..|h| - 1]) / 256 % 256
  {
    hide Le, Flg;
    var m, s, d := Le(4, MAGICNUMBER), SizeField(info), DictField(info);
    var h := Header(x, info);
    assert h == m + ([Flg(info), info.sizeId * 16] + s + d) + [HeaderChecksum(x, Descriptor(info))];
    assert h[4..|h| - 1] == Descriptor(info);
  }

  /** A block: its size, with the highest bit set when it is stored as it is, its data, and the
      checksum of its data. */
  lemma BlockBytes(x: Xxh, info: Info, b: Block)
    requires |b.data| < UNCOMPRESSED_FLAG
    ensures RenderBlock(x, info, b)
      == Word(if b.Raw? then |b.data| + 0x8000_0000 else |b.data|) + b.data + if info.blockSums then Word(x(b.data)) else []
  {
    LeIsWord(BlockWord(b));
    LeIsWord(x(b.data));
  }

  /** The end: four zeros, and the checksum of the contents. */
  lemma EndBytes(x: Xxh, f: Frame)
    requires f.Frame?
    ensures Suffix(x, f) == [0, 0, 0, 0] + if f.info.contentSum then Word(x(FrameContent(f))) else []
  {
    LeIsWord(0);
    LeIsWord(x(FrameContent(f)));
  }

  lemma SkippableBytes(x: Xxh, tag: nat, data: seq<byte>)
    requires tag < 16 && |data| < TWO32
    ensures Render(x, Skippable(tag, data)) == [0x50 + tag, 0x2A, 0x4D, 0x18] + Word(|data|) + data
  {
    hide Le, Word;
    LeIsWord(MAGIC_SKIPPABLE_START + tag);
    LeIsWord(|data|);
    SkippableMagicWord(tag);
    Assoc([0x50 + tag, 0x2A, 0x4D, 0x18], Word(|data|), data);
  }

  lemma SkippableMagicWord(tag: nat)
    requires tag < 16
    ensures Word(MAGIC_SKIPPABLE_START + tag) == [0x50 + tag, 0x2A, 0x4D, 0x18]
  {
    var n := MAGIC_SKIPPABLE_START + tag;
    assert n / 0x100 == 0x184D2A && n / 0x1_0000 == 0x184D && n / 0x100_0000 == 0x18;
  }
}
