/** LZ4F_decodeHeader's reading of a frame header. */
module FrameHeader {
  import opened Bytes
  import opened FrameFormat

  /** What the first bytes turn out to be: not a frame, a frame header of which more must be
      seen first, a whole frame header, or the start of a skippable frame. */
  datatype Reading =
    | Bad
    | Short(target: nat)
    | Good(info: Info, size: nat)
    | Skip

  predicate SkippableMagic(n: nat) {
    n / 16 * 16 == MAGIC_SKIPPABLE_START
  }

  /** The header's length, from its flags. */
  function LengthOf(flg: byte): (n: nat)
    ensures MIN_HEADER <= n <= MAX_HEADER
  {
    MIN_HEADER + (if flg / 8 % 2 == 1 then 8 else 0) + (if flg % 2 == 1 then 4 else 0)
  }

  function InfoOf(h: seq<byte>): Info
    requires |h| >= MIN_HEADER && |h| == LengthOf(h[4])
  {
    var flg := h[4];
    Info(flg / 32 % 2 == 0, flg / 16 % 2 == 1, flg / 4 % 2 == 1,
         if flg / 8 % 2 == 1 then Some(LeNum(h[6..14])) else None,
         if flg % 2 == 1 then Some(LeNum(h[|h| - 5..|h| - 1])) else None,
         h[5] / 16 % 8)
  }

  /** The last checks, once the whole header is there. */
  function ReadWhole(x: Xxh, h: seq<byte>): Reading
    requires |h| >= MIN_HEADER && |h| == LengthOf(h[4])
  {
    if h[5] / 128 % 2 != 0 || h[5] / 16 % 8 < 4 || h[5] % 16 != 0 then Bad
    else if HeaderChecksum(x, h[4..|h| - 1]) != h[|h| - 1] then Bad
    else Good(InfoOf(h), |h|)
  }

  function ReadHeader(x: Xxh, src: seq<byte>): Reading
    requires |src| >= MIN_HEADER
  {
    var magic, flg := LeNum(src[..4]), src[4];
    if SkippableMagic(magic) then Skip
    else if magic != MAGICNUMBER then Bad
    else if flg / 2 % 2 != 0 || flg / 64 % 4 != 1 then Bad
    else if |src| < LengthOf(flg) then Short(LengthOf(flg))
    else ReadWhole(x, src[..LengthOf(flg)])
  }

  // ---- flags ----

  lemma FlgBits(info: Info)
    ensures var f := Flg(info);
            && f / 64 % 4 == 1 && f / 2 % 2 == 0 && f / 32 % 2 == Bit(!info.linked) && f / 16 % 2 == Bit(info.blockSums)
            && f / 8 % 2 == Bit(info.size.Some?) && f / 4 % 2 == Bit(info.contentSum) && f % 2 == Bit(info.dictId.Some?)
    ensures LengthOf(Flg(info)) == HeaderSize(info)
  {
  }

  lemma BitsFlg(f: byte)
    requires f / 64 % 4 == 1 && f / 2 % 2 == 0
    ensures f == 64 + 32 * (f / 32 % 2) + 16 * (f / 16 % 2) + 8 * (f / 8 % 2) + 4 * (f / 4 % 2) + f % 2
  {
    LowBits(f);
    HighBits(f);
  }

  lemma LowBits(f: byte)
    ensures f == 8 * (f / 8) + 4 * (f / 4 % 2) + 2 * (f / 2 % 2) + f % 2
  {
  }

  lemma HighBits(f: byte)
    ensures f / 8 == 8 * (f / 64 % 4) + 4 * (f / 32 % 2) + 2 * (f / 16 % 2) + f / 8 % 2
  {
  }

  // ---- a header is read as what it says ----

  /** Where the parts of a header are. */
  lemma Layout(h: seq<byte>, m: seq<byte>, p: byte, q: byte, s: seq<byte>, d: seq<byte>, c: byte)
    requires |m| == 4 && h == m + ([p, q] + s + d) + [c]
    ensures |h| == 7 + |s| + |d| && h[..4] == m && h[4] == p && h[5] == q && h[6 + |s| + |d|] == c
    ensures h[6..6 + |s|] == s
  {
  }

  lemma LayoutEnd(h: seq<byte>, m: seq<byte>, p: byte, q: byte, s: seq<byte>, d: seq<byte>, c: byte)
    requires |m| == 4 && h == m + ([p, q] + s + d) + [c]
    ensures |h| == 7 + |s| + |d| && h[6 + |s|..6 + |s| + |d|] == d && h[4..6 + |s| + |d|] == [p, q] + s + d
  {
  }

  lemma WholeRead(x: Xxh, info: Info)
    requires ValidInfo(info)
    ensures var h := Header(x, info);
            && LeNum(h[..4]) == MAGICNUMBER && h[4] == Flg(info)
            && LengthOf(h[4]) == |h| && ReadWhole(x, h) == Good(info, HeaderSize(info))
  {
    var h, m, s, d := Header(x, info), Le(4, MAGICNUMBER), SizeField(info), DictField(info);
    var c := HeaderChecksum(x, Descriptor(info));
    Layout(h, m, Flg(info), info.sizeId * 16, s, d, c);
    LayoutEnd(h, m, Flg(info), info.sizeId * 16, s, d, c);
    FlgBits(info);
    Powers();
    LeRead(4, MAGICNUMBER);
    FieldsRead(info, h);
  }

  lemma FieldsRead(info: Info, h: seq<byte>)
    requires ValidInfo(info) && |h| == HeaderSize(info) && h[4] == Flg(info) && h[5] == info.sizeId * 16
    requires h[6..6 + |SizeField(info)|] == SizeField(info)
    requires h[6 + |SizeField(info)|..6 + |SizeField(info)| + |DictField(info)|] == DictField(info)
    ensures LengthOf(h[4]) == |h| && InfoOf(h) == info
  {
    FlgBits(info);
    Powers();
    if info.size.Some? {
      LeRead(8, info.size.value);
    }
    if info.dictId.Some? {
      LeRead(4, info.dictId.value);
    }
  }

  /** Of a valid header, enough bytes are read as what it says, and fewer ask for the rest. */
  lemma HeaderRead(x: Xxh, info: Info, src: seq<byte>)
    requires ValidInfo(info) && |src| >= MIN_HEADER
    requires src <= Header(x, info) || Header(x, info) <= src
    ensures ReadHeader(x, src) ==
            if |src| < HeaderSize(info) then Short(HeaderSize(info)) else Good(info, HeaderSize(info))
  {
    WholeRead(x, info);
    FlgBits(info);
    var h := Header(x, info);
    assert src[..4] == h[..4];
    if |src| >= |h| {
      assert src[..|h|] == h;
    }
  }

  // ---- what is read as a header is one ----

  lemma Split(h: seq<byte>, n: nat, k: nat)
    requires |h| == 7 + n + k
    ensures h == h[..4] + ([h[4], h[5]] + h[6..6 + n] + h[6 + n..6 + n + k]) + [h[6 + n + k]]
    ensures h[4..6 + n + k] == [h[4], h[5]] + h[6..6 + n] + h[6 + n..6 + n + k]
  {
  }

  lemma SizeByte(b: byte)
    requires b / 128 % 2 == 0 && b % 16 == 0
    ensures b == b / 16 % 8 * 16
  {
  }

  lemma FieldsExact(h: seq<byte>)
    requires |h| >= MIN_HEADER && |h| == LengthOf(h[4]) && h[5] / 16 % 8 >= 4
    ensures var info := InfoOf(h);
            && ValidInfo(info)
            && |h| == 7 + |SizeField(info)| + |DictField(info)|
            && h[6..6 + |SizeField(info)|] == SizeField(info)
            && h[6 + |SizeField(info)|..6 + |SizeField(info)| + |DictField(info)|] == DictField(info)
  {
    Powers();
    if h[4] / 8 % 2 == 1 {
      ReadLe(h[6..14]);
    }
    if h[4] % 2 == 1 {
      ReadLe(h[|h| - 5..|h| - 1]);
    }
  }

  lemma FlagsExact(h: seq<byte>)
    requires |h| >= MIN_HEADER && |h| == LengthOf(h[4]) && h[4] / 64 % 4 == 1 && h[4] / 2 % 2 == 0
    requires h[5] / 128 % 2 == 0 && h[5] % 16 == 0
    ensures Flg(InfoOf(h)) == h[4] && InfoOf(h).sizeId * 16 == h[5]
  {
    BitsFlg(h[4]);
    SizeByte(h[5]);
  }

  /** A header is accepted only if it is, byte for byte, the header of what was read. */
  lemma HeaderExact(x: Xxh, src: seq<byte>)
    requires |src| >= MIN_HEADER && ReadHeader(x, src).Good?
    ensures var r := ReadHeader(x, src);
            ValidInfo(r.info) && r.size <= |src| && src[..r.size] == Header(x, r.info)
  {
    var h := src[..LengthOf(src[4])];
    var info := InfoOf(h);
    assert h[..4] == src[..4];
    ReadLe(h[..4]);
    FieldsExact(h);
    FlagsExact(h);
    Split(h, |SizeField(info)|, |DictField(info)|);
  }
}
