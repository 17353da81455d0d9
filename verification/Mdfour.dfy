/**
 The incremental MD4 of the cache's hashes: buffering, padding and the length count. The
 compression function itself is a parameter, and everything holds whatever it is.
 */
module Mdfour {
  import opened Bytes

  /** The chaining value: the words A, B, C and D. */
  datatype Chain = Chain(a: nat, b: nat, c: nat, d: nat)

  const BEGIN: Chain := Chain(0x67452301, 0xefcdab89, 0x98badcfe, 0x10325476)

  /** Applies one 64-byte block to a chaining value. */
  type Compression = (Chain, seq<byte>) -> Chain

  // ---- what MD4 is ----

  /** All the whole blocks of a string, in order. */
  function Absorb(f: Compression, c: Chain, bytes: seq<byte>): Chain
    decreases |bytes|
  {
    if |bytes| < 64 then c
    else Absorb(f, f(c, bytes[..64]), bytes[64..])
  }

  function Zeros(n: nat): (z: seq<byte>)
    ensures |z| == n
  {
    seq(n, _ => 0)
  }

  /** A 32-bit word, low-order byte first. */
  function Word(x: nat): (r: seq<byte>)
    ensures |r| == 4
  {
    [x % 256, x / 256 % 256, x / 65536 % 256, x / 16777216 % 256]
  }

  /** How many zero bytes make the length 56 modulo 64. */
  function PadLength(n: nat): (k: nat)
    ensures k < 64 && (n + 1 + k) % 64 == 56
  {
    (119 - n % 64) % 64
  }

  /** The padding of sections 3.1 and 3.2 of RFC 1320: a one bit, zeros up to 448 bits modulo
      512, and the 64-bit count of bits, low-order word first. */
  function Padding(n: nat): seq<byte> {
    var bits := 8 * n % TWO64;
    [0x80] + Zeros(PadLength(n)) + Word(bits % TWO32) + Word(bits / TWO32)
  }

  /** The code's padding has only the low 32 bits of the count, and zeros above them. */
  function CodePadding(n: nat): seq<byte> {
    [0x80] + Zeros(PadLength(n)) + Word(8 * n % TWO32) + Zeros(4)
  }

  function Output(c: Chain): seq<byte> {
    Word(c.a) + Word(c.b) + Word(c.c) + Word(c.d)
  }

  /** The digest of a whole string. */
  function Digest(f: Compression, input: seq<byte>): seq<byte> {
    Output(Absorb(f, BEGIN, input + CodePadding(|input|)))
  }

  /** The digest the RFC defines. */
  function DigestRfc(f: Compression, input: seq<byte>): seq<byte> {
    Output(Absorb(f, BEGIN, input + Padding(|input|)))
  }

  // ---- laws ----

  lemma {:induction false} AbsorbConcat(f: Compression, c: Chain, x: seq<byte>, y: seq<byte>)
    requires |x| % 64 == 0
    ensures Absorb(f, c, x + y) == Absorb(f, Absorb(f, c, x), y)
    decreases |x|
  {
    if |x| >= 64 {
      assert (x + y)[..64] == x[..64];
      assert (x + y)[64..] == x[64..] + y;
      AbsorbConcat(f, f(c, x[..64]), x[64..], y);
    } else {
      assert x + y == y;
    }
  }

  lemma AbsorbOne(f: Compression, c: Chain, block: seq<byte>)
    requires |block| == 64
    ensures Absorb(f, c, block) == f(c, block)
  {
    assert block[..64] == block;
  }

  /** Whole blocks followed by one more block. */
  lemma AbsorbNext(f: Compression, whole: seq<byte>, block: seq<byte>)
    requires |whole| % 64 == 0 && |block| == 64
    ensures Absorb(f, BEGIN, whole + block) == f(Absorb(f, BEGIN, whole), block)
  {
    AbsorbConcat(f, BEGIN, whole, block);
    AbsorbOne(f, Absorb(f, BEGIN, whole), block);
  }

  /** Only the word zero is written as four zero bytes. */
  lemma WordIsZero(x: nat)
    requires x < TWO32
    ensures Word(x) == Zeros(4) <==> x == 0
  {
    if Word(x) == Zeros(4) {
      assert Word(x)[0] == 0 && Word(x)[1] == 0 && Word(x)[2] == 0 && Word(x)[3] == 0;
    }
  }

  lemma HighWord(all: nat)
    requires all < TWO64
    ensures all / TWO32 < TWO32
    ensures all / TWO32 == 0 <==> all < TWO32
  {
  }

  lemma SameLowWord(n: nat)
    ensures 8 * n % TWO32 == (8 * n % TWO64) % TWO32
  {
  }

  /** The code's padding is the RFC's exactly when the count of bits fits 32 bits, which is
      to say below 2^29 bytes (or again after 2^61). */
  lemma PaddingExact(n: nat)
    ensures CodePadding(n) == Padding(n) <==> 8 * n % TWO64 < TWO32
  {
    var all := 8 * n % TWO64;
    SameLowWord(n);
    HighWord(all);
    WordIsZero(all / TWO32);
    var front := [0x80] + Zeros(PadLength(n)) + Word(all % TWO32);
    SameFront(front, Zeros(4), Word(all / TWO32));
  }

  /** So 2^29 bytes are padded otherwise: their bit count is 2^32, of which the code keeps 0. */
  lemma LongPaddingDiffers()
    ensures CodePadding(0x2000_0000) != Padding(0x2000_0000)
  {
    PaddingExact(0x2000_0000);
  }

  lemma SameFront(front: seq<byte>, x: seq<byte>, y: seq<byte>)
    ensures front + x == front + y <==> x == y
  {
    assert (front + x)[|front|..] == x;
    assert (front + y)[|front|..] == y;
  }

  /** Below 2^29 bytes the digest is the RFC's. */
  lemma DigestIsRfc(f: Compression, input: seq<byte>)
    requires |input| < 0x2000_0000
    ensures Digest(f, input) == DigestRfc(f, input)
  {
    SmallCount(|input|);
    PaddingExact(|input|);
  }

  lemma SmallCount(n: nat)
    requires n < 0x2000_0000
    ensures 8 * n % TWO64 < TWO32
  {
  }

  /** What is left over and the padding fill one block when at most 55 bytes are left over,
      and two otherwise. */
  lemma PaddingFills(n: nat)
    ensures (n + |CodePadding(n)|) % 64 == 0
    ensures n % 64 + |CodePadding(n)| == if n % 64 <= 55 then 64 else 128
  {
  }

  /** The four words of the chaining value at the start, as section 3.3 of RFC 1320 writes them. */
  lemma BeginBytes()
    ensures Output(BEGIN) == [0x01, 0x23, 0x45, 0x67, 0x89, 0xab, 0xcd, 0xef, 0xfe, 0xdc, 0xba, 0x98, 0x76, 0x54, 0x32, 0x10]
  {
  }

  /** The sixteen bytes of a digest: the words A, B, C and D, the low-order byte of each first. */
  lemma DigestBytes(f: Compression, input: seq<byte>)
    ensures var d, c := Digest(f, input), Absorb(f, BEGIN, input + CodePadding(|input|));
      && |d| == 16
      && d[0] == c.a % 256 && d[1] == c.a / 0x100 % 256 && d[2] == c.a / 0x1_0000 % 256 && d[3] == c.a / 0x100_0000 % 256
      && d[4] == c.b % 256 && d[5] == c.b / 0x100 % 256 && d[6] == c.b / 0x1_0000 % 256 && d[7] == c.b / 0x100_0000 % 256
      && d[8] == c.c % 256 && d[9] == c.c / 0x100 % 256 && d[10] == c.c / 0x1_0000 % 256 && d[11] == c.c / 0x100_0000 % 256
      && d[12] == c.d % 256 && d[13] == c.d / 0x100 % 256 && d[14] == c.d / 0x1_0000 % 256 && d[15] == c.d / 0x100_0000 % 256
  {
    hide Absorb, CodePadding;
  }

  /** What is hashed, byte by byte: the input, a one bit, zeros, and the low 32 bits of the bit count. */
  lemma PaddedBytes(input: seq<byte>)
    ensures var n := |input|; var p := input + CodePadding(n); var bits := 8 * n % 0x1_0000_0000;
      && |p| % 64 == 0 && n + 9 <= |p| <= n + 72 && p[..n] == input && p[n] == 0x80
      && (forall k :: n < k < |p| - 8 ==> p[k] == 0) && (forall k :: |p| - 4 <= k < |p| ==> p[k] == 0)
      && p[|p| - 8] == bits % 256 && p[|p| - 7] == bits / 0x100 % 256
      && p[|p| - 6] == bits / 0x1_0000 % 256 && p[|p| - 5] == bits / 0x100_0000 % 256
  {
    var n := |input|;
    var z, w := Zeros(PadLength(n)), Word(8 * n % TWO32);
    PaddingFills(n);
    assert CodePadding(n) == [0x80] + z + w + Zeros(4);
  }

  // ---- the code ----

  /** The last block or two: the bytes left over, 0x80, zeros, and the bit count. */
  function LastBlocks(left: seq<byte>, bits: nat): (r: seq<byte>)
    requires |left| < 64
    ensures |r| == if |left| <= 55 then 64 else 128
  {
    left + [0x80] + Zeros((if |left| <= 55 then 55 else 119) - |left|) + Word(bits) + Zeros(4)
  }

  lemma LastBlocksPad(input: seq<byte>, left: seq<byte>, whole: seq<byte>)
    requires |left| < 64 && |whole| % 64 == 0
    requires input == whole + left
    ensures whole + LastBlocks(left, 8 * |input| % TWO32) == input + CodePadding(|input|)
  {
    var n := |input|;
    assert n % 64 == |left|;
    assert (if |left| <= 55 then 55 else 119) - |left| == PadLength(n);
    assert LastBlocks(left, 8 * n % TWO32) == left + CodePadding(n);
    assert whole + (left + CodePadding(n)) == (whole + left) + CodePadding(n);
  }

  /** The state of one hash. */
  class Md4 {
    const f: Compression
    var chain: Chain
    /** The bytes absorbed in whole blocks, modulo 2^64. */
    var totalN: nat
    var tailLen: nat
    const tail: array<byte>
    /** Everything fed in since the start. */
    ghost var input: seq<byte>

    ghost predicate Valid()
      reads this, tail
    {
      && tail.Length == 64
      && tailLen < 64
      && |input| >= tailLen
      && var whole := |input| - tailLen;
      && whole % 64 == 0
      && totalN == whole % TWO64
      && chain == Absorb(f, BEGIN, input[..whole])
      && input[whole..] == tail[..tailLen]
    }

    constructor (f: Compression)
      ensures Valid() && fresh(tail)
      ensures this.f == f && input == []
    {
      this.f := f;
      chain := BEGIN;
      totalN, tailLen := 0, 0;
      tail := new byte[64];
      input := [];
    }

    /** The number of bytes fed in, as the cache's own bookkeeping reads it. */
    function InputSize(): (n: nat)
      requires Valid()
      reads this, tail
      ensures n == |input| % TWO64
    {
      (totalN + tailLen) % TWO64
    }

    /** Feeds more bytes. The state depends only on all the bytes so far, not on how they
        were cut into calls. */
    method Update(bytes: seq<byte>)
      requires Valid()
      modifies this, tail
      ensures Valid()
      ensures input == old(input) + bytes
    {
      var i := 0;
      if tailLen > 0 {
        i := TopUp(bytes);
        if i == |bytes| && tailLen > 0 {
          assert bytes[..i] == bytes;
          return;
        }
      } else {
        assert input == old(input) + bytes[..0];
      }
      while |bytes| - i >= 64
        invariant Valid() && tailLen == 0
        invariant i <= |bytes|
        invariant input == old(input) + bytes[..i]
      {
        Block(bytes[i..i + 64]);
        assert bytes[..i] + bytes[i..i + 64] == bytes[..i + 64];
        i := i + 64;
      }
      Keep(bytes[i..]);
      assert bytes[..i] + bytes[i..] == bytes;
    }

    /** Copies bytes behind those the tail already holds. */
    method Append(bytes: seq<byte>)
      requires tail.Length == 64 && tailLen + |bytes| <= 64
      modifies this`tailLen, tail
      ensures tailLen == old(tailLen) + |bytes|
      ensures tail[..tailLen] == old(tail[..tailLen]) + bytes
    {
      forall k | 0 <= k < |bytes| {
        tail[tailLen + k] := bytes[k];
      }
      tailLen := tailLen + |bytes|;
    }

    /** Fills the tail up; when it is full, absorbs it. */
    method TopUp(bytes: seq<byte>) returns (len: nat)
      requires Valid() && tailLen > 0
      modifies this, tail
      ensures Valid()
      ensures len == Min(64 - old(tailLen), |bytes|)
      ensures tailLen == if old(tailLen) + len == 64 then 0 else old(tailLen) + len
      ensures input == old(input) + bytes[..len]
    {
      len := Min(64 - tailLen, |bytes|);
      ghost var whole := |input| - tailLen;
      ghost var before := input;
      Append(bytes[..len]);
      input := before + bytes[..len];
      assert input[whole..] == before[whole..] + bytes[..len];
      assert input[..whole] == before[..whole];
      if tailLen == 64 {
        assert tail[..] == tail[..64];
        Full(whole, tail[..]);
        chain := f(chain, tail[..]);
        totalN := (totalN + 64) % TWO64;
        tailLen := 0;
      }
    }

    /** The arithmetic of one more whole block. */
    ghost method Full(whole: nat, block: seq<byte>)
      requires |block| == 64 && whole % 64 == 0 && |input| == whole + 64
      requires input[whole..] == block
      ensures Absorb(f, BEGIN, input) == f(Absorb(f, BEGIN, input[..whole]), block)
      ensures input[..whole + 64] == input
      ensures (whole % TWO64 + 64) % TWO64 == (whole + 64) % TWO64
      ensures (whole + 64) % 64 == 0
    {
      assert input[..whole] + block == input;
      AbsorbNext(f, input[..whole], block);
    }

    /** Absorbs one whole block straight from the caller's buffer. */
    method Block(block: seq<byte>)
      requires Valid() && tailLen == 0 && |block| == 64
      modifies this
      ensures Valid() && tailLen == 0
      ensures input == old(input) + block
    {
      ghost var whole := |input|;
      assert input[..whole] == input;
      input := input + block;
      assert input[..whole] == old(input) && input[whole..] == block;
      Full(whole, block);
      chain := f(chain, block);
      totalN := (totalN + 64) % TWO64;
    }

    /** Keeps what is less than a block. */
    method Keep(bytes: seq<byte>)
      requires Valid() && tailLen == 0 && |bytes| < 64
      modifies this, tail
      ensures Valid()
      ensures input == old(input) + bytes
    {
      ghost var whole := |input|;
      if |bytes| > 0 {
        forall k | 0 <= k < |bytes| {
          tail[k] := bytes[k];
        }
        tailLen := |bytes|;
      }
      input := input + bytes;
      assert tail[..tailLen] == bytes;
      assert input[..whole] == old(input)[..whole] && input[whole..] == bytes;
    }

    /** The digest of everything so far. The state is untouched, so more can follow. */
    method Result() returns (out: seq<byte>)
      requires Valid()
      ensures out == Digest(f, input)
    {
      var n, c := tailLen, chain;
      var bits := (totalN + n) % TWO64 * 8 % TWO32;
      var buf := LastBlocks(tail[..n], bits);
      ghost var whole := input[..|input| - n];
      assert bits == 8 * |input| % TWO32 by { BitCount(|input| - n, n); }
      LastBlocksPad(input, tail[..n], whole);
      AbsorbConcat(f, BEGIN, whole, buf);
      if n <= 55 {
        AbsorbOne(f, c, buf);
        c := f(c, buf);
      } else {
        AbsorbOne(f, f(c, buf[..64]), buf[64..]);
        c := f(c, buf[..64]);
        c := f(c, buf[64..]);
      }
      out := Output(c);
    }
  }

  lemma BitCount(whole: nat, n: nat)
    ensures (whole % TWO64 + n) % TWO64 * 8 % TWO32 == 8 * (whole + n) % TWO32
  {
  }

  /** The concatenation of a list of strings. */
  function Concat(chunks: seq<seq<byte>>): seq<byte> {
    if chunks == [] then [] else Concat(chunks[..|chunks| - 1]) + chunks[|chunks| - 1]
  }

  /** A whole run of updates with a digest taken after each: every digest is that of the
      concatenation so far, however the input was cut. */
  method Run(f: Compression, chunks: seq<seq<byte>>) returns (digests: seq<seq<byte>>, size: nat)
    ensures |digests| == |chunks|
    ensures forall k :: 0 <= k < |chunks| ==> digests[k] == Digest(f, Concat(chunks[..k + 1]))
    ensures size == |Concat(chunks)| % TWO64
  {
    var md := new Md4(f);
    digests := [];
    var i := 0;
    while i < |chunks|
      invariant md.Valid() && md.f == f && fresh(md) && fresh(md.tail)
      invariant i == |digests| <= |chunks|
      invariant md.input == Concat(chunks[..i])
      invariant forall k :: 0 <= k < i ==> digests[k] == Digest(f, Concat(chunks[..k + 1]))
    {
      md.Update(chunks[i]);
      assert chunks[..i + 1][..i] == chunks[..i];
      var digest := md.Result();
      digests := digests + [digest];
      i := i + 1;
    }
    assert chunks[..i] == chunks;
    size := md.InputSize();
  }
}
