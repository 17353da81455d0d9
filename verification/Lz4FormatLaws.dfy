/** Laws of the block format: what encoding and decoding have to do with each other. */
module Lz4FormatLaws {
  import opened Bytes
  import opened Lz4Format

  // ---- copying ----

  /** `Repeat` is the only way to extend `h` so that every new byte equals the one
      `offset` back. */
  lemma {:induction false} RepeatUnique(h: seq<byte>, offset: nat, s: seq<byte>)
    requires offset <= |h| <= |s| && h <= s
    requires forall i :: |h| <= i < |s| ==> s[i] == if offset == 0 then 0 else s[i - offset]
    ensures s == Repeat(h, offset, |s| - |h|)
    decreases |s| - |h|
  {
    if |s| > |h| {
      var h' := h + [NextByte(h, offset)];
      assert s[|h|] == NextByte(h, offset);
      assert h' <= s;
      RepeatUnique(h', offset, s);
    } else {
      assert s == h;
    }
  }

  lemma {:induction false} RepeatAt(h: seq<byte>, offset: nat, len: nat, i: nat)
    requires offset <= |h| <= i < |h| + len
    ensures Repeat(h, offset, len)[i] == if offset == 0 then 0 else Repeat(h, offset, len)[i - offset]
    decreases len
  {
    var h' := h + [NextByte(h, offset)];
    assert h' <= Repeat(h', offset, len - 1);
    if i > |h| {
      RepeatAt(h', offset, len - 1, i);
    }
  }

  // ---- 32-bit length sums ----

  lemma {:induction false} FitsSame(src: seq<byte>, ip: nat)
    requires StepFits(src, ip)
    ensures StepAt(U32, src, ip) == StepAt(Exact, src, ip)
  {
  }

  /** A run of length bytes is too short to reach 2^32 in a short enough string. */
  lemma {:induction false} RunBound(src: seq<byte>, ip: nat)
    ensures ReadRun(src, ip).Some? ==> ReadRun(src, ip).value.sum <= 255 * (|src| - ip) - 1
    decreases |src| - ip
  {
    if ip < |src| && src[ip] == 255 {
      RunBound(src, ip + 1);
    }
  }

  /** Sources of at most 16843009 bytes never wrap: 255 * 16843009 is below 2^32. */
  lemma {:induction false} ShortIsWrapFree(src: seq<byte>, ip: nat)
    requires |src| <= 16843009
    ensures WrapFree(src, ip)
    decreases |src| - ip
  {
    if ip < |src| {
      RunBound(src, ip + 1);
      match ReadField(Exact, src, ip + 1, src[ip] / 16)
      case None =>
      case Some(l) =>
        RunBound(src, l.next + l.sum + 2);
        var s := StepAt(Exact, src, ip);
        if s.More? {
          ShortIsWrapFree(src, s.next);
        }
    }
  }

  lemma {:induction false} DecodeGrows(w: Width, src: seq<byte>, ip: nat, hist: seq<byte>)
    ensures Decode(w, src, ip, hist).Some? ==> |Decode(w, src, ip, hist).value| >= |hist|
    decreases |src| - ip
  {
    var s := StepAt(w, src, ip);
    if s.More? && s.offset <= |hist| + |s.lit| {
      DecodeGrows(w, src, s.next, Repeat(hist + s.lit, s.offset, s.len));
    }
  }

  /** The code's decoder agrees with the format exactly when no length field wraps. */
  lemma {:induction false} WrapExact(src: seq<byte>, ip: nat, hist: seq<byte>, out: seq<byte>)
    requires |src| < TWO32 && |out| < TWO32
    requires Decode(U32, src, ip, hist) == Some(out)
    ensures Decode(Exact, src, ip, hist) == Some(out) <==> WrapFree(src, ip)
    decreases |src| - ip
  {
    var s := StepAt(Exact, src, ip);
    if StepFits(src, ip) {
      FitsSame(src, ip);
      if s.More? {
        WrapExact(src, s.next, Repeat(hist + s.lit, s.offset, s.len), out);
      }
    } else if s.More? && s.offset <= |hist| + |s.lit| {
      DecodeGrows(Exact, src, s.next, Repeat(hist + s.lit, s.offset, s.len));
    }
  }

  // ---- offset 0 ----

  /** What the format accepts, the code decodes to the same. */
  lemma {:induction false} StrictIsDecode(w: Width, src: seq<byte>, ip: nat, hist: seq<byte>)
    requires StrictDecode(w, src, ip, hist).Some?
    ensures Decode(w, src, ip, hist) == StrictDecode(w, src, ip, hist)
    decreases |src| - ip
  {
    var s := StepAt(w, src, ip);
    if s.More? {
      StrictIsDecode(w, src, s.next, Repeat(hist + s.lit, s.offset, s.len));
    }
  }

  /** What the code decodes, the format accepts exactly when no match has offset 0. */
  lemma {:induction false} StrictExact(w: Width, src: seq<byte>, ip: nat, hist: seq<byte>, out: seq<byte>)
    requires Decode(w, src, ip, hist) == Some(out)
    ensures StrictDecode(w, src, ip, hist) == Some(out) <==> NoZeroOffset(w, src, ip)
    decreases |src| - ip
  {
    var s := StepAt(w, src, ip);
    if s.More? && s.offset != 0 {
      StrictExact(w, src, s.next, Repeat(hist + s.lit, s.offset, s.len), out);
    }
  }

  /** Both ways of falling short together: what the code decodes is what the format says exactly
      when no length field wraps and no match has offset 0. */
  lemma FormatExact(src: seq<byte>, hist: seq<byte>, out: seq<byte>)
    requires |src| < TWO32 && |out| < TWO32
    requires Decode(U32, src, 0, hist) == Some(out)
    ensures StrictDecode(Exact, src, 0, hist) == Some(out) <==> WrapFree(src, 0) && NoZeroOffset(Exact, src, 0)
  {
    WrapExact(src, 0, hist, out);
    if StrictDecode(Exact, src, 0, hist).Some? {
      StrictIsDecode(Exact, src, 0, hist);
    }
    if WrapFree(src, 0) {
      StrictExact(Exact, src, 0, hist, out);
    }
  }

  /** A literal, a match of four bytes with offset 0, and twelve literals. */
  function ZeroWitness(): seq<byte> {
    [0x10, 65, 0, 0, 0xC0, 1, 2, 3, 4, 5, 6, 7, 8, 9, 10, 11, 12]
  }

  lemma ZeroWitnessSteps(w: Width)
    ensures StepAt(w, ZeroWitness(), 0) == More([65], 0, 4, 4)
    ensures StepAt(w, ZeroWitness(), 4) == Last([1, 2, 3, 4, 5, 6, 7, 8, 9, 10, 11, 12])
  {
    var z := ZeroWitness();
    assert ReadField(w, z, 1, z[0] / 16) == Some(Run(1, 1)) && ReadField(w, z, 4, z[0] % 16) == Some(Run(0, 4));
    assert z[1..2] == [65];
    assert ReadField(w, z, 5, z[4] / 16) == Some(Run(12, 5));
    assert z[5..] == [1, 2, 3, 4, 5, 6, 7, 8, 9, 10, 11, 12];
  }

  lemma FourZeros(h: seq<byte>)
    ensures Repeat(h, 0, 4) == h + [0, 0, 0, 0]
  {
    RepeatUnique(h, 0, h + [0, 0, 0, 0]);
  }

  lemma ZeroWitnessDecodes(w: Width, hist: seq<byte>)
    ensures Decode(w, ZeroWitness(), 0, hist)
            == Some(hist + [65, 0, 0, 0, 0, 1, 2, 3, 4, 5, 6, 7, 8, 9, 10, 11, 12])
  {
    hide StepAt, ZeroWitness, Repeat;
    ZeroWitnessSteps(w);
    FourZeros(hist + [65]);
    var last: seq<byte> := [1, 2, 3, 4, 5, 6, 7, 8, 9, 10, 11, 12];
    var h := hist + [65] + [0, 0, 0, 0];
    assert Decode(w, ZeroWitness(), 4, h) == Some(h + last);
    assert h + last == hist + [65, 0, 0, 0, 0, 1, 2, 3, 4, 5, 6, 7, 8, 9, 10, 11, 12];
  }

  /** The code's reading of it is a conforming block in which the match is four zeros; the format
      refuses it. */
  lemma {:induction false} ZeroOffsetDisagrees(w: Width, hist: seq<byte>)
    ensures Conforms(w, ZeroWitness(), 0, |hist|, |hist| + 17)
    ensures Decode(w, ZeroWitness(), 0, hist)
            == Some(hist + [65, 0, 0, 0, 0, 1, 2, 3, 4, 5, 6, 7, 8, 9, 10, 11, 12])
    ensures StrictDecode(w, ZeroWitness(), 0, hist) == None
    ensures !NoZeroOffset(w, ZeroWitness(), 0)
  {
    hide StepAt, ZeroWitness, Decode;
    ZeroWitnessSteps(w);
    ZeroWitnessDecodes(w, hist);
  }

  // ---- sequences known by heart ----

  /** Token 2F: two literals, an offset with its low-order byte first, and a length of 4 + 15 and
      the run 255, 7. */
  lemma KnownSequence(w: Width, a: byte, b: byte, lo: byte, hi: byte)
    ensures StepAt(w, [0x2F, a, b, lo, hi, 255, 7], 0) == More([a, b], lo as nat + 256 * hi as nat, 281, 7)
  {
    var src := [0x2F, a, b, lo, hi, 255, 7];
    assert ReadRun(src, 6) == Some(Run(7, 7));
    assert ReadRun(src, 5) == Some(Run(262, 7));
    assert src[1..3] == [a, b];
  }

  /** Token F0: 15 literals and the run 1, to the end of the block. */
  lemma KnownLiterals(w: Width, lit: seq<byte>)
    requires |lit| == 16
    ensures StepAt(w, [0xF0, 1] + lit, 0) == Last(lit)
  {
    var src := [0xF0, 1] + lit;
    assert ReadRun(src, 1) == Some(Run(1, 2));
    assert src[2..] == lit;
  }

  // ---- conforming blocks decode ----

  lemma {:induction false} ConformsDecodes(w: Width, src: seq<byte>, ip: nat, hist: seq<byte>, total: nat)
    requires Conforms(w, src, ip, |hist|, total)
    ensures Decode(w, src, ip, hist).Some?
    ensures |Decode(w, src, ip, hist).value| == total
    decreases |src| - ip
  {
    var s := StepAt(w, src, ip);
    if s.More? {
      ConformsDecodes(w, src, s.next, Repeat(hist + s.lit, s.offset, s.len), total);
    }
  }

  /** A conforming block of int-sized length never wraps. */
  lemma {:induction false} ConformsWrapFree(src: seq<byte>, ip: nat, n: nat, total: nat)
    requires |src| < TWO32 && total < TWO32
    requires Conforms(Exact, src, ip, n, total)
    ensures WrapFree(src, ip)
    ensures Conforms(U32, src, ip, n, total)
    decreases |src| - ip
  {
    var s := StepAt(Exact, src, ip);
    FitsSame(src, ip);
    if s.More? {
      ConformsWrapFree(src, s.next, n + |s.lit| + s.len, total);
    }
  }

  /** While at least five bytes are still to come out, at least six are still to go in. */
  lemma {:induction false} ConformsNeedsInput(w: Width, src: seq<byte>, ip: nat, n: nat, total: nat)
    requires Conforms(w, src, ip, n, total)
    requires n + LASTLITERALS <= total
    ensures ip + 6 <= |src|
    decreases |src| - ip
  {
    var s := StepAt(w, src, ip);
    if s.More? {
      ConformsNeedsInput(w, src, s.next, n + |s.lit| + s.len, total);
    }
  }

  // ---- the wrap is real ----

  /** 255 * 16843009 + 1 is 2^32: a literal length field that wraps to 15. */
  function WrapWitness(): seq<byte> {
    [0xF0] + seq(16843009, _ => 255) + [1] + seq(15, _ => 0)
  }

  lemma {:induction false} WitnessRun(ip: nat)
    requires 1 <= ip <= 16843010
    ensures ReadRun(WrapWitness(), ip) == Some(Run(255 * (16843010 - ip) + 1, 16843011))
    decreases 16843010 - ip
  {
    if ip < 16843010 {
      WitnessRun(ip + 1);
    }
  }

  /** The code's reading of the witness is a conforming block of 15 zero bytes; the
      format's reading of it is malformed. */
  lemma {:induction false} WrapWitnessDisagrees(hist: seq<byte>)
    ensures Conforms(U32, WrapWitness(), 0, |hist|, |hist| + 15)
    ensures Decode(U32, WrapWitness(), 0, hist) == Some(hist + seq(15, _ => 0))
    ensures Decode(Exact, WrapWitness(), 0, hist) == None
    ensures !WrapFree(WrapWitness(), 0)
  {
    WitnessRun(1);
    assert WrapWitness()[16843011..] == seq(15, _ => 0);
  }
}
