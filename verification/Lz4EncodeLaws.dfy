/** Encoding sequences and decoding them gives back what they stand for. */
module Lz4EncodeLaws {
  import opened Bytes
  import opened Lz4Format
  import opened Lz4FormatLaws

  lemma HoldsThree(src: seq<byte>, ip: nat, t: byte, b: seq<byte>, c: seq<byte>)
    requires Holds(src, ip, [t] + b + c)
    ensures ip < |src| && src[ip] == t
    ensures Holds(src, ip + 1, b) && Holds(src, ip + 1 + |b|, c)
  {
    HoldsSplit(src, ip, [t] + b, c);
    HoldsSplit(src, ip, [t], b);
  }

  lemma {:induction false} ReadEncodedRun(src: seq<byte>, ip: nat, x: nat)
    requires Holds(src, ip, EncodeRun(x))
    ensures ReadRun(src, ip) == Some(Run(x, ip + |EncodeRun(x)|))
    decreases x
  {
    if x >= 255 {
      HoldsSplit(src, ip, [255], EncodeRun(x - 255));
      ReadEncodedRun(src, ip + 1, x - 255);
    }
  }

  lemma ReadEncodedField(src: seq<byte>, ip: nat, x: nat)
    requires Holds(src, ip, Extension(x))
    ensures ReadField(Exact, src, ip, Nibble(x)) == Some(Run(x, ip + |Extension(x)|))
  {
    if x >= 15 {
      ReadEncodedRun(src, ip, x - 15);
    }
  }

  lemma TokenParts(hi: nat, lo: nat)
    requires hi <= 15 && lo <= 15
    ensures (hi * 16 + lo) / 16 == hi && (hi * 16 + lo) % 16 == lo
  {
  }

  /** The parts of a head, each at its place. */
  lemma HeadParts(src: seq<byte>, ip: nat, lit: seq<byte>, nibble: nat)
    requires nibble <= 15 && Holds(src, ip, EncodeHead(lit, nibble))
    ensures |EncodeHead(lit, nibble)| == 1 + |Extension(|lit|)| + |lit|
    ensures ip < |src| && src[ip] == Nibble(|lit|) * 16 + nibble
    ensures Holds(src, ip + 1, Extension(|lit|))
    ensures Holds(src, ip + 1 + |Extension(|lit|)|, lit)
  {
    hide Holds;
    HoldsThree(src, ip, Nibble(|lit|) * 16 + nibble, Extension(|lit|), lit);
  }

  /** The head of a sequence reads back as its literals, at the position `p` they have. */
  lemma StepOfHead(src: seq<byte>, ip: nat, lit: seq<byte>, nibble: nat, p: nat)
    requires nibble <= 15 && Holds(src, ip, EncodeHead(lit, nibble))
    requires p == ip + 1 + |Extension(|lit|)|
    ensures Holds(src, p, lit)
    ensures StepAt(Exact, src, ip) == LiteralStep(Exact, src, p, |lit|, nibble)
  {
    hide Holds, EncodeHead, Extension, LiteralStep, ReadField;
    HeadParts(src, ip, lit, nibble);
    TokenParts(Nibble(|lit|), nibble);
    ReadEncodedField(src, ip + 1, |lit|);
  }

  lemma StepOfLiterals(src: seq<byte>, p: nat, lit: seq<byte>, nibble: nat, q: nat)
    requires Holds(src, p, lit) && q == p + |lit|
    ensures q < |src| ==> LiteralStep(Exact, src, p, |lit|, nibble) == MatchStep(Exact, src, q, lit, nibble)
    ensures q == |src| ==> LiteralStep(Exact, src, p, |lit|, nibble) == Last(lit)
  {
    HoldsSlice(src, p, lit);
  }

  /** The end of an encoded match reads back as its offset and length. */
  lemma StepOfMatch(src: seq<byte>, q: nat, s: Sequence)
    requires ValidSequence(s)
    requires Holds(src, q, [s.offset % 256, s.offset / 256] + Extension(s.len - MINMATCH))
    ensures MatchStep(Exact, src, q, s.lit, Nibble(s.len - MINMATCH))
            == More(s.lit, s.offset, s.len, q + 2 + |Extension(s.len - MINMATCH)|)
  {
    var off: seq<byte> := [s.offset % 256, s.offset / 256];
    HoldsSplit(src, q, off, Extension(s.len - MINMATCH));
    HoldsSlice(src, q, off);
    assert src[q..q + 2][1] == off[1];
    ReadEncodedField(src, q + 2, s.len - MINMATCH);
  }

  lemma SequenceParts(src: seq<byte>, ip: nat, s: Sequence, head: seq<byte>, rest: seq<byte>)
    requires ValidSequence(s) && Holds(src, ip, EncodeSequence(s))
    requires head == EncodeHead(s.lit, Nibble(s.len - MINMATCH))
    requires rest == [s.offset % 256, s.offset / 256] + Extension(s.len - MINMATCH)
    ensures Holds(src, ip, head) && Holds(src, ip + |head|, rest)
    ensures |head| == 1 + |Extension(|s.lit|)| + |s.lit|
    ensures |EncodeSequence(s)| == |head| + 2 + |Extension(s.len - MINMATCH)|
    ensures ip + |head| < |src|
  {
    Assoc(head, [s.offset % 256, s.offset / 256], Extension(s.len - MINMATCH));
    HoldsSplit(src, ip, head, rest);
  }

  /** An encoded sequence reads back as itself. */
  lemma StepOfSequence(src: seq<byte>, ip: nat, s: Sequence)
    requires ValidSequence(s) && Holds(src, ip, EncodeSequence(s))
    ensures StepAt(Exact, src, ip) == More(s.lit, s.offset, s.len, ip + |EncodeSequence(s)|)
  {
    var n := Nibble(s.len - MINMATCH);
    var p := ip + 1 + |Extension(|s.lit|)|;
    var q := p + |s.lit|;
    SequenceParts(src, ip, s, EncodeHead(s.lit, n), [s.offset % 256, s.offset / 256] + Extension(s.len - MINMATCH));
    StepOfHead(src, ip, s.lit, n, p);
    StepOfLiterals(src, p, s.lit, n, q);
    StepOfMatch(src, q, s);
  }

  lemma StepOfLast(src: seq<byte>, ip: nat, lit: seq<byte>)
    requires Holds(src, ip, EncodeLast(lit)) && ip + |EncodeLast(lit)| == |src|
    ensures StepAt(Exact, src, ip) == Last(lit)
  {
    StepOfHead(src, ip, lit, 0, |src| - |lit|);
    StepOfLiterals(src, |src| - |lit|, lit, 0, |src|);
  }

  // ---- whole blocks ----

  /** The block from position `ip` on conforms to the end-of-block rules and decodes to
      `out`, given that `h` precedes it. */
  ghost predicate GoodFrom(src: seq<byte>, ip: nat, h: seq<byte>, out: seq<byte>) {
    Conforms(Exact, src, ip, |h|, |out|) && StrictDecode(Exact, src, ip, h) == Some(out)
  }

  /** A block: an encoded prefix and however it goes on. */
  function Join(prefix: seq<byte>, rest: seq<byte>): seq<byte> {
    prefix + rest
  }

  lemma JoinAssoc(a: seq<byte>, b: seq<byte>, c: seq<byte>)
    ensures Join(a + b, c) == Join(a, b + c)
  {
    Assoc(a, b, c);
  }

  /** An encoded prefix that stands for `done`: however the block goes on, decoding what
      follows after `done` is decoding all of it after `hist`. */
  ghost predicate StandsFor(prefix: seq<byte>, done: seq<byte>, hist: seq<byte>, out: seq<byte>) {
    forall rest: seq<byte> ::
      GoodFrom(Join(prefix, rest), |prefix|, done, out) ==> GoodFrom(Join(prefix, rest), 0, hist, out)
  }

  lemma ConformsMore(src: seq<byte>, ip: nat, n: nat, s: Step, n1: nat, total: nat)
    requires s.More? && StepAt(Exact, src, ip) == s
    requires s.offset <= n + |s.lit| && n + |s.lit| + MFLIMIT <= total
    requires n1 == n + |s.lit| + s.len && n1 + LASTLITERALS <= total
    requires Conforms(Exact, src, s.next, n1, total)
    ensures Conforms(Exact, src, ip, n, total)
  {
  }

  lemma DecodeMore(src: seq<byte>, ip: nat, h: seq<byte>, s: Step, h1: seq<byte>)
    requires s.More? && StepAt(Exact, src, ip) == s
    requires 0 < s.offset <= |h| + |s.lit| && h1 == Repeat(h + s.lit, s.offset, s.len)
    ensures |h1| == |h| + |s.lit| + s.len
    ensures StrictDecode(Exact, src, ip, h) == StrictDecode(Exact, src, s.next, h1)
  {
  }

  lemma GoodStep(src: seq<byte>, ip: nat, h: seq<byte>, step: Step, h1: seq<byte>, out: seq<byte>)
    requires step.More? && StepAt(Exact, src, ip) == step
    requires 0 < step.offset <= |h| + |step.lit| && h1 == Repeat(h + step.lit, step.offset, step.len)
    requires |h| + |step.lit| + MFLIMIT <= |out| && |h1| + LASTLITERALS <= |out|
    requires GoodFrom(src, step.next, h1, out)
    ensures GoodFrom(src, ip, h, out)
  {
    DecodeMore(src, ip, h, step, h1);
    ConformsMore(src, ip, |h|, step, |h1|, |out|);
  }

  /** The encoding of a sequence reads back as it, whatever stands before and after. */
  ghost predicate ReadsAs(prefix: seq<byte>, enc: seq<byte>, s: Sequence) {
    forall rest: seq<byte> ::
      StepAt(Exact, Join(prefix + enc, rest), |prefix|) == More(s.lit, s.offset, s.len, |prefix + enc|)
  }

  lemma SequenceReadsAs(prefix: seq<byte>, s: Sequence)
    requires ValidSequence(s)
    ensures ReadsAs(prefix, EncodeSequence(s), s)
  {
    var enc := EncodeSequence(s);
    forall rest: seq<byte>
      ensures StepAt(Exact, Join(prefix + enc, rest), |prefix|) == More(s.lit, s.offset, s.len, |prefix + enc|)
    {
      var src := Join(prefix + enc, rest);
      HoldsPrefix(src, prefix + enc);
      HoldsSplit(src, 0, prefix, enc);
      StepOfSequence(src, |prefix|, s);
    }
  }

  /** An encoded prefix grows by a sequence that keeps the end-of-block rules. */
  lemma StandsForStep(prefix: seq<byte>, done: seq<byte>, enc: seq<byte>, s: Sequence, done1: seq<byte>,
                      hist: seq<byte>, out: seq<byte>)
    requires StandsFor(prefix, done, hist, out) && ReadsAs(prefix, enc, s)
    requires 0 < s.offset <= |done| + |s.lit| && done1 == Repeat(done + s.lit, s.offset, s.len)
    requires |done| + |s.lit| + MFLIMIT <= |out| && |done1| + LASTLITERALS <= |out|
    ensures StandsFor(prefix + enc, done1, hist, out)
  {
    forall rest: seq<byte> | GoodFrom(Join(prefix + enc, rest), |prefix + enc|, done1, out)
      ensures GoodFrom(Join(prefix + enc, rest), 0, hist, out)
    {
      var src := Join(prefix + enc, rest);
      JoinAssoc(prefix, enc, rest);
      GoodStep(src, |prefix|, done, StepAt(Exact, src, |prefix|), done1, out);
    }
  }

  /** A block closed by its last literals: the format's round trip. */
  lemma StandsForLast(prefix: seq<byte>, done: seq<byte>, lit: seq<byte>, hist: seq<byte>, out: seq<byte>)
    requires StandsFor(prefix, done, hist, out) && out == done + lit
    ensures GoodFrom(prefix + EncodeLast(lit), 0, hist, out)
  {
    var src := Join(prefix, EncodeLast(lit));
    HoldsPrefix(src, src);
    HoldsSplit(src, 0, prefix, EncodeLast(lit));
    StepOfLast(src, |prefix|, lit);
  }
}
