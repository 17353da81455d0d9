/**
 The LZ4 block format, described twice: as a byte-at-a-time decoder over the
 encoded string (`Decode`) and as an encoder of sequences (`EncodeSequence`,
 `EncodeLast`). The fast decoder and the greedy compressor are both proved
 against this module.
 */
module Lz4Format {
  import opened Bytes

  const MINMATCH: nat := 4
  const MFLIMIT: nat := 12
  const LASTLITERALS: nat := 5
  const RUN_MASK: nat := 15
  const ML_MASK: nat := 15
  const DISTANCE_MAX: nat := 65535

  /** How wide the sum of a run of length bytes is: unbounded, as the format means
      it, or 32 bits, as the code computes it. */
  datatype Width = Exact | U32

  function Clip(w: Width, x: nat): nat {
    if w.Exact? then x else x % TWO32
  }

  /** A number read from the string, and where reading stopped. */
  datatype Run = Run(sum: nat, next: nat)

  /** The sum of a run of length bytes: 255s and one closing byte below 255. */
  function ReadRun(src: seq<byte>, ip: nat): (r: Option<Run>)
    decreases |src| - ip
    ensures r.Some? ==> ip < r.value.next <= |src|
  {
    if ip >= |src| then None
    else if src[ip] < 255 then Some(Run(src[ip], ip + 1))
    else match ReadRun(src, ip + 1)
      case None => None
      case Some(t) => Some(Run(255 + t.sum, t.next))
  }

  /** A length field: four bits of the token, extended by a run when they are all set. */
  function ReadField(w: Width, src: seq<byte>, ip: nat, nibble: nat): (r: Option<Run>)
    ensures r.Some? && ip <= |src| ==> ip <= r.value.next <= |src|
  {
    if nibble < 15 then Some(Run(nibble, ip))
    else match ReadRun(src, ip)
      case None => None
      case Some(t) => Some(Run(15 + Clip(w, t.sum), t.next))
  }

  datatype Step =
    | Malformed
    | Last(lit: seq<byte>)
    | More(lit: seq<byte>, offset: nat, len: nat, next: nat)

  /** The match half of a sequence, at its offset field. */
  function MatchStep(w: Width, src: seq<byte>, q: nat, lit: seq<byte>, nibble: nat): (s: Step)
    ensures s.More? ==> q + 2 <= s.next <= |src|
    ensures !s.Last?
  {
    if q + 2 > |src| then Malformed
    else match ReadField(w, src, q + 2, nibble)
      case None => Malformed
      case Some(m) => More(lit, Le16(src[q], src[q + 1]), m.sum + MINMATCH, m.next)
  }

  /** The rest of a sequence, at its literals. The last sequence has no match. */
  function LiteralStep(w: Width, src: seq<byte>, p: nat, litLen: nat, nibble: nat): (s: Step)
    ensures s.More? ==> p + litLen + 2 <= s.next <= |src|
  {
    if p + litLen > |src| then Malformed
    else if p + litLen == |src| then Last(src[p..])
    else MatchStep(w, src, p + litLen, src[p..p + litLen], nibble)
  }

  /** One sequence, at its token. */
  function StepAt(w: Width, src: seq<byte>, ip: nat): (s: Step)
    ensures s.More? ==> ip < s.next <= |src|
  {
    if ip >= |src| then Malformed
    else match ReadField(w, src, ip + 1, src[ip] / 16)
      case None => Malformed
      case Some(l) => LiteralStep(w, src, l.next, l.sum, src[ip] % 16)
  }

  /** The byte a match of the given offset produces next. The code gives zero bytes for
      offset 0, which the format leaves invalid. */
  function NextByte(hist: seq<byte>, offset: nat): byte
    requires offset <= |hist|
  {
    if offset == 0 then 0 else hist[|hist| - offset]
  }

  /** Appends `len` bytes, one at a time, each a copy of the byte `offset` back. */
  function Repeat(hist: seq<byte>, offset: nat, len: nat): (r: seq<byte>)
    requires offset <= |hist|
    ensures |r| == |hist| + len && hist <= r
    decreases len
  {
    if len == 0 then hist
    else Repeat(hist + [NextByte(hist, offset)], offset, len - 1)
  }

  /** Decodes from the token at `ip`; `hist` is all that precedes the output position,
      dictionary included. */
  function Decode(w: Width, src: seq<byte>, ip: nat, hist: seq<byte>): Option<seq<byte>>
    decreases |src| - ip
  {
    match StepAt(w, src, ip)
    case Malformed => None
    case Last(lit) => Some(hist + lit)
    case More(lit, offset, len, next) =>
      if offset > |hist| + |lit| then None
      else Decode(w, src, next, Repeat(hist + lit, offset, len))
  }

  /** The same by the letter of the format, in which an offset of 0 is invalid. */
  function StrictDecode(w: Width, src: seq<byte>, ip: nat, hist: seq<byte>): Option<seq<byte>>
    decreases |src| - ip
  {
    match StepAt(w, src, ip)
    case Malformed => None
    case Last(lit) => Some(hist + lit)
    case More(lit, offset, len, next) =>
      if offset == 0 || offset > |hist| + |lit| then None
      else StrictDecode(w, src, next, Repeat(hist + lit, offset, len))
  }

  /** No sequence met while decoding has a match with offset 0. */
  predicate NoZeroOffset(w: Width, src: seq<byte>, ip: nat)
    decreases |src| - ip
  {
    var s := StepAt(w, src, ip);
    s.More? ==> s.offset != 0 && NoZeroOffset(w, src, s.next)
  }

  /** The end-of-block rules: the last match starts at least 12 bytes before the end and
      the last 5 bytes are literals. `n` counts history plus output so far, `total` counts
      history plus all output. */
  predicate Conforms(w: Width, src: seq<byte>, ip: nat, n: nat, total: nat)
    decreases |src| - ip
  {
    match StepAt(w, src, ip)
    case Malformed => false
    case Last(lit) => n + |lit| == total
    case More(lit, offset, len, next) =>
      && offset <= n + |lit|
      && n + |lit| + MFLIMIT <= total
      && n + |lit| + len + LASTLITERALS <= total
      && Conforms(w, src, next, n + |lit| + len, total)
  }

  /** The run of length bytes at `p`, when the token asks for one, sums to less than 2^32. */
  predicate RunFits(src: seq<byte>, p: nat, nibble: nat) {
    nibble < 15 || ReadRun(src, p).None? || ReadRun(src, p).value.sum < TWO32
  }

  /** Both length fields of the sequence at `ip` fit 32 bits. */
  predicate StepFits(src: seq<byte>, ip: nat) {
    ip < |src| ==>
      && RunFits(src, ip + 1, src[ip] / 16)
      && match ReadField(Exact, src, ip + 1, src[ip] / 16)
         case None => true
         case Some(l) => RunFits(src, l.next + l.sum + 2, src[ip] % 16)
  }

  /** No length field met while decoding sums to 2^32 or more. */
  predicate WrapFree(src: seq<byte>, ip: nat)
    decreases |src| - ip
  {
    && StepFits(src, ip)
    && var s := StepAt(Exact, src, ip); (s.More? ==> WrapFree(src, s.next))
  }

  // ---- encoding ----

  datatype Sequence = Sequence(lit: seq<byte>, offset: nat, len: nat)

  function EncodeRun(x: nat): (r: seq<byte>)
    ensures |r| == x / 255 + 1
  {
    if x < 255 then [x] else [255] + EncodeRun(x - 255)
  }

  function Nibble(x: nat): (n: nat)
    ensures n <= 15
  {
    if x < 15 then x else 15
  }

  function Extension(x: nat): (r: seq<byte>)
    ensures |r| == if x < 15 then 0 else (x - 15) / 255 + 1
  {
    if x < 15 then [] else EncodeRun(x - 15)
  }

  predicate ValidSequence(s: Sequence) {
    0 < s.offset <= DISTANCE_MAX && MINMATCH <= s.len
  }

  function EncodeHead(lit: seq<byte>, mlNibble: nat): seq<byte>
    requires mlNibble <= 15
  {
    [Nibble(|lit|) * 16 + mlNibble] + Extension(|lit|) + lit
  }

  function EncodeSequence(s: Sequence): seq<byte>
    requires ValidSequence(s)
  {
    EncodeHead(s.lit, Nibble(s.len - MINMATCH))
      + [s.offset % 256, s.offset / 256] + Extension(s.len - MINMATCH)
  }

  function EncodeLast(lit: seq<byte>): seq<byte> {
    EncodeHead(lit, 0)
  }
}
