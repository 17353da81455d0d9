/**
 LZ4_decompress_safe and its relatives: the fast loop, the two-stage shortcut and the
 careful loop, with the C function's labels as the states of a small machine. Proved
 against the byte-at-a-time decoder of Lz4Format.
 */
module Lz4Decompress {
  import opened Bytes
  import opened Lz4Format
  import opened Lz4FormatLaws
  import opened Lz4Copy

  const FASTLOOP_SAFE_DISTANCE: nat := 64
  const MATCH_SAFEGUARD_DISTANCE: nat := 12

  datatype DictMode = NoDict | WithPrefix64k | UsingExtDict

  /** The arguments of the generic decoder. Output goes to dst[start..oend]; what precedes
      it is `dict` followed by dst[histLow..start]; `low` is the C code's lowPrefix. */
  datatype Job = Job(src: seq<byte>, dst: array<byte>, start: nat, oend: nat,
                     histLow: nat, low: int, dict: seq<byte>, mode: DictMode)
  {
    predicate Valid() {
      && histLow <= start <= oend <= dst.Length
      && |src| < 0x8000_0000 && oend - start < 0x8000_0000
      && match mode
         case NoDict => low == histLow && dict == []
         case WithPrefix64k => low == start - KB64 && start - histLow >= KB64 - 1 && dict == []
         case UsingExtDict => low == histLow
    }

    /** Everything that precedes position `op`. */
    ghost function Hist(op: nat): (h: seq<byte>)
      requires Valid() && start <= op <= oend
      reads dst
      ensures |h| == |dict| + op - histLow
    {
      dict + dst[histLow..op]
    }

    /** The offset check of the C code, switched off when the dictionary fills the window. */
    predicate OffsetBad(op: nat, offset: nat) {
      |dict| < KB64 && op - offset + |dict| < low
    }

    /** Whether a match lies in the external dictionary, at least in part. */
    predicate InExtDict(op: nat, offset: nat) {
      mode.UsingExtDict? && op - offset < low
    }
  }

  /** The labels of the C function. */
  datatype Jump =
    | Fail(ip: nat)
    | AtToken(ip: nat, op: nat)
    | AtLiteralCopy(ip: nat, op: nat, token: byte, length: nat)
    | AtOffset(ip: nat, op: nat, token: byte)
    | AtCopyMatch(ip: nat, op: nat, offset: nat, nibble: nat)
    | AtMatchCopy(ip: nat, op: nat, offset: nat, length: nat)
    | Done(op: nat)

  /** The decoder's result once the step at a token is known. */
  ghost function After(src: seq<byte>, s: Step, h0: seq<byte>): Option<seq<byte>> {
    match s
    case Malformed => None
    case Last(lit) => Some(h0 + lit)
    case More(lit, offset, len, next) =>
      if offset > |h0| + |lit| then None
      else Decode(U32, src, next, Repeat(h0 + lit, offset, len))
  }

  /** The rest of `Conforms` once the step at a token is known. */
  ghost predicate Fits(src: seq<byte>, s: Step, n: nat, total: nat) {
    match s
    case Malformed => false
    case Last(lit) => n + |lit| == total
    case More(lit, offset, len, next) =>
      && offset <= n + |lit|
      && n + |lit| + MFLIMIT <= total
      && n + |lit| + len + LASTLITERALS <= total
      && Conforms(U32, src, next, n + |lit| + len, total)
  }

  /** Where the machine stands inside the step `s` that began with history `h0`. */
  ghost predicate At(j: Job, k: Jump, s: Step, h0: seq<byte>)
    requires j.Valid()
    reads j.dst
  {
    match k
    case Fail(ip) => ip <= |j.src|
    case AtToken(ip, op) =>
      && ip < |j.src| && j.start <= op <= j.oend
      && s.More? && s.next == ip && s.offset <= |h0| + |s.lit|
      && j.Hist(op) == Repeat(h0 + s.lit, s.offset, s.len)
    case AtLiteralCopy(ip, op, token, length) =>
      && ip <= |j.src| && j.start <= op <= j.oend
      && j.Hist(op) == h0
      && s == LiteralStep(U32, j.src, ip, length, token % 16)
    case AtOffset(ip, op, token) =>
      && ip + 3 <= |j.src| && j.start <= op && op + 12 <= j.oend
      && h0 <= j.Hist(op)
      && s == MatchStep(U32, j.src, ip, j.Hist(op)[|h0|..], token % 16)
    case AtCopyMatch(ip, op, offset, nibble) =>
      && ip < |j.src| && j.start <= op && op + 12 <= j.oend && offset < KB64 && nibble <= 15
      && h0 <= j.Hist(op)
      && s == (match ReadField(U32, j.src, ip, nibble)
               case None => Malformed
               case Some(m) => More(j.Hist(op)[|h0|..], offset, m.sum + MINMATCH, m.next))
    case AtMatchCopy(ip, op, offset, length) =>
      && ip < |j.src| && j.start <= op && op + 12 <= j.oend && offset < KB64
      && h0 <= j.Hist(op)
      && length >= MINMATCH
      && s == More(j.Hist(op)[|h0|..], offset, length, ip)
    case Done(op) =>
      && j.start <= op <= j.oend
      && h0 <= j.Hist(op)
      && s == Last(j.Hist(op)[|h0|..])
  }

  lemma OffsetCheck(j: Job, op: nat, offset: nat)
    requires j.Valid() && j.start <= op <= j.oend && offset < KB64
    ensures j.OffsetBad(op, offset) <==> offset > |j.Hist(op)|
    ensures !j.OffsetBad(op, offset) && !j.InExtDict(op, offset) ==> offset <= op - j.histLow
  {
  }

  /** A match copied inside the block: `Repeats` on the buffer is `Repeat` on the history. */
  lemma {:induction false} MatchCopied(j: Job, op: nat, cpy: nat, offset: nat)
    requires j.Valid() && j.start <= op <= cpy <= j.oend
    requires offset <= op - j.histLow
    requires Repeats(j.dst[..], op, cpy, offset)
    ensures offset <= |j.Hist(op)|
    ensures j.Hist(cpy) == Repeat(j.Hist(op), offset, cpy - op)
  {
    var x, h := j.Hist(cpy), j.Hist(op);
    forall i | |h| <= i < |x|
      ensures x[i] == if offset == 0 then 0 else x[i - offset]
    {
      var p := i - |j.dict| + j.histLow;
      assert x[i] == j.dst[..][p];
      if offset > 0 {
        assert x[i - offset] == j.dst[p - offset];
      }
    }
    RepeatUnique(h, offset, x);
  }

  // ---- length fields ----

  datatype LengthError = Ok | InitialError | LoopError

  /** All of src[a..b] is 255. */
  ghost predicate AllFull(src: seq<byte>, a: nat, b: nat) {
    a <= b <= |src| && forall i :: a <= i < b ==> src[i] == 255
  }

  lemma {:induction false} FullRun(src: seq<byte>, a: nat, b: nat)
    requires AllFull(src, a, b)
    ensures ReadRun(src, a) == match ReadRun(src, b)
                               case None => None
                               case Some(t) => Some(Run(255 * (b - a) + t.sum, t.next))
    decreases b - a
  {
    if a < b {
      FullRun(src, a + 1, b);
    }
  }

  /** 255 is invertible modulo 2^32. */
  lemma FullRunZero(k: nat)
    requires (255 * k) % TWO32 == 0
    ensures k % TWO32 == 0
  {
    var m := (255 * k) / TWO32;
    assert k == TWO32 * (0xFEFEFEFF * m - 254 * k);
  }

  lemma WrapAdd(a: nat, b: nat)
    ensures (a % TWO32 + b) % TWO32 == (a + b) % TWO32
  {
    assert a == a / TWO32 * TWO32 + a % TWO32;
    assert (a % TWO32 + b) == (a + b) - a / TWO32 * TWO32;
  }

  /** One more byte of a run: it goes on, or its sum is known. */
  lemma RunStep(src: seq<byte>, ip0: nat, ip: nat)
    requires ip < |src| && AllFull(src, ip0, ip)
    ensures src[ip] == 255 ==> AllFull(src, ip0, ip + 1)
    ensures src[ip] != 255 ==> ReadRun(src, ip0) == Some(Run(255 * (ip - ip0) + src[ip], ip + 1))
  {
    FullRun(src, ip0, ip);
  }

  method ReadVariableLength(src: seq<byte>, ip0: nat, lencheck: int, initialCheck: bool)
    returns (ip: nat, length: nat, error: LengthError)
    requires |src| < TWO32 && lencheck <= |src|
    requires ip0 < |src| || initialCheck
    ensures error.InitialError? <==> initialCheck && ip0 >= lencheck
    ensures !error.InitialError? ==> ip0 < ip <= |src|
    ensures error.Ok? ==> ip < lencheck
    ensures error.LoopError? ==> ip >= lencheck
    ensures !error.InitialError? ==>
              || (exists sum: nat :: ReadRun(src, ip0) == Some(Run(sum, ip)) && length == sum % TWO32)
              || (error.LoopError? && AllFull(src, ip0, ip) && length == 255 * (ip - ip0) % TWO32)
  {
    ip, length := ip0, 0;
    if initialCheck && ip >= lencheck {
      return ip, length, InitialError;
    }
    while true
      invariant ip0 <= ip < |src|
      invariant ip == ip0 || ip < lencheck
      invariant AllFull(src, ip0, ip)
      invariant length == 255 * (ip - ip0) % TWO32
      decreases |src| - ip
    {
      var s := src[ip];
      WrapAdd(255 * (ip - ip0), s);
      RunStep(src, ip0, ip);
      ip := ip + 1;
      length := (length + s) % TWO32;
      if ip >= lencheck {
        return ip, length, LoopError;
      }
      if s != 255 {
        return ip, length, Ok;
      }
    }
  }

  /** The literal length at a token, run included. */
  method LiteralLength(j: Job, ip0: nat, token: byte, ghost s: Step) returns (ok: bool, ip: nat, length: nat)
    requires j.Valid() && ip0 < |j.src| && token == j.src[ip0]
    requires s == StepAt(U32, j.src, ip0)
    ensures ok ==> ip0 < ip <= |j.src| && s == LiteralStep(U32, j.src, ip, length, token % 16)
    ensures ok && token / 16 < 15 ==> ip == ip0 + 1 && length == token / 16
    ensures ok && token / 16 == 15 ==> length >= 15
    ensures !ok ==> s == Malformed && ip <= |j.src|
  {
    ip, length := ip0 + 1, token / 16;
    ok := true;
    if length == RUN_MASK {
      var iend := |j.src|;
      var ip', len, error := ReadVariableLength(j.src, ip, iend - RUN_MASK, true);
      if error.InitialError? {
        return false, ip, length;
      }
      if error.LoopError? && AllFull(j.src, ip, ip') {
        FullLiteralRun(j, ip, ip');
      }
      ip, length := ip', length + len;
    }
  }

  /** A run of full bytes cut off near the end leaves too little input for its literals. */
  lemma FullLiteralRun(j: Job, ip: nat, ip': nat)
    requires j.Valid() && ip < ip' && AllFull(j.src, ip, ip') && ip' >= |j.src| - RUN_MASK
    ensures ip' + 15 + 255 * (ip' - ip) % TWO32 > |j.src|
    ensures ReadRun(j.src, ip).Some? ==> ReadRun(j.src, ip).value.next > ip'
  {
    FullRun(j.src, ip, ip');
    if 255 * (ip' - ip) % TWO32 == 0 {
      FullRunZero(ip' - ip);
      assert false;
    }
  }

  // ---- literals ----

  /** Bytes copied to the output extend the history. */
  lemma HistExtends(j: Job, op: nat, op': nat)
    requires j.Valid() && j.start <= op <= op' <= j.oend
    ensures j.Hist(op') == j.Hist(op) + j.dst[op..op']
    ensures j.Hist(op) <= j.Hist(op')
    ensures j.Hist(op')[|j.Hist(op)|..] == j.dst[op..op']
  {
  }

  /** Once the literals are in the output, the machine is at the offset. */
  lemma LiteralsCopied(j: Job, ip: nat, op: nat, token: byte, length: nat, s: Step, h0: seq<byte>)
    requires j.Valid() && j.start <= op && op + length <= j.oend && ip + length <= |j.src|
    requires s == LiteralStep(U32, j.src, ip, length, token % 16)
    requires j.Hist(op) == h0
    requires forall i :: op <= i < op + length ==> j.dst[i] == j.src[i - op + ip]
    ensures ip + length == |j.src| ==> At(j, Done(op + length), s, h0)
    ensures ip + length + 3 <= |j.src| && op + length + 12 <= j.oend ==>
              At(j, AtOffset(ip + length, op + length, token), s, h0)
  {
    HistExtends(j, op, op + length);
    assert j.dst[op..op + length] == j.src[ip..ip + length];
  }

  /** The fast loop's copy of a long run of literals, in strides of 32. */
  method CopyLiterals32(j: Job, k0: Jump, ghost s: Step, ghost h0: seq<byte>) returns (k: Jump)
    requires j.Valid() && k0.AtLiteralCopy? && At(j, k0, s, h0)
    requires k0.op + k0.length + 32 <= j.oend && k0.ip + k0.length + 32 <= |j.src| && k0.length > 0
    modifies j.dst
    ensures k == AtOffset(k0.ip + k0.length, k0.op + k0.length, k0.token) && At(j, k, s, h0)
    ensures forall i :: 0 <= i < k0.op || j.oend <= i < j.dst.Length ==> j.dst[i] == old(j.dst[i])
  {
    WildCopy32In(j.dst, k0.op, j.src, k0.ip, k0.op + k0.length);
    assert j.dst[j.histLow..k0.op] == old(j.dst[j.histLow..k0.op]);
    LiteralsCopied(j, k0.ip, k0.op, k0.token, k0.length, s, h0);
    k := AtOffset(k0.ip + k0.length, k0.op + k0.length, k0.token);
  }

  /** Sixteen bytes flat for at most 15 literals. */
  method CopyLiterals16(j: Job, k0: Jump, ghost s: Step, ghost h0: seq<byte>) returns (k: Jump)
    requires j.Valid() && k0.AtLiteralCopy? && At(j, k0, s, h0)
    requires k0.length <= 14 && k0.ip + 17 <= |j.src| && k0.op + 32 <= j.oend
    modifies j.dst
    ensures k == AtOffset(k0.ip + k0.length, k0.op + k0.length, k0.token) && At(j, k, s, h0)
    ensures forall i :: 0 <= i < k0.op || j.oend <= i < j.dst.Length ==> j.dst[i] == old(j.dst[i])
  {
    CopyIn(j.dst, k0.op, j.src, k0.ip, 16);
    assert j.dst[j.histLow..k0.op] == old(j.dst[j.histLow..k0.op]);
    LiteralsCopied(j, k0.ip, k0.op, k0.token, k0.length, s, h0);
    k := AtOffset(k0.ip + k0.length, k0.op + k0.length, k0.token);
  }

  /** The fast loop's literal copy; near the ends it leaves the work to the careful copy. */
  method FastLiteralCopy(j: Job, k0: Jump, ghost s: Step, ghost h0: seq<byte>) returns (k: Jump)
    requires j.Valid() && k0.AtLiteralCopy? && At(j, k0, s, h0)
    requires k0.op + FASTLOOP_SAFE_DISTANCE <= j.oend
    requires if k0.token / 16 == RUN_MASK then k0.length >= RUN_MASK else k0.length < RUN_MASK
    modifies j.dst
    ensures k == k0 || k == AtOffset(k0.ip + k0.length, k0.op + k0.length, k0.token)
    ensures At(j, k, s, h0)
    ensures forall i :: 0 <= i < k0.op || j.oend <= i < j.dst.Length ==> j.dst[i] == old(j.dst[i])
  {
    var iend := |j.src|;
    if k0.token / 16 == RUN_MASK {
      if k0.op + k0.length > j.oend - 32 || k0.ip + k0.length > iend - 32 {
        k := k0;
      } else {
        k := CopyLiterals32(j, k0, s, h0);
      }
    } else if k0.ip > iend - (16 + 1) {
      k := k0;
    } else {
      k := CopyLiterals16(j, k0, s, h0);
    }
  }

  /** First half of a fast-loop iteration: literal length and literals. */
  method FastLiterals(j: Job, ip0: nat, op0: nat, ghost s: Step, ghost h0: seq<byte>) returns (k: Jump)
    requires j.Valid() && ip0 < |j.src| && j.start <= op0 <= j.oend - FASTLOOP_SAFE_DISTANCE
    requires s == StepAt(U32, j.src, ip0) && h0 == j.Hist(op0)
    modifies j.dst
    ensures k.Fail? || k.AtLiteralCopy? || k.AtOffset?
    ensures At(j, k, s, h0)
    ensures k.Fail? ==> s == Malformed
    ensures k.AtLiteralCopy? ==> k.op == op0 && k.ip > ip0
    ensures k.AtOffset? ==> k.op >= op0 && k.ip > ip0
    ensures forall i :: 0 <= i < op0 || j.oend <= i < j.dst.Length ==> j.dst[i] == old(j.dst[i])
  {
    var token := j.src[ip0];
    var ok, ip, length := LiteralLength(j, ip0, token, s);
    if !ok {
      return Fail(ip);
    }
    k := FastLiteralCopy(j, AtLiteralCopy(ip, op0, token, length), s, h0);
  }

  /** Literals well clear of both ends: an overshooting copy. */
  method CopyLiteralsWild(j: Job, k0: Jump, ghost s: Step, ghost h0: seq<byte>) returns (k: Jump)
    requires j.Valid() && k0.AtLiteralCopy? && At(j, k0, s, h0)
    requires k0.op + k0.length + MFLIMIT <= j.oend && k0.ip + k0.length + (2 + 1 + LASTLITERALS) <= |j.src|
    modifies j.dst
    ensures k == AtOffset(k0.ip + k0.length, k0.op + k0.length, k0.token) && At(j, k, s, h0)
    ensures forall i :: 0 <= i < k0.op || j.oend <= i < j.dst.Length ==> j.dst[i] == old(j.dst[i])
  {
    WildCopy8In(j.dst, k0.op, j.src, k0.ip, k0.op + k0.length);
    assert j.dst[j.histLow..k0.op] == old(j.dst[j.histLow..k0.op]);
    LiteralsCopied(j, k0.ip, k0.op, k0.token, k0.length, s, h0);
    k := AtOffset(k0.ip + k0.length, k0.op + k0.length, k0.token);
  }

  /** The last literals: an exact copy. */
  method CopyLiteralsExact(j: Job, k0: Jump, ghost s: Step, ghost h0: seq<byte>) returns (k: Jump)
    requires j.Valid() && k0.AtLiteralCopy? && At(j, k0, s, h0)
    requires k0.op + k0.length <= j.oend && k0.ip + k0.length == |j.src|
    modifies j.dst
    ensures k == Done(k0.op + k0.length) && At(j, k, s, h0)
    ensures forall i :: 0 <= i < k0.op || j.oend <= i < j.dst.Length ==> j.dst[i] == old(j.dst[i])
  {
    CopyIn(j.dst, k0.op, j.src, k0.ip, k0.length);
    assert j.dst[j.histLow..k0.op] == old(j.dst[j.histLow..k0.op]);
    LiteralsCopied(j, k0.ip, k0.op, k0.token, k0.length, s, h0);
    k := Done(k0.op + k0.length);
  }

  /** The careful literal copy: either well clear of both ends, or the last sequence. */
  method SafeLiteralCopy(j: Job, k0: Jump, ghost s: Step, ghost h0: seq<byte>, ghost total: nat) returns (k: Jump)
    requires j.Valid() && k0.AtLiteralCopy? && At(j, k0, s, h0)
    requires total <= |j.Hist(j.start)| + j.oend - j.start
    modifies j.dst
    ensures k.Fail? || k.Done? || k.AtOffset?
    ensures At(j, k, s, h0)
    ensures k.Fail? ==> !Fits(j.src, s, |h0|, total)
    ensures k.AtOffset? ==> k.op >= k0.op && k.ip >= k0.ip
    ensures forall i :: 0 <= i < k0.op || j.oend <= i < j.dst.Length ==> j.dst[i] == old(j.dst[i])
  {
    var iend := |j.src|;
    var cpy := k0.op + k0.length;
    if cpy > j.oend - MFLIMIT || k0.ip + k0.length > iend - (2 + 1 + LASTLITERALS) {
      if k0.ip + k0.length != iend || cpy > j.oend {
        RejectedLiterals(j, k0, s, h0, total);
        k := Fail(k0.ip);
      } else {
        k := CopyLiteralsExact(j, k0, s, h0);
      }
    } else {
      k := CopyLiteralsWild(j, k0, s, h0);
    }
  }

  /** A conforming block is never turned away at its literals. */
  lemma RejectedLiterals(j: Job, k: Jump, s: Step, h0: seq<byte>, total: nat)
    requires j.Valid() && k.AtLiteralCopy? && At(j, k, s, h0)
    requires total <= |j.Hist(j.start)| + j.oend - j.start
    requires k.op + k.length > j.oend - MFLIMIT || k.ip + k.length > |j.src| - 8
    requires k.ip + k.length != |j.src| || k.op + k.length > j.oend
    ensures !Fits(j.src, s, |h0|, total)
  {
    if s.More? && Fits(j.src, s, |h0|, total) {
      ConformsNeedsInput(U32, j.src, s.next, |h0| + |s.lit| + s.len, total);
      assert false;
    }
  }

  // ---- matches ----

  /** The end of a match with ip after its length field: the next label. */
  ghost predicate Landed(j: Job, k: Jump, s: Step, h0: seq<byte>, total: nat)
    requires j.Valid()
    reads j.dst
  {
    && (k.Fail? || k.AtToken?)
    && At(j, k, s, h0)
    && (k.Fail? ==> !Fits(j.src, s, |h0|, total))
  }

  /** The part of a dictionary match that runs on into the output, byte by byte when it
      overlaps itself. */
  method CopyRest(dst: array<byte>, op0: nat, low: nat, restSize: nat)
    requires low <= op0 && op0 + restSize <= dst.Length
    modifies dst
    ensures forall i :: op0 <= i < op0 + restSize ==> dst[i] == dst[i - (op0 - low)]
    ensures forall i :: 0 <= i < op0 || op0 + restSize <= i < dst.Length ==> dst[i] == old(dst[i])
  {
    var op := op0;
    if restSize > op - low {
      var endOfMatch := op + restSize;
      var copyFrom := low;
      while op < endOfMatch
        invariant op0 <= op <= endOfMatch && op - copyFrom == op0 - low
        invariant low == op0 ==> dst[..] == old(dst[..])
        invariant forall i :: op0 <= i < op ==> dst[i] == dst[i - (op0 - low)]
        invariant forall i :: 0 <= i < op0 || op <= i < dst.Length ==> dst[i] == old(dst[i])
      {
        dst[op] := dst[copyFrom];
        op, copyFrom := op + 1, copyFrom + 1;
      }
    } else {
      CopyWithin(dst, op, low, restSize);
    }
  }

  /** A match that starts in the external dictionary, and may run on into the output. */
  method CopyFromDict(j: Job, op0: nat, offset: nat, length: nat)
    requires j.Valid() && j.start <= op0 && op0 + length <= j.oend
    requires j.InExtDict(op0, offset) && offset <= |j.Hist(op0)|
    modifies j.dst
    ensures offset <= |old(j.Hist(op0))|
    ensures j.Hist(op0 + length) == Repeat(old(j.Hist(op0)), offset, length)
    ensures forall i :: 0 <= i < op0 || op0 + length <= i < j.dst.Length ==> j.dst[i] == old(j.dst[i])
  {
    var inDict := j.low - (op0 - offset);
    var dictEnd := |j.dict|;
    ghost var h := j.Hist(op0);
    if length <= inDict {
      CopyIn(j.dst, op0, j.dict, dictEnd - inDict, length);
    } else {
      CopyIn(j.dst, op0, j.dict, dictEnd - inDict, inDict);
      CopyRest(j.dst, op0 + inDict, j.histLow, length - inDict);
    }
    assert j.dst[j.histLow..op0] == old(j.dst[j.histLow..op0]);
    DictCopied(j, op0, offset, length, Min(length, inDict));
  }

  lemma {:induction false} DictCopied(j: Job, op: nat, offset: nat, length: nat, split: nat)
    requires j.Valid() && j.start <= op && op + length <= j.oend
    requires j.InExtDict(op, offset) && offset <= |j.Hist(op)|
    requires split == Min(length, j.low - (op - offset))
    requires forall i :: op <= i < op + split ==> j.dst[i] == j.dict[i - op + (|j.dict| - (j.low - (op - offset)))]
    requires forall i :: op + split <= i < op + length ==> j.dst[i] == j.dst[i - offset]
    ensures j.Hist(op + length) == Repeat(j.Hist(op), offset, length)
  {
    var x, h := j.Hist(op + length), j.Hist(op);
    forall i | |h| <= i < |x|
      ensures x[i] == x[i - offset]
    {
      var p := i - |j.dict| + j.histLow;
      assert x[i] == j.dst[p];
      if p < op + split {
        assert x[i - offset] == j.dict[i - offset];
      } else {
        assert x[i - offset] == j.dst[p - offset];
      }
    }
    assert h <= x;
    RepeatUnique(h, offset, x);
  }

  /** A match inside the block, within 12 bytes of the end of the buffer. */
  method CopyMatchNearEnd(j: Job, op0: nat, match0: nat, cpy: nat)
    requires j.Valid() && j.start <= op0 && op0 <= j.oend - 4 && match0 + 8 <= op0
    requires j.oend - MATCH_SAFEGUARD_DISTANCE < cpy <= j.oend - LASTLITERALS
    modifies j.dst
    ensures forall i :: op0 <= i < cpy ==> j.dst[i] == j.dst[i - (op0 - match0)]
    ensures forall i :: 0 <= i < op0 || j.oend <= i < j.dst.Length ==> j.dst[i] == old(j.dst[i])
  {
    var op, match_ := op0, match0;
    var oCopyLimit := j.oend - (8 - 1);
    if op < oCopyLimit {
      WildCopy8Within(j.dst, op, match_, oCopyLimit);
      match_ := match_ + (oCopyLimit - op);
      op := oCopyLimit;
    }
    while op < cpy
      invariant op0 <= op && op - match_ == op0 - match0
      invariant op <= j.oend - LASTLITERALS || op == op0
      invariant forall i :: op0 <= i < op ==> j.dst[i] == j.dst[i - (op0 - match0)]
      invariant forall i :: 0 <= i < op0 || j.oend <= i < j.dst.Length ==> j.dst[i] == old(j.dst[i])
    {
      j.dst[op] := j.dst[match_];
      op, match_ := op + 1, match_ + 1;
    }
  }

  /** The first 8 bytes of any match, and the cursor to go on from. */
  method CopyFirst8(dst: array<byte>, op: nat, offset: nat) returns (match_: nat)
    requires offset <= op && op + 8 <= dst.Length
    modifies dst
    ensures match_ + 8 <= op + 8 && match_ == op + 8 - (if offset < 8 then Distance(offset) else offset)
    ensures Repeats(dst[..], op, op + 8, offset)
    ensures forall i :: 0 <= i < op || op + 8 <= i < dst.Length ==> dst[i] == old(dst[i])
  {
    match_ := op - offset;
    if offset < 8 {
      match_ := SpreadFirst8(dst, op, offset);
    } else {
      CopyWithin(dst, op, match_, 8);
      match_ := match_ + 8;
    }
  }

  /** The rest of a match that ends at least 12 bytes before the end of the buffer. */
  method CopyMatchFar(j: Job, op: nat, match_: nat, cpy: nat, length: nat)
    requires j.Valid() && j.start <= op && match_ + 8 <= op && cpy == op - 8 + length && length >= MINMATCH
    requires cpy <= j.oend - MATCH_SAFEGUARD_DISTANCE
    modifies j.dst
    ensures forall i :: op <= i < cpy ==> j.dst[i] == j.dst[i - (op - match_)]
    ensures forall i :: 0 <= i < op || j.oend <= i < j.dst.Length ==> j.dst[i] == old(j.dst[i])
  {
    CopyWithin(j.dst, op, match_, 8);
    if length > 16 {
      WildCopy8Within(j.dst, op + 8, match_ + 8, cpy);
    }
  }

  /** A match inside the block, at the label safe_match_copy. */
  method CopyMatchInBlock(j: Job, op0: nat, offset: nat, length: nat) returns (ok: bool)
    requires j.Valid() && j.start <= op0 && op0 + 12 <= j.oend && length >= MINMATCH
    requires offset <= op0 - j.histLow
    modifies j.dst
    ensures ok <==> op0 + length <= j.oend - LASTLITERALS
    ensures ok ==> Repeats(j.dst[..], op0, op0 + length, offset)
    ensures forall i :: 0 <= i < op0 || j.oend <= i < j.dst.Length ==> j.dst[i] == old(j.dst[i])
  {
    var cpy := op0 + length;
    var match_ := CopyFirst8(j.dst, op0, offset);
    var op := op0 + 8;
    ghost var x := j.dst[..];
    if cpy > j.oend - MATCH_SAFEGUARD_DISTANCE {
      if cpy > j.oend - LASTLITERALS {
        return false;
      }
      CopyMatchNearEnd(j, op, match_, cpy);
    } else {
      CopyMatchFar(j, op, match_, cpy, length);
    }
    assert j.dst[..op] == x[..op];
    MatchStretched(j.dst[..], op0, cpy, offset, op - match_);
    ok := true;
  }

  lemma {:induction false} MatchStretched(x: seq<byte>, op: nat, cpy: nat, offset: nat, dist: nat)
    requires Repeats(x, op, op + 8, offset) && cpy <= |x|
    requires dist == (if offset < 8 then Distance(offset) else offset) && dist <= op + 8
    requires forall i :: op + 8 <= i < cpy ==> x[i] == x[i - dist]
    requires op <= cpy
    ensures Repeats(x, op, cpy, offset)
  {
    if offset < 8 && op + 8 <= cpy {
      StretchRepeats(x, op, op + 8, cpy, offset, if offset == 0 then 8 else FACTOR[offset]);
    }
  }

  /** Once the match is in the output, the machine is at the next token. */
  lemma MatchDone(j: Job, k: Jump, s: Step, h: seq<byte>, h0: seq<byte>, op: nat)
    requires j.Valid() && k.AtMatchCopy? && j.start <= op <= j.oend && k.ip < |j.src| && h0 <= h
    requires s == More(h[|h0|..], k.offset, k.length, k.ip) && k.offset <= |h|
    requires j.Hist(op) == Repeat(h, k.offset, k.length)
    ensures At(j, AtToken(k.ip, op), s, h0)
  {
    assert h0 + s.lit == h;
  }

  /** The same for a match copied inside the block. */
  lemma MatchLanded(j: Job, k: Jump, s: Step, h: seq<byte>, h0: seq<byte>)
    requires j.Valid() && k.AtMatchCopy? && j.start <= k.op && k.op + k.length <= j.oend && k.ip < |j.src|
    requires j.Hist(k.op) == h && h0 <= h && k.offset <= k.op - j.histLow
    requires s == More(h[|h0|..], k.offset, k.length, k.ip)
    requires Repeats(j.dst[..], k.op, k.op + k.length, k.offset)
    ensures At(j, AtToken(k.ip, k.op + k.length), s, h0)
  {
    MatchCopied(j, k.op, k.op + k.length, k.offset);
    MatchDone(j, k, s, h, h0, k.op + k.length);
  }

  method LandFromDict(j: Job, k0: Jump, ghost s: Step, ghost h0: seq<byte>) returns (k: Jump)
    requires j.Valid() && k0.AtMatchCopy? && At(j, k0, s, h0)
    requires !j.OffsetBad(k0.op, k0.offset) && j.InExtDict(k0.op, k0.offset)
    requires k0.op + k0.length <= j.oend - LASTLITERALS
    modifies j.dst
    ensures k == AtToken(k0.ip, k0.op + k0.length) && At(j, k, s, h0)
    ensures forall i :: 0 <= i < k0.op || j.oend <= i < j.dst.Length ==> j.dst[i] == old(j.dst[i])
  {
    ghost var h := j.Hist(k0.op);
    OffsetCheck(j, k0.op, k0.offset);
    CopyFromDict(j, k0.op, k0.offset, k0.length);
    MatchDone(j, k0, s, h, h0, k0.op + k0.length);
    k := AtToken(k0.ip, k0.op + k0.length);
  }

  method LandInBlock(j: Job, k0: Jump, ghost s: Step, ghost h0: seq<byte>) returns (k: Jump)
    requires j.Valid() && k0.AtMatchCopy? && At(j, k0, s, h0)
    requires !j.OffsetBad(k0.op, k0.offset) && !j.InExtDict(k0.op, k0.offset)
    modifies j.dst
    ensures k.Fail? ==> k0.op + k0.length > j.oend - LASTLITERALS
    ensures !k.Fail? ==> k == AtToken(k0.ip, k0.op + k0.length)
    ensures At(j, k, s, h0)
    ensures forall i :: 0 <= i < k0.op || j.oend <= i < j.dst.Length ==> j.dst[i] == old(j.dst[i])
  {
    ghost var h := j.Hist(k0.op);
    OffsetCheck(j, k0.op, k0.offset);
    var ok := CopyMatchInBlock(j, k0.op, k0.offset, k0.length);
    if !ok {
      return Fail(k0.ip);
    }
    assert j.dst[j.histLow..k0.op] == old(j.dst[j.histLow..k0.op]);
    MatchLanded(j, k0, s, h, h0);
    k := AtToken(k0.ip, k0.op + k0.length);
  }

  /** A match too long or too far back is not part of a conforming block. */
  lemma RejectedMatch(j: Job, k: Jump, s: Step, h0: seq<byte>, total: nat)
    requires j.Valid() && k.AtMatchCopy? && At(j, k, s, h0)
    requires total <= |j.Hist(j.start)| + j.oend - j.start
    requires j.OffsetBad(k.op, k.offset) || k.op + k.length > j.oend - LASTLITERALS
    ensures !Fits(j.src, s, |h0|, total)
  {
    OffsetCheck(j, k.op, k.offset);
  }

  /** The label safe_match_copy: offset check, dictionary or in-block copy. */
  method SafeMatchCopy(j: Job, k0: Jump, ghost s: Step, ghost h0: seq<byte>, ghost total: nat) returns (k: Jump)
    requires j.Valid() && k0.AtMatchCopy? && At(j, k0, s, h0)
    requires total <= |j.Hist(j.start)| + j.oend - j.start
    modifies j.dst
    ensures Landed(j, k, s, h0, total)
    ensures k.AtToken? ==> k.ip == k0.ip && k.op == k0.op + k0.length
    ensures forall i :: 0 <= i < k0.op || j.oend <= i < j.dst.Length ==> j.dst[i] == old(j.dst[i])
  {
    if j.OffsetBad(k0.op, k0.offset) || k0.op + k0.length > j.oend - LASTLITERALS {
      RejectedMatch(j, k0, s, h0, total);
    }
    if j.OffsetBad(k0.op, k0.offset) {
      return Fail(k0.ip);
    }
    if j.InExtDict(k0.op, k0.offset) {
      if k0.op + k0.length > j.oend - LASTLITERALS {
        return Fail(k0.ip);
      }
      k := LandFromDict(j, k0, s, h0);
    } else {
      k := LandInBlock(j, k0, s, h0);
    }
  }

  /** The label _copy_match: the match length and then the copy. */
  method CopyMatch(j: Job, k0: Jump, ghost s: Step, ghost h0: seq<byte>, ghost total: nat) returns (k: Jump)
    requires j.Valid() && k0.AtCopyMatch? && At(j, k0, s, h0)
    requires total <= |j.Hist(j.start)| + j.oend - j.start
    ensures k.Fail? || k.AtMatchCopy?
    ensures At(j, k, s, h0)
    ensures k.Fail? ==> !Fits(j.src, s, |h0|, total)
    ensures k.AtMatchCopy? ==> k.ip >= k0.ip && k.op == k0.op
  {
    var AtCopyMatch(ip, op, offset, length) := k0;
    if length == ML_MASK {
      var ip', len, error := ReadVariableLength(j.src, ip, |j.src| - LASTLITERALS + 1, false);
      if !error.Ok? {
        LateMatchLength(j, ip, ip', s, |h0|, total);
        return Fail(ip');
      }
      ip, length := ip', length + len;
    }
    k := AtMatchCopy(ip, op, offset, length + MINMATCH);
  }

  /** A match length that ends within 4 bytes of the input leaves no room for the last
      literals. */
  lemma LateMatchLength(j: Job, ip: nat, ip': nat, s: Step, n: nat, total: nat)
    requires j.Valid() && ip < ip' <= |j.src| && ip' >= |j.src| - LASTLITERALS + 1
    requires s.More? ==> ReadRun(j.src, ip).Some? && s.next == ReadRun(j.src, ip).value.next
    requires (ReadRun(j.src, ip).Some? && ReadRun(j.src, ip).value.next == ip') || AllFull(j.src, ip, ip')
    requires !s.Last?
    ensures !Fits(j.src, s, n, total)
  {
    if s.More? && Fits(j.src, s, n, total) {
      ConformsNeedsInput(U32, j.src, s.next, n + |s.lit| + s.len, total);
      if AllFull(j.src, ip, ip') {
        FullRun(j.src, ip, ip');
      }
      assert false;
    }
  }

  /** Reads the offset. */
  method ReadOffset(j: Job, k0: Jump, ghost s: Step, ghost h0: seq<byte>) returns (k: Jump)
    requires j.Valid() && k0.AtOffset? && At(j, k0, s, h0)
    ensures k.AtCopyMatch? && At(j, k, s, h0)
    ensures k == AtCopyMatch(k0.ip + 2, k0.op, Le16(j.src[k0.ip], j.src[k0.ip + 1]), k0.token % 16)
  {
    k := AtCopyMatch(k0.ip + 2, k0.op, Le16(j.src[k0.ip], j.src[k0.ip + 1]), k0.token % 16);
  }

  /** The fast path for a short match at offset 8 or more inside the block. */
  method LandShort(j: Job, k0: Jump, ghost s: Step, ghost h0: seq<byte>) returns (k: Jump)
    requires j.Valid() && k0.AtMatchCopy? && At(j, k0, s, h0)
    requires k0.op + 18 <= j.oend && k0.length <= 18
    requires (j.mode.WithPrefix64k? || k0.op - k0.offset >= j.low) && k0.offset >= 8
    modifies j.dst
    ensures k == AtToken(k0.ip, k0.op + k0.length) && At(j, k, s, h0)
    ensures forall i :: 0 <= i < k0.op || j.oend <= i < j.dst.Length ==> j.dst[i] == old(j.dst[i])
  {
    ghost var h := j.Hist(k0.op);
    Copy18(j.dst, k0.op, k0.offset);
    assert j.dst[j.histLow..k0.op] == old(j.dst[j.histLow..k0.op]);
    MatchLanded(j, k0, s, h, h0);
    k := AtToken(k0.ip, k0.op + k0.length);
  }

  /** A match inside the block in the fast loop. */
  method LandFast(j: Job, k0: Jump, ghost s: Step, ghost h0: seq<byte>) returns (k: Jump)
    requires j.Valid() && k0.AtMatchCopy? && At(j, k0, s, h0)
    requires k0.op + k0.length + FASTLOOP_SAFE_DISTANCE < j.oend
    requires !j.OffsetBad(k0.op, k0.offset) && !j.InExtDict(k0.op, k0.offset)
    modifies j.dst
    ensures k == AtToken(k0.ip, k0.op + k0.length) && At(j, k, s, h0)
    ensures forall i :: 0 <= i < k0.op || j.oend <= i < j.dst.Length ==> j.dst[i] == old(j.dst[i])
  {
    ghost var h := j.Hist(k0.op);
    OffsetCheck(j, k0.op, k0.offset);
    var cpy := k0.op + k0.length;
    if k0.offset < 16 {
      MemcpyUsingOffset(j.dst, k0.op, cpy, k0.offset);
    } else {
      WildCopy32Within(j.dst, k0.op, k0.op - k0.offset, cpy);
    }
    assert j.dst[j.histLow..k0.op] == old(j.dst[j.histLow..k0.op]);
    MatchLanded(j, k0, s, h, h0);
    k := AtToken(k0.ip, cpy);
  }

  /** Offset check and copy in the fast loop. The C code tests here, too, that a dictionary
      match keeps clear of the last 5 bytes; 64 bytes from the end it always does. */
  method FastMatchCopy(j: Job, k0: Jump, ghost s: Step, ghost h0: seq<byte>, ghost total: nat) returns (k: Jump)
    requires j.Valid() && k0.AtMatchCopy? && At(j, k0, s, h0)
    requires k0.op + k0.length + FASTLOOP_SAFE_DISTANCE < j.oend
    requires total <= |j.Hist(j.start)| + j.oend - j.start
    modifies j.dst
    ensures Landed(j, k, s, h0, total)
    ensures k.AtToken? ==> k.ip == k0.ip && k.op == k0.op + k0.length
    ensures forall i :: 0 <= i < k0.op || j.oend <= i < j.dst.Length ==> j.dst[i] == old(j.dst[i])
  {
    if j.OffsetBad(k0.op, k0.offset) {
      RejectedMatch(j, k0, s, h0, total);
      return Fail(k0.ip);
    }
    if j.InExtDict(k0.op, k0.offset) {
      k := LandFromDict(j, k0, s, h0);
    } else {
      k := LandFast(j, k0, s, h0);
    }
  }

  // ---- the two loops ----

  /** Second half of a fast-loop iteration, at the offset. */
  method FastMatch(j: Job, k0: Jump, ghost s: Step, ghost h0: seq<byte>, ghost total: nat) returns (k: Jump)
    requires j.Valid() && k0.AtOffset? && At(j, k0, s, h0)
    requires total <= |j.Hist(j.start)| + j.oend - j.start
    modifies j.dst
    ensures k.Fail? || k.AtToken? || k.AtMatchCopy?
    ensures At(j, k, s, h0)
    ensures k.Fail? ==> !Fits(j.src, s, |h0|, total)
    ensures k.AtToken? ==> k0.op <= k.op < j.oend - FASTLOOP_SAFE_DISTANCE && k.ip > k0.ip
    ensures k.AtMatchCopy? ==> k.op == k0.op && k.ip > k0.ip
    ensures forall i :: 0 <= i < k0.op || j.oend <= i < j.dst.Length ==> j.dst[i] == old(j.dst[i])
  {
    var k1 := ReadOffset(j, k0, s, h0);
    if k1.nibble == ML_MASK && j.OffsetBad(k1.op, k1.offset) {
      OffsetCheck(j, k1.op, k1.offset);
      return Fail(k1.ip);
    }
    var k2 := CopyMatch(j, k1, s, h0, total);
    if k2.Fail? {
      return k2;
    }
    if k2.op + k2.length >= j.oend - FASTLOOP_SAFE_DISTANCE {
      return k2;
    }
    if k1.nibble != ML_MASK && (j.mode.WithPrefix64k? || k2.op - k2.offset >= j.low) && k2.offset >= 8 {
      k := LandShort(j, k2, s, h0);
    } else {
      k := FastMatchCopy(j, k2, s, h0, total);
    }
  }

  /** The careful loop at a token. The shortcut takes 16 bytes for at most 14 literals, and
      18 bytes for a short match when it can. */
  method SafeToken(j: Job, ip0: nat, op0: nat, ghost s: Step, ghost h0: seq<byte>) returns (k: Jump)
    requires j.Valid() && ip0 < |j.src| && j.start <= op0 <= j.oend
    requires s == StepAt(U32, j.src, ip0) && h0 == j.Hist(op0)
    modifies j.dst
    ensures At(j, k, s, h0)
    ensures k.Fail? || k.AtToken? || k.AtLiteralCopy? || k.AtCopyMatch?
    ensures k.Fail? ==> s == Malformed
    ensures !k.Fail? ==> k.ip > ip0 && k.op >= op0
    ensures forall i :: 0 <= i < op0 || j.oend <= i < j.dst.Length ==> j.dst[i] == old(j.dst[i])
  {
    var token := j.src[ip0];
    var length := token / 16;
    if length != RUN_MASK && ip0 + 1 < |j.src| - 14 - 2 && op0 <= j.oend - 14 - 18 {
      k := Shortcut(j, AtLiteralCopy(ip0 + 1, op0, token, length), s, h0);
    } else {
      var ok, ip, len := LiteralLength(j, ip0, token, s);
      k := if ok then AtLiteralCopy(ip, op0, token, len) else Fail(ip);
    }
  }

  method Shortcut(j: Job, k0: Jump, ghost s: Step, ghost h0: seq<byte>) returns (k: Jump)
    requires j.Valid() && k0.AtLiteralCopy? && At(j, k0, s, h0)
    requires k0.length <= 14 && k0.ip < |j.src| - 16 && k0.op + 32 <= j.oend
    modifies j.dst
    ensures At(j, k, s, h0)
    ensures k.AtToken? || k.AtCopyMatch?
    ensures k.ip >= k0.ip && k.op >= k0.op
    ensures forall i :: 0 <= i < k0.op || j.oend <= i < j.dst.Length ==> j.dst[i] == old(j.dst[i])
  {
    var k1 := CopyLiterals16(j, k0, s, h0);
    var k2 := ReadOffset(j, k1, s, h0);
    if k2.nibble != ML_MASK && k2.offset >= 8 && (j.mode.WithPrefix64k? || k2.op - k2.offset >= j.low) {
      k := LandShort(j, AtMatchCopy(k2.ip, k2.op, k2.offset, k2.nibble + MINMATCH), s, h0);
    } else {
      k := k2;
    }
  }

  /** What both loops keep, at any label: the machine is inside a step of the reference
      decoder, and a block that conforms has not been given up on. */
  ghost predicate Running(j: Job, k: Jump, s: Step, h0: seq<byte>, goal: Option<seq<byte>>, conforms: bool, total: nat)
    requires j.Valid()
    reads j.dst
  {
    && At(j, k, s, h0)
    && goal == After(j.src, s, h0)
    && (conforms ==> !k.Fail? && Fits(j.src, s, |h0|, total))
  }

  /** Where the decoder's answer stands at the token `ip`. */
  ghost predicate Pending(j: Job, ip: nat, op: nat, goal: Option<seq<byte>>, conforms: bool, total: nat)
    requires j.Valid()
    reads j.dst
  {
    && ip < |j.src| && j.start <= op <= j.oend
    && goal == Decode(U32, j.src, ip, j.Hist(op))
    && (conforms ==> Conforms(U32, j.src, ip, |j.Hist(op)|, total))
  }

  /** Reaching the next token turns one step of the reference decoder. */
  lemma NextToken(j: Job, k: Jump, s: Step, h0: seq<byte>, goal: Option<seq<byte>>, conforms: bool, total: nat)
    requires j.Valid() && k.AtToken? && Running(j, k, s, h0, goal, conforms, total)
    ensures Pending(j, k.ip, k.op, goal, conforms, total)
  {
  }

  /** Entering a token: the step begins with the history so far. */
  lemma EnterToken(j: Job, ip: nat, op: nat, goal: Option<seq<byte>>, conforms: bool, total: nat)
    requires j.Valid() && Pending(j, ip, op, goal, conforms, total)
    ensures goal == After(j.src, StepAt(U32, j.src, ip), j.Hist(op))
    ensures conforms ==> Fits(j.src, StepAt(U32, j.src, ip), |j.Hist(op)|, total)
  {
  }

  /** One iteration of the fast loop. */
  method FastStep(j: Job, ip: nat, op: nat, ghost goal: Option<seq<byte>>, ghost conforms: bool, ghost total: nat)
    returns (k: Jump, ghost s: Step, ghost h0: seq<byte>)
    requires j.Valid() && op + FASTLOOP_SAFE_DISTANCE <= j.oend
    requires Pending(j, ip, op, goal, conforms, total)
    requires total <= |j.Hist(j.start)| + j.oend - j.start
    modifies j.dst
    ensures Running(j, k, s, h0, goal, conforms, total)
    ensures k.Fail? || k.AtToken? || k.AtLiteralCopy? || k.AtMatchCopy?
    ensures !k.Fail? ==> k.ip > ip && k.op >= op
    ensures k.AtToken? ==> k.op < j.oend - FASTLOOP_SAFE_DISTANCE
    ensures forall i :: 0 <= i < op || j.oend <= i < j.dst.Length ==> j.dst[i] == old(j.dst[i])
  {
    s, h0 := StepAt(U32, j.src, ip), j.Hist(op);
    EnterToken(j, ip, op, goal, conforms, total);
    k := FastLiterals(j, ip, op, s, h0);
    if k.AtOffset? {
      k := FastMatch(j, k, s, h0, total);
    }
  }

  /** The fast loop: whole sequences while 64 bytes of output are left. */
  method FastLoop(j: Job, ghost goal: Option<seq<byte>>, ghost conforms: bool, ghost total: nat)
    returns (k: Jump, ghost s: Step, ghost h0: seq<byte>)
    requires j.Valid() && j.start + FASTLOOP_SAFE_DISTANCE <= j.oend
    requires Pending(j, 0, j.start, goal, conforms, total)
    requires total <= |j.Hist(j.start)| + j.oend - j.start
    modifies j.dst
    ensures !k.AtToken? && !k.Done? && Running(j, k, s, h0, goal, conforms, total)
    ensures forall i :: 0 <= i < j.start || j.oend <= i < j.dst.Length ==> j.dst[i] == old(j.dst[i])
  {
    var ip, op := 0, j.start;
    while true
      invariant j.start <= op && op + FASTLOOP_SAFE_DISTANCE <= j.oend
      invariant Pending(j, ip, op, goal, conforms, total)
      invariant total <= |j.Hist(j.start)| + j.oend - j.start
      invariant forall i :: 0 <= i < j.start || j.oend <= i < j.dst.Length ==> j.dst[i] == old(j.dst[i])
      decreases |j.src| - ip
    {
      k, s, h0 := FastStep(j, ip, op, goal, conforms, total);
      if !k.AtToken? {
        return;
      }
      NextToken(j, k, s, h0, goal, conforms, total);
      ip, op := k.ip, k.op;
    }
  }

  /** Labels inside one sequence, in the order they are passed. */
  function Rank(k: Jump): nat {
    match k
    case AtLiteralCopy(_, _, _, _) => 4
    case AtOffset(_, _, _) => 3
    case AtCopyMatch(_, _, _, _) => 2
    case AtMatchCopy(_, _, _, _) => 1
    case _ => 0
  }

  /** One move of the careful loop from a label inside a sequence. */
  method SafeMove(j: Job, k0: Jump, ghost s: Step, ghost h0: seq<byte>, ghost total: nat) returns (k: Jump)
    requires j.Valid() && At(j, k0, s, h0)
    requires k0.AtLiteralCopy? || k0.AtOffset? || k0.AtCopyMatch? || k0.AtMatchCopy?
    requires total <= |j.Hist(j.start)| + j.oend - j.start
    modifies j.dst
    ensures At(j, k, s, h0)
    ensures k.Fail? ==> !Fits(j.src, s, |h0|, total)
    ensures !k.Fail? && !k.Done? ==> k.ip >= k0.ip
    ensures Rank(k) < Rank(k0)
    ensures forall i :: 0 <= i < j.start || j.oend <= i < j.dst.Length ==> j.dst[i] == old(j.dst[i])
  {
    match k0
    case AtLiteralCopy(_, _, _, _) => k := SafeLiteralCopy(j, k0, s, h0, total);
    case AtOffset(_, _, _) => k := ReadOffset(j, k0, s, h0);
    case AtCopyMatch(_, _, _, _) => k := CopyMatch(j, k0, s, h0, total);
    case AtMatchCopy(_, _, _, _) => k := SafeMatchCopy(j, k0, s, h0, total);
  }

  /** From a label inside a sequence to its end. */
  method FinishSequence(j: Job, k0: Jump, ghost s: Step, ghost h0: seq<byte>,
                        ghost goal: Option<seq<byte>>, ghost conforms: bool, ghost total: nat) returns (k: Jump)
    requires j.Valid() && Running(j, k0, s, h0, goal, conforms, total)
    requires total <= |j.Hist(j.start)| + j.oend - j.start
    modifies j.dst
    ensures k.Fail? || k.Done? || k.AtToken?
    ensures Running(j, k, s, h0, goal, conforms, total)
    ensures k.AtToken? ==> k0.Done? || k.ip >= k0.ip
    ensures k0.Done? ==> k == k0
    ensures forall i :: 0 <= i < j.start || j.oend <= i < j.dst.Length ==> j.dst[i] == old(j.dst[i])
  {
    k := k0;
    while !k.Fail? && !k.Done? && !k.AtToken?
      invariant Running(j, k, s, h0, goal, conforms, total)
      invariant total <= |j.Hist(j.start)| + j.oend - j.start
      invariant !k.Done? && !k.Fail? ==> k0.Done? || k.ip >= k0.ip
      invariant k0.Done? ==> k == k0
      invariant forall i :: 0 <= i < j.start || j.oend <= i < j.dst.Length ==> j.dst[i] == old(j.dst[i])
      decreases Rank(k)
    {
      k := SafeMove(j, k, s, h0, total);
    }
  }

  /** One whole sequence of the careful loop. */
  method SafeStep(j: Job, ip: nat, op: nat, ghost goal: Option<seq<byte>>, ghost conforms: bool, ghost total: nat)
    returns (k: Jump, ghost s: Step, ghost h0: seq<byte>)
    requires j.Valid()
    requires Pending(j, ip, op, goal, conforms, total)
    requires total <= |j.Hist(j.start)| + j.oend - j.start
    modifies j.dst
    ensures k.Fail? || k.Done? || k.AtToken?
    ensures Running(j, k, s, h0, goal, conforms, total)
    ensures k.AtToken? ==> k.ip > ip
    ensures forall i :: 0 <= i < j.start || j.oend <= i < j.dst.Length ==> j.dst[i] == old(j.dst[i])
  {
    s, h0 := StepAt(U32, j.src, ip), j.Hist(op);
    EnterToken(j, ip, op, goal, conforms, total);
    k := SafeToken(j, ip, op, s, h0);
    k := FinishSequence(j, k, s, h0, goal, conforms, total);
  }

  /** What the outcome of decoding has to do with the reference decoder. */
  ghost predicate Settled(j: Job, k: Jump, goal: Option<seq<byte>>, conforms: bool, total: nat)
    requires j.Valid()
    reads j.dst
  {
    match k
    case Fail(ip) => ip <= |j.src| && !conforms
    case Done(op) => j.start <= op <= j.oend && goal == Some(j.Hist(op)) && (conforms ==> |j.Hist(op)| == total)
    case _ => false
  }

  lemma Settle(j: Job, k: Jump, s: Step, h0: seq<byte>, goal: Option<seq<byte>>, conforms: bool, total: nat)
    requires j.Valid() && (k.Fail? || k.Done?) && Running(j, k, s, h0, goal, conforms, total)
    ensures Settled(j, k, goal, conforms, total)
  {
    if k.Done? {
      assert j.Hist(k.op) == h0 + s.lit;
    }
  }

  /** The careful loop, entered at any label. */
  method SafeLoop(j: Job, k0: Jump, ghost s0: Step, ghost h00: seq<byte>,
                  ghost goal: Option<seq<byte>>, ghost conforms: bool, ghost total: nat) returns (k: Jump)
    requires j.Valid() && Running(j, k0, s0, h00, goal, conforms, total)
    requires total <= |j.Hist(j.start)| + j.oend - j.start
    modifies j.dst
    ensures Settled(j, k, goal, conforms, total)
    ensures forall i :: 0 <= i < j.start || j.oend <= i < j.dst.Length ==> j.dst[i] == old(j.dst[i])
  {
    ghost var s, h0 := s0, h00;
    k := FinishSequence(j, k0, s, h0, goal, conforms, total);
    while k.AtToken?
      invariant k.Fail? || k.Done? || k.AtToken?
      invariant Running(j, k, s, h0, goal, conforms, total)
      invariant total <= |j.Hist(j.start)| + j.oend - j.start
      invariant forall i :: 0 <= i < j.start || j.oend <= i < j.dst.Length ==> j.dst[i] == old(j.dst[i])
      decreases if k.AtToken? then |j.src| - k.ip else 0
    {
      NextToken(j, k, s, h0, goal, conforms, total);
      k, s, h0 := SafeStep(j, k.ip, k.op, goal, conforms, total);
    }
    Settle(j, k, s, h0, goal, conforms, total);
  }

  // ---- the interface ----

  lemma EmptyBlock(h: seq<byte>)
    ensures Decode(U32, [0], 0, h) == Some(h)
  {
    assert h + [] == h;
    assert LiteralStep(U32, [0], 1, 0, 0) == Last([]);
  }

  /** LZ4_decompress_generic for full blocks with a known input size. */
  method DecompressGeneric(j: Job, ghost total: nat) returns (n: int)
    requires j.Valid()
    modifies j.dst
    ensures -|j.src| - 1 <= n <= j.oend - j.start
    ensures n >= 0 ==> Decode(U32, j.src, 0, old(j.Hist(j.start))) == Some(j.Hist(j.start + n))
    ensures Conforms(U32, j.src, 0, |j.dict| + j.start - j.histLow, total)
            && |j.dict| + j.start - j.histLow <= total <= |j.dict| + j.oend - j.histLow
            && (j.start < j.oend || j.src == [0])
            ==> n == total - (|j.dict| + j.start - j.histLow)
    ensures j.oend == j.start ==> n == if j.src == [0] then 0 else -1
    ensures forall i :: 0 <= i < j.start || j.oend <= i < j.dst.Length ==> j.dst[i] == old(j.dst[i])
  {
    if j.oend == j.start {
      EmptyBlock(j.Hist(j.start));
      if |j.src| == 1 && j.src[0] == 0 {
        assert j.src == [0];
        return 0;
      }
      return -1;
    }
    if |j.src| == 0 {
      return -1;
    }
    var k := DecodeBlock(j, total);
    if k.Done? {
      n := k.op - j.start;
    } else {
      n := -(k.ip as int) - 1;
    }
  }

  /** The two loops one after the other. */
  method DecodeBlock(j: Job, ghost total: nat) returns (k: Jump)
    requires j.Valid() && j.start < j.oend && |j.src| > 0
    modifies j.dst
    ensures Settled(j, k, Decode(U32, j.src, 0, old(j.Hist(j.start))),
                    Conforms(U32, j.src, 0, |old(j.Hist(j.start))|, total)
                    && |old(j.Hist(j.start))| <= total <= |old(j.Hist(j.start))| + j.oend - j.start,
                    total)
    ensures forall i :: 0 <= i < j.start || j.oend <= i < j.dst.Length ==> j.dst[i] == old(j.dst[i])
  {
    ghost var h := j.Hist(j.start);
    ghost var goal := Decode(U32, j.src, 0, h);
    ghost var conforms := Conforms(U32, j.src, 0, |h|, total) && |h| <= total <= |h| + j.oend - j.start;
    ghost var total' := if conforms then total else 0;
    ghost var s, h0;
    if j.oend - j.start < FASTLOOP_SAFE_DISTANCE {
      k, s, h0 := SafeStep(j, 0, j.start, goal, conforms, total');
      k := SafeLoop(j, k, s, h0, goal, conforms, total');
    } else {
      k, s, h0 := FastLoop(j, goal, conforms, total');
      k := SafeLoop(j, k, s, h0, goal, conforms, total');
    }
  }

  /** Whether a decoded block is what the reference decoder makes of the source. */
  ghost predicate Decodes(src: seq<byte>, hist: seq<byte>, out: seq<byte>) {
    Decode(U32, src, 0, hist) == Some(hist + out)
  }

  /** The source is a block the format's end-of-block rules allow, of `size` bytes. */
  ghost predicate ConformingBlock(src: seq<byte>, histLen: nat, size: nat) {
    Conforms(U32, src, 0, histLen, histLen + size)
  }

  /** LZ4_decompress_safe. */
  method DecompressSafe(src: seq<byte>, dst: array<byte>, ghost size: nat) returns (n: int)
    requires |src| < 0x8000_0000 && dst.Length < 0x8000_0000
    modifies dst
    ensures -|src| - 1 <= n <= dst.Length
    ensures n >= 0 ==> Decodes(src, [], dst[..n])
    ensures ConformingBlock(src, 0, size) && size <= dst.Length && (dst.Length > 0 || src == [0]) ==> n == size
  {
    var j := Job(src, dst, 0, dst.Length, 0, 0, [], NoDict);
    n := DecompressGeneric(j, size);
    assert dst[0..0] == [];
    if n >= 0 {
      assert j.Hist(n) == [] + dst[..n];
    }
  }

  /** LZ4_decompress_safe_usingDict, into a window of a larger buffer. The dictionary is a
      prefix when it ends where the output starts, and external otherwise. */
  method DecompressSafeUsingDict(src: seq<byte>, dst: array<byte>, start: nat, capacity: nat,
                                 dict: array<byte>, dictStart: nat, dictSize: nat, ghost size: nat) returns (n: int)
    requires |src| < 0x8000_0000 && capacity < 0x8000_0000
    requires start + capacity <= dst.Length && dictStart + dictSize <= dict.Length
    requires dict != dst || dictStart + dictSize <= start || start + capacity <= dictStart
    modifies dst
    ensures -|src| - 1 <= n <= capacity
    ensures n >= 0 ==> Decodes(src, old(dict[dictStart..dictStart + dictSize]), dst[start..start + n])
    ensures ConformingBlock(src, dictSize, size) && size <= capacity && (capacity > 0 || src == [0]) ==> n == size
    ensures forall i :: 0 <= i < start || start + capacity <= i < dst.Length ==> dst[i] == old(dst[i])
  {
    var j := UsingDictJob(src, dst, start, capacity, dict, dictStart, dictSize);
    n := DecompressGeneric(j, dictSize + size);
    if n >= 0 {
      assert j.dst[j.histLow..start] == old(j.dst[j.histLow..start]);
      HistExtends(j, start, start + n);
    }
  }

  /** Where the dictionary is, and so how the decoder is set up. */
  method UsingDictJob(src: seq<byte>, dst: array<byte>, start: nat, capacity: nat,
                      dict: array<byte>, dictStart: nat, dictSize: nat) returns (j: Job)
    requires |src| < 0x8000_0000 && capacity < 0x8000_0000
    requires start + capacity <= dst.Length && dictStart + dictSize <= dict.Length
    ensures j.Valid() && j.src == src && j.dst == dst && j.start == start && j.oend == start + capacity
    ensures j.Hist(start) == dict[dictStart..dictStart + dictSize]
  {
    if dictSize == 0 {
      j := Job(src, dst, start, start + capacity, start, start, [], NoDict);
    } else if dict == dst && dictStart + dictSize == start {
      j := PrefixJob(src, dst, start, capacity, dictSize);
    } else {
      j := Job(src, dst, start, start + capacity, start, start, dict[dictStart..dictStart + dictSize], UsingExtDict);
    }
  }

  /** A prefix of 64 KB - 1 bytes or more needs no offset check. */
  function PrefixJob(src: seq<byte>, dst: array<byte>, start: nat, capacity: nat, dictSize: nat): (j: Job)
    requires |src| < 0x8000_0000 && capacity < 0x8000_0000
    requires start + capacity <= dst.Length && dictSize <= start
    ensures j.Valid() && j.src == src && j.dst == dst && j.dict == []
    ensures j.start == start && j.oend == start + capacity && j.histLow == start - dictSize
  {
    if dictSize >= KB64 - 1 then
      Job(src, dst, start, start + capacity, start - dictSize, start - KB64, [], WithPrefix64k)
    else
      Job(src, dst, start, start + capacity, start - dictSize, start - dictSize, [], NoDict)
  }
}
