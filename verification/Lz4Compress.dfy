/**
 LZ4_compress_generic_validated and the functions around it: the greedy compressor with
 its hash table, for 16- and 32-bit tables, limited and unlimited output. Whatever matches
 the table leads it to, what it writes is a conforming block that decodes to its input.
 */
module Lz4Compress {
  import opened Bytes
  import opened Lz4Format
  import opened Lz4FormatLaws
  import opened Lz4EncodeLaws
  import opened Lz4Copy
  import opened Lz4Match
  import opened Lz4Emit

  const MAX_INPUT_SIZE: nat := 0x7E00_0000

  /** LZ4_COMPRESSBOUND. */
  function CompressBound(n: nat): nat {
    if n > MAX_INPUT_SIZE then 0 else n + n / 255 + 16
  }

  /** Where the output goes, and whether its end is checked. */
  datatype Sink = Sink(dst: array<byte>, start: nat, oend: nat, limited: bool)
  {
    predicate Valid(n: nat) {
      start <= oend <= dst.Length && (!limited ==> oend - start >= n + n / 255 + 16)
    }
  }

  /** How far the output can have got when the input up to `anchor` is encoded. */
  predicate Room(k: Sink, op: nat, anchor: nat) {
    && k.start <= op <= k.oend
    && if k.limited then (anchor == 0 && op == k.start) || op + 6 <= k.oend
       else op - k.start <= anchor + anchor / 255
  }

  lemma DivSum(a: nat, b: nat)
    ensures a / 255 + b / 255 <= (a + b) / 255 <= a / 255 + b / 255 + 1
  {
  }

  /** A sequence is never longer than what it stands for, by more than one byte in 255. */
  lemma SequenceFits(anchor: nat, litLen: nat, matchCode: nat)
    ensures anchor + anchor / 255 + 1 + |Extension(litLen)| + litLen + 2 + |Extension(matchCode)|
            <= (anchor + litLen + 4 + matchCode) + (anchor + litLen + 4 + matchCode) / 255
  {
    DivSum(anchor, litLen);
    DivSum(anchor + litLen, 4 + matchCode);
  }

  /** Whatever follows, the first sequence has a match. */
  ghost predicate OpensWithMatch(prefix: seq<byte>) {
    forall rest: seq<byte> :: StepAt(Exact, Join(prefix, rest), 0).More?
  }

  lemma OpensFirst(prefix: seq<byte>, s: Sequence)
    requires ValidSequence(s) && (prefix == [] || OpensWithMatch(prefix))
    ensures OpensWithMatch(prefix + EncodeSequence(s))
  {
    hide EncodeSequence, StepAt;
    SequenceReadsAs(prefix, s);
    forall rest: seq<byte> ensures StepAt(Exact, Join(prefix + EncodeSequence(s), rest), 0).More? {
      JoinAssoc(prefix, EncodeSequence(s), rest);
      assert StepAt(Exact, Join(prefix + EncodeSequence(s), rest), |prefix|).More?;
    }
  }

  /** The output so far stands for the input up to `anchor`: nothing, or sequences with matches. */
  ghost predicate Emitted(k: Sink, op: nat, src: seq<byte>, anchor: nat)
    requires k.start <= op <= k.dst.Length && anchor <= |src|
    reads k.dst
  {
    && StandsFor(k.dst[k.start..op], src[..anchor], [], src)
    && if anchor == 0 then op == k.start else OpensWithMatch(k.dst[k.start..op])
  }

  // ---- one sequence ----

  /** Literals: the budget check, and then token, run and literals. */
  method EncodeLiterals(k: Sink, src: seq<byte>, op0: nat, anchor: nat, ip: nat) returns (ok: bool, op: nat)
    requires k.Valid(|src|) && Room(k, op0, anchor) && anchor <= ip && ip + MFLIMIT <= |src|
    modifies k.dst
    ensures !k.limited ==> ok
    ensures ok ==> op == op0 + 1 + |Extension(ip - anchor)| + (ip - anchor)
    ensures ok ==> op <= k.oend && k.dst[op0..op] == EncodeHead(src[anchor..ip], 0)
    ensures ok && k.limited ==> op + 7 <= k.oend
    ensures forall i :: 0 <= i < op0 || k.oend <= i < k.dst.Length ==> k.dst[i] == old(k.dst[i])
  {
    var litLength := ip - anchor;
    op := op0;
    if k.limited && op + 1 + litLength + (2 + 1 + LASTLITERALS) + litLength / 255 > k.oend {
      return false, op;
    }
    if !k.limited {
      DivSum(anchor, litLength);
      DivSum(anchor + litLength, |src| - (anchor + litLength));
    }
    op := WriteHead(k.dst, op0, src, anchor, ip, k.oend);
    ok := true;
  }

  /** A head, an offset and a match length make a sequence. */
  lemma SequenceIs(x: seq<byte>, x0: seq<byte>, token: nat, op: nat, op': nat, lit: seq<byte>, offset: nat, matchCode: nat)
    requires token < op && op + 2 <= op' <= |x| && |x0| == |x|
    requires 0 < offset <= DISTANCE_MAX
    requires x0[token..op] == EncodeHead(lit, 0)
    requires x[token] == x0[token] + Nibble(matchCode) && x[token + 1..op] == x0[token + 1..op]
    requires x[op..op + 2] == [offset % 256, offset / 256]
    requires x[op + 2..op'] == Extension(matchCode)
    ensures x[token..op'] == EncodeSequence(Sequence(lit, offset, matchCode + MINMATCH))
  {
    var n := Nibble(matchCode);
    var h0, h := EncodeHead(lit, 0), EncodeHead(lit, n);
    assert h == [h0[0] + n] + h0[1..];
    assert x[token..op] == h by {
      assert x0[token..op][0] == h0[0] && x0[token..op][1..] == x0[token + 1..op];
      assert x[token..op] == [x[token]] + x[token + 1..op];
    }
    assert x[token..op'] == x[token..op] + x[op..op + 2] + x[op + 2..op'];
  }

  method WriteOffset(dst: array<byte>, op: nat, offset: nat)
    requires op + 2 <= dst.Length && 0 < offset <= DISTANCE_MAX
    modifies dst
    ensures dst[op..op + 2] == [offset % 256, offset / 256]
    ensures forall i :: 0 <= i < op || op + 2 <= i < dst.Length ==> dst[i] == old(dst[i])
  {
    dst[op] := offset % 256;
    dst[op + 1] := offset / 256;
  }

  lemma HeadToken(x: seq<byte>, token: nat, op: nat, lit: seq<byte>)
    requires token < op <= |x| && x[token..op] == EncodeHead(lit, 0)
    ensures x[token] % 16 == 0
  {
    assert x[token] == x[token..op][0];
  }

  /** The match length, after head and offset. */
  method FinishSequence(k: Sink, token: nat, op: nat, ghost lit: seq<byte>, offset: nat, matchCode: nat) returns (op': nat)
    requires k.start <= token < op && k.oend <= k.dst.Length && 0 < offset <= DISTANCE_MAX
    requires op + 2 + |Extension(matchCode)| + 3 <= k.oend
    requires k.dst[token..op] == EncodeHead(lit, 0) && k.dst[op..op + 2] == [offset % 256, offset / 256]
    modifies k.dst
    ensures op' == op + 2 + |Extension(matchCode)|
    ensures k.dst[token..op'] == EncodeSequence(Sequence(lit, offset, matchCode + MINMATCH))
    ensures forall i :: 0 <= i < token || k.oend <= i < k.dst.Length ==> k.dst[i] == old(k.dst[i])
  {
    hide Extension, EncodeHead, EncodeSequence, Nibble;
    ghost var x0 := k.dst[..];
    HeadToken(x0, token, op, lit);
    op' := WriteMatchLength(k.dst, token, op + 2, matchCode, k.oend);
    ghost var x := k.dst[..];
    assert x[token + 1..op] == x0[token + 1..op];
    assert x[op..op + 2] == x0[op..op + 2];
    SequenceIs(x, x0, token, op, op', lit, offset, matchCode);
  }

  /** The room a sequence leaves. */
  lemma RoomAfter(k: Sink, src: seq<byte>, op0: nat, anchor: nat, ip: nat, matchCode: nat)
    requires k.Valid(|src|) && !k.limited && Room(k, op0, anchor)
    requires anchor <= ip && ip + 4 + matchCode + LASTLITERALS <= |src|
    ensures op0 + 1 + |Extension(ip - anchor)| + (ip - anchor) + 2 + |Extension(matchCode)| + 3 <= k.oend
    ensures Room(k, op0 + 1 + |Extension(ip - anchor)| + (ip - anchor) + 2 + |Extension(matchCode)|, ip + 4 + matchCode)
  {
    SequenceFits(anchor, ip - anchor, matchCode);
    DivSum(ip + 4 + matchCode, |src| - (ip + 4 + matchCode));
  }

  /** What the match part of a sequence establishes. */
  ghost predicate MatchEncoded(k: Sink, src: seq<byte>, token: nat, op: nat, anchor: nat, ip: nat, m: nat, ip': nat)
    reads k.dst
  {
    && anchor <= ip && IsMatch(src, ip, m) && ip + 4 <= ip' && ip' + LASTLITERALS <= |src|
    && SameBytes(src, ip, m, ip' - ip)
    && (ip' + LASTLITERALS < |src| ==> src[ip'] != src[ip' - ip + m])
    && k.start <= token <= op <= k.dst.Length
    && k.dst[token..op] == EncodeSequence(Sequence(src[anchor..ip], ip - m, ip' - ip))
    && Room(k, op, ip')
  }

  /** How far the match goes, beyond its first four bytes. */
  method MatchLength(src: seq<byte>, ip: nat, m: nat) returns (matchCode: nat)
    requires IsMatch(src, ip, m)
    ensures ip + 4 + matchCode + LASTLITERALS <= |src|
    ensures SameBytes(src, ip, m, 4 + matchCode)
    ensures ip + 4 + matchCode + LASTLITERALS < |src| ==> src[ip + 4 + matchCode] != src[m + 4 + matchCode]
  {
    matchCode := Count(src, ip + MINMATCH, m + MINMATCH, |src| - LASTLITERALS);
    JoinBytes(src, ip, m, 4, matchCode);
  }

  /** The label _next_match: offset, and as long a match as there is. */
  method EncodeMatch(k: Sink, src: seq<byte>, token: nat, op0: nat, anchor: nat, ip: nat, m: nat)
    returns (ok: bool, op: nat, ip': nat)
    requires k.Valid(|src|) && Room(k, token, anchor) && anchor <= ip && IsMatch(src, ip, m)
    requires op0 == token + 1 + |Extension(ip - anchor)| + (ip - anchor)
    requires op0 <= k.oend && k.dst[token..op0] == EncodeHead(src[anchor..ip], 0)
    requires k.limited ==> op0 + 5 <= k.oend
    modifies k.dst
    ensures !k.limited ==> ok
    ensures ok ==> MatchEncoded(k, src, token, op, anchor, ip, m, ip')
    ensures forall i :: 0 <= i < token || k.oend <= i < k.dst.Length ==> k.dst[i] == old(k.dst[i])
  {
    hide EncodeHead, EncodeSequence, Nibble;
    if !k.limited {
      RoomAfter(k, src, token, anchor, ip, 0);
    }
    ghost var x0 := k.dst[..];
    WriteOffset(k.dst, op0, ip - m);
    assert k.dst[token..op0] == x0[token..op0];
    op := op0 + 2;
    var matchCode := MatchLength(src, ip, m);
    ip' := ip + matchCode + MINMATCH;
    if k.limited {
      if op + (1 + LASTLITERALS) + (matchCode + 240) / 255 > k.oend {
        return false, op, ip';
      }
    } else {
      RoomAfter(k, src, token, anchor, ip, matchCode);
    }
    op := FinishSequence(k, token, op0, src[anchor..ip], ip - m, matchCode);
    ok := true;
  }

  /** Bytes that equal those one offset back are what the format's match produces. */
  lemma MatchIsRepeat(src: seq<byte>, ip: nat, m: nat, ip': nat)
    requires m < ip <= ip' <= |src| && SameBytes(src, ip, m, ip' - ip)
    ensures src[..ip'] == Repeat(src[..ip], ip - m, ip' - ip)
  {
    RepeatUnique(src[..ip], ip - m, src[..ip']);
  }

  /** A sequence written after what stands for the input up to `anchor` makes it stand for
      the input up to the end of the match. */
  lemma EmittedStep(k: Sink, src: seq<byte>, token: nat, op: nat, anchor: nat, ip: nat, m: nat, ip': nat)
    requires MatchEncoded(k, src, token, op, anchor, ip, m, ip') && Emitted(k, token, src, anchor)
    ensures Emitted(k, op, src, ip')
  {
    var s := Sequence(src[anchor..ip], ip - m, ip' - ip);
    var prefix, enc := k.dst[k.start..token], EncodeSequence(s);
    assert k.dst[k.start..op] == prefix + enc;
    assert src[..anchor] + src[anchor..ip] == src[..ip];
    MatchIsRepeat(src, ip, m, ip');
    SequenceReadsAs(prefix, s);
    OpensFirst(prefix, s);
    StandsForStep(prefix, src[..anchor], enc, s, src[..ip'], [], src);
  }

  lemma EmittedNothing(k: Sink, src: seq<byte>)
    requires k.Valid(|src|)
    ensures Emitted(k, k.start, src, 0)
  {
  }

  /** A conforming block of `size` bytes, which decodes to the input by the letter of the format. */
  ghost predicate BlockOf(out: seq<byte>, size: nat, src: seq<byte>) {
    Conforms(Exact, out, 0, 0, size) && StrictDecode(Exact, out, 0, []) == Some(src)
  }

  /** Whether the output is a block of the input. */
  ghost predicate Compressed(src: seq<byte>, out: seq<byte>) {
    exists size: nat :: BlockOf(out, size, src)
  }

  lemma LastDone(src: seq<byte>, prefix: seq<byte>, whole: seq<byte>, anchor: nat)
    requires anchor <= |src| && StandsFor(prefix, src[..anchor], [], src)
    requires |prefix| <= |whole| && whole[..|prefix|] == prefix && whole[|prefix|..] == EncodeLast(src[anchor..])
    ensures Compressed(src, whole)
  {
    assert whole == prefix + EncodeLast(src[anchor..]);
    assert src == src[..anchor] + src[anchor..];
    StandsForLast(prefix, src[..anchor], src[anchor..], [], src);
    assert BlockOf(whole, |src|, src);
  }

  lemma OpensWhole(prefix: seq<byte>, whole: seq<byte>, lit: seq<byte>)
    requires OpensWithMatch(prefix) && |prefix| <= |whole| && whole[..|prefix|] == prefix && whole[|prefix|..] == EncodeLast(lit)
    ensures StepAt(Exact, whole, 0).More?
  {
    hide EncodeLast, StepAt;
    assert whole == prefix + EncodeLast(lit);
    assert StepAt(Exact, Join(prefix, EncodeLast(lit)), 0).More?;
  }

  /** The last literals, where there is room for them. */
  method CloseBlock(k: Sink, src: seq<byte>, op: nat, anchor: nat) returns (n: nat)
    requires k.start <= op <= k.oend <= k.dst.Length && anchor <= |src| && Emitted(k, op, src, anchor)
    requires op + 1 + |Extension(|src| - anchor)| + (|src| - anchor) <= k.oend
    modifies k.dst
    ensures 0 < n && k.start + n <= k.oend && Compressed(src, k.dst[k.start..k.start + n])
    ensures anchor > 0 ==> StepAt(Exact, k.dst[k.start..k.start + n], 0).More?
    ensures forall i :: 0 <= i < k.start || k.oend <= i < k.dst.Length ==> k.dst[i] == old(k.dst[i])
  {
    ghost var prefix := k.dst[k.start..op];
    assert StandsFor(prefix, src[..anchor], [], src);
    var op' := WriteLast(k.dst, op, src, anchor, k.oend);
    assert k.dst[k.start..op] == prefix;
    n := op' - k.start;
    LastDone(src, prefix, k.dst[k.start..k.start + n], anchor);
    if anchor > 0 {
      OpensWhole(prefix, k.dst[k.start..k.start + n], src[anchor..]);
    }
  }

  lemma RoomForLast(k: Sink, size: nat, op: nat, anchor: nat)
    requires k.Valid(size) && Room(k, op, anchor) && anchor <= size
    requires k.limited ==> op + (size - anchor) + 1 + (size - anchor + 255 - RUN_MASK) / 255 <= k.oend
    ensures op + 1 + |Extension(size - anchor)| + (size - anchor) <= k.oend
  {
    DivSum(anchor, size - anchor);
  }

  /** The label _last_literals. */
  method EncodeLastLiterals(k: Sink, src: seq<byte>, op: nat, anchor: nat) returns (n: nat)
    requires k.Valid(|src|) && Room(k, op, anchor) && anchor <= |src| && Emitted(k, op, src, anchor)
    modifies k.dst
    ensures !k.limited ==> n > 0
    ensures n > 0 ==> k.start + n <= k.oend && Compressed(src, k.dst[k.start..k.start + n])
    ensures n > 0 && anchor > 0 ==> StepAt(Exact, k.dst[k.start..k.start + n], 0).More?
    ensures forall i :: 0 <= i < k.start || k.oend <= i < k.dst.Length ==> k.dst[i] == old(k.dst[i])
  {
    var lastRun := |src| - anchor;
    if k.limited && op + lastRun + 1 + (lastRun + 255 - RUN_MASK) / 255 > k.oend {
      n := 0;
    } else {
      RoomForLast(k, |src|, op, anchor);
      n := CloseBlock(k, src, op, anchor);
    }
  }

  // ---- the main loop ----

  datatype Status = Overflow | Searching | AtEnd

  /** What the main loop keeps: output and table are right for the input up to `anchor`. */
  ghost predicate LoopState(k: Sink, table: array<nat>, p: Plan, op: nat, anchor: nat)
    reads k.dst, table
  {
    && k.Valid(|p.src|) && p.Valid() && table.Length == TABLE_SIZE && table as object != k.dst
    && anchor <= |p.src| && Room(k, op, anchor) && Emitted(k, op, p.src, anchor)
    && TableBelow(table[..], p, |p.src|)
  }

  /** One match encoded: head already written, table below the end of the match. */
  method TakeMatch(k: Sink, table: array<nat>, p: Plan, token: nat, op0: nat, anchor: nat, ip: nat, m: nat, ghost filled: nat)
    returns (ok: bool, op: nat, ip': nat)
    requires LoopState(k, table, p, token, anchor) && anchor <= ip && IsMatch(p.src, ip, m)
    requires op0 == token + 1 + |Extension(ip - anchor)| + (ip - anchor)
    requires op0 <= k.oend && k.dst[token..op0] == EncodeHead(p.src[anchor..ip], 0)
    requires k.limited ==> op0 + 5 <= k.oend
    requires ip <= filled && filled + MFLIMIT <= |p.src| && SameBytes(p.src, ip, m, filled + 4 - ip)
    requires TableBelow(table[..], p, filled + 1)
    modifies k.dst
    ensures !k.limited ==> ok
    ensures ok ==> LoopState(k, table, p, op, ip') && filled + 4 <= ip' && (k.limited ==> op + 6 <= k.oend)
    ensures ok ==> TableBelow(table[..], p, ip') && ip' + LASTLITERALS <= |p.src|
    ensures forall i :: 0 <= i < k.start || k.oend <= i < k.dst.Length ==> k.dst[i] == old(k.dst[i])
  {
    ghost var prefix := k.dst[k.start..token];
    assert StandsFor(prefix, p.src[..anchor], [], p.src);
    ok, op, ip' := EncodeMatch(k, p.src, token, op0, anchor, ip, m);
    if ok {
      assert k.dst[k.start..token] == prefix;
      EmittedStep(k, p.src, token, op, anchor, ip, m, ip');
      LongEnough(p.src, ip, m, ip', filled);
      TableGrows(table[..], p, filled + 1, ip');
    }
  }

  /** The longest match covers everything known to agree. */
  lemma LongEnough(src: seq<byte>, ip: nat, m: nat, ip': nat, filled: nat)
    requires m < ip <= filled && ip <= ip' <= |src| - LASTLITERALS && filled + MFLIMIT <= |src|
    requires SameBytes(src, ip, m, filled + 4 - ip)
    requires ip' + LASTLITERALS < |src| ==> src[ip'] != src[ip' - ip + m]
    ensures filled + 4 <= ip'
  {
  }

  /** After a match: two positions go into the table, and the second may itself match. */
  method TestNext(table: array<nat>, p: Plan, ip: nat) returns (more: bool, m: nat)
    requires p.Valid() && table.Length == TABLE_SIZE && 2 <= ip && ip + MFLIMIT <= |p.src|
    requires TableBelow(table[..], p, ip)
    modifies table
    ensures TableBelow(table[..], p, ip + 1)
    ensures more ==> IsMatch(p.src, ip, m)
  {
    PutPosition(table, p, ip - 2, HashPosition(p.src, ip - 2, p.tt), ip);
    var h := HashPosition(p.src, ip, p.tt);
    var matchIndex := table[h];
    var usable := Usable(p, matchIndex, ip);
    if usable {
      UsableReaches(table[..], p, h, ip);
    }
    TableGrows(table[..], p, ip, ip + 1);
    PutPosition(table, p, ip, h, ip + 1);
    more, m := false, 0;
    if usable {
      m := matchIndex - p.startIndex;
      Read32Equal(p.src, ip, m);
      more := Read32(p.src, m) == Read32(p.src, ip);
    }
  }

  /** The token of a sequence without literals. */
  method WriteEmptyHead(k: Sink, src: seq<byte>, op: nat, ip: nat)
    requires k.start <= op < k.oend <= k.dst.Length && ip <= |src| && Emitted(k, op, src, ip)
    modifies k.dst
    ensures k.dst[op..op + 1] == EncodeHead(src[ip..ip], 0) && Emitted(k, op, src, ip)
    ensures forall i :: 0 <= i < op || op + 1 <= i < k.dst.Length ==> k.dst[i] == old(k.dst[i])
  {
    k.dst[op] := 0;
    assert k.dst[k.start..op] == old(k.dst[k.start..op]);
    assert src[ip..ip] == [];
  }

  /** From a match whose head is written: that sequence, and all that follow it with no
      literals in between. */
  method EncodeMatches(k: Sink, table: array<nat>, p: Plan, token0: nat, op0: nat, anchor0: nat, ip0: nat, m0: nat, ghost filled0: nat)
    returns (status: Status, op: nat, ip: nat)
    requires LoopState(k, table, p, token0, anchor0) && anchor0 <= ip0 && IsMatch(p.src, ip0, m0)
    requires op0 == token0 + 1 + |Extension(ip0 - anchor0)| + (ip0 - anchor0)
    requires op0 <= k.oend && k.dst[token0..op0] == EncodeHead(p.src[anchor0..ip0], 0)
    requires k.limited ==> op0 + 5 <= k.oend
    requires ip0 <= filled0 && filled0 + MFLIMIT <= |p.src| && SameBytes(p.src, ip0, m0, filled0 + 4 - ip0)
    requires TableBelow(table[..], p, filled0 + 1)
    modifies k.dst, table
    ensures !k.limited ==> !status.Overflow?
    ensures !status.Overflow? ==> LoopState(k, table, p, op, ip) && ip > filled0
    ensures TableBelow(table[..], p, |p.src|)
    ensures status.Searching? ==> ip + MFLIMIT <= |p.src| && TableBelow(table[..], p, ip + 1)
    ensures forall i :: 0 <= i < k.start || k.oend <= i < k.dst.Length ==> k.dst[i] == old(k.dst[i])
  {
    var token: nat, anchor: nat, m: nat := token0, anchor0, m0;
    ghost var filled := filled0;
    op, ip := op0, ip0;
    while true
      invariant LoopState(k, table, p, token, anchor) && anchor0 <= anchor <= ip && IsMatch(p.src, ip, m)
      invariant op == token + 1 + |Extension(ip - anchor)| + (ip - anchor)
      invariant op <= k.oend && k.dst[token..op] == EncodeHead(p.src[anchor..ip], 0)
      invariant k.limited ==> op + 5 <= k.oend
      invariant filled0 <= filled && ip <= filled && filled + MFLIMIT <= |p.src|
      invariant SameBytes(p.src, ip, m, filled + 4 - ip)
      invariant TableBelow(table[..], p, filled + 1)
      invariant forall i :: 0 <= i < k.start || k.oend <= i < k.dst.Length ==> k.dst[i] == old(k.dst[i])
      decreases |p.src| - filled
    {
      var ok;
      ok, op, ip := TakeMatch(k, table, p, token, op, anchor, ip, m, filled);
      if !ok {
        return Overflow, op, ip;
      }
      if ip >= |p.src| - MFLIMIT + 1 {
        return AtEnd, op, ip;
      }
      var more;
      more, m := TestNext(table, p, ip);
      TableGrows(table[..], p, ip + 1, |p.src|);
      if !more {
        return Searching, op, ip;
      }
      token, anchor, filled := op, ip, ip;
      SinkHasByte(k, |p.src|, op, ip);
      WriteEmptyHead(k, p.src, op, ip);
      op := op + 1;
    }
  }

  lemma SinkHasByte(k: Sink, size: nat, op: nat, ip: nat)
    requires k.Valid(size) && Room(k, op, ip) && ip <= size && (k.limited ==> op + 6 <= k.oend)
    ensures op < k.oend
  {
    DivSum(ip, size - ip);
  }

  /** One round of the main loop after a match is found: catch up, literals, matches. */
  method EncodeSequences(k: Sink, table: array<nat>, p: Plan, op0: nat, anchor: nat, ip0: nat, m0: nat)
    returns (status: Status, op: nat, ip: nat)
    requires LoopState(k, table, p, op0, anchor) && anchor <= ip0 && IsMatch(p.src, ip0, m0)
    requires TableBelow(table[..], p, ip0 + 1)
    modifies k.dst, table
    ensures !k.limited ==> !status.Overflow?
    ensures !status.Overflow? ==> LoopState(k, table, p, op, ip) && ip > ip0
    ensures TableBelow(table[..], p, |p.src|)
    ensures status.Searching? ==> ip + MFLIMIT <= |p.src| && TableBelow(table[..], p, ip + 1)
    ensures forall i :: 0 <= i < k.start || k.oend <= i < k.dst.Length ==> k.dst[i] == old(k.dst[i])
  {
    var m, ok;
    ip, m := CatchUp(p.src, anchor, ip0, m0);
    ghost var prefix := k.dst[k.start..op0];
    assert StandsFor(prefix, p.src[..anchor], [], p.src);
    ok, op := EncodeLiterals(k, p.src, op0, anchor, ip);
    if !ok {
      return Overflow, op, ip;
    }
    assert k.dst[k.start..op0] == prefix;
    status, op, ip := EncodeMatches(k, table, p, op0, op, anchor, ip, m, ip0);
  }

  /** The search from position 1 comes to the end of the input without a match. */
  ghost predicate NoneFound(table: seq<nat>, p: Plan, acceleration: nat)
    requires |table| == TABLE_SIZE
  {
    exists n: nat :: Place(acceleration, 1, n + 1) > |p.src| - 11 && AllRefused(table, p, acceleration, 1, n)
  }

  /** When the first nine bytes are the same, the first position searched matches the one before. */
  lemma SameFound(table: seq<nat>, p: Plan, acceleration: nat)
    requires |table| == TABLE_SIZE && |p.src| >= 13 && forall i :: 0 <= i < 9 ==> p.src[i] == p.src[0]
    ensures !NoneFound(table[HashPosition(p.src, 0, p.tt) := p.startIndex], p, acceleration)
  {
    var t := table[HashPosition(p.src, 0, p.tt) := p.startIndex];
    SameHash(p.src, p.tt);
    assert SameBytes(p.src, 1, 0, 4);
    assert Place(acceleration, 1, 1) == Place(acceleration, 1, 0) + SearchStep(acceleration, 0) == 2;
    assert !Refused(t, p, acceleration, 1, 0);
  }

  lemma SameHash(src: seq<byte>, tt: TableType)
    requires |src| >= 13 && forall i :: 0 <= i < 9 ==> src[i] == src[0]
    ensures HashPosition(src, 0, tt) == HashPosition(src, 1, tt)
  {
    assert Read32(src, 0) == Read32(src, 1) && Read32(src, 4) == Read32(src, 5);
  }

  /** The main loop: from a search position to the anchor of the last literals. */
  method MainLoop(k: Sink, table: array<nat>, p: Plan, ip0: nat, acceleration: nat, forwardH0: nat)
    returns (ok: bool, op: nat, anchor: nat)
    requires LoopState(k, table, p, k.start, 0) && acceleration >= 1
    requires |p.src| >= MFLIMIT + 1 && ip0 == 1 && forwardH0 == HashPosition(p.src, 1, p.tt)
    requires TableBelow(table[..], p, ip0)
    modifies k.dst, table
    ensures !k.limited ==> ok
    ensures ok ==> LoopState(k, table, p, op, anchor)
    ensures ok && anchor == 0 ==> NoneFound(old(table[..]), p, acceleration)
    ensures TableBelow(table[..], p, |p.src|)
    ensures forall i :: 0 <= i < k.start || k.oend <= i < k.dst.Length ==> k.dst[i] == old(k.dst[i])
  {
    hide HashPosition, AllRefused, Place, Latest;
    var ip, forwardH := ip0, forwardH0;
    op, anchor := k.start, 0;
    while true
      invariant LoopState(k, table, p, op, anchor)
      invariant anchor < ip && ip + 11 <= |p.src| && forwardH == HashPosition(p.src, ip, p.tt)
      invariant anchor == 0 ==> ip == 1 && table[..] == old(table[..])
      invariant TableBelow(table[..], p, ip)
      invariant forall i :: 0 <= i < k.start || k.oend <= i < k.dst.Length ==> k.dst[i] == old(k.dst[i])
      decreases |p.src| - ip
    {
      var found, m, status;
      ghost var n;
      found, ip, m, n := FindMatch(table, p, ip, acceleration, forwardH);
      if !found {
        return true, op, anchor;
      }
      status, op, ip := EncodeSequences(k, table, p, op, anchor, ip, m);
      if status.Overflow? {
        return false, op, anchor;
      }
      anchor := ip;
      if status.AtEnd? {
        return true, op, anchor;
      }
      ip := ip + 1;
      forwardH := HashPosition(p.src, ip, p.tt);
    }
  }

  /** All the sequences: none for inputs too short to hold a match. */
  method EncodeAllSequences(k: Sink, table: array<nat>, p: Plan, acceleration: nat) returns (ok: bool, op: nat, anchor: nat)
    requires k.Valid(|p.src|) && p.Valid() && acceleration >= 1 && |p.src| > 0
    requires table.Length == TABLE_SIZE && table as object != k.dst
    requires TableBelow(table[..], p, 1)
    modifies k.dst, table
    ensures !k.limited ==> ok
    ensures ok ==> LoopState(k, table, p, op, anchor)
    ensures ok && anchor == 0 && |p.src| >= 13 ==>
      NoneFound(old(table[..])[HashPosition(p.src, 0, p.tt) := p.startIndex], p, acceleration)
    ensures TableBelow(table[..], p, |p.src|)
    ensures forall i :: 0 <= i < k.start || k.oend <= i < k.dst.Length ==> k.dst[i] == old(k.dst[i])
  {
    EmittedNothing(k, p.src);
    TableGrows(table[..], p, 1, |p.src|);
    if |p.src| < MFLIMIT + 1 {
      return true, k.start, 0;
    }
    PutPosition(table, p, 0, HashPosition(p.src, 0, p.tt), 1);
    TableGrows(table[..], p, 1, |p.src|);
    ok, op, anchor := MainLoop(k, table, p, 1, acceleration, HashPosition(p.src, 1, p.tt));
  }

  /** LZ4_compress_generic_validated. A block of literals alone, for an input with room for a match,
      means that the search came to the end and every candidate it saw was refused. */
  method CompressValidated(k: Sink, table: array<nat>, p: Plan, acceleration: nat) returns (n: nat)
    requires k.Valid(|p.src|) && p.Valid() && acceleration >= 1 && |p.src| > 0
    requires table.Length == TABLE_SIZE && table as object != k.dst
    requires TableBelow(table[..], p, 1)
    modifies k.dst, table
    ensures !k.limited ==> n > 0
    ensures n > 0 ==> k.start + n <= k.oend && Compressed(p.src, k.dst[k.start..k.start + n])
    ensures n > 0 && |p.src| >= 13 && !StepAt(Exact, k.dst[k.start..k.start + n], 0).More? ==>
      NoneFound(old(table[..])[HashPosition(p.src, 0, p.tt) := p.startIndex], p, acceleration)
    ensures TableBelow(table[..], p, |p.src|)
    ensures forall i :: 0 <= i < k.start || k.oend <= i < k.dst.Length ==> k.dst[i] == old(k.dst[i])
  {
    var ok, op, anchor := EncodeAllSequences(k, table, p, acceleration);
    if ok {
      n := EncodeLastLiterals(k, p.src, op, anchor);
    } else {
      n := 0;
    }
  }
}
