/** Writing sequences: tokens, length runs, literals by wild copy, offsets. */
module Lz4Emit {
  import opened Bytes
  import opened Lz4Format
  import opened Lz4Copy

  // ---- length runs ----

  lemma {:induction false} RunBytes(x: nat)
    ensures forall i :: 0 <= i < x / 255 ==> EncodeRun(x)[i] == 255
    ensures EncodeRun(x)[x / 255] == x % 255
    decreases x
  {
    if x >= 255 {
      RunBytes(x - 255);
    }
  }

  /** A literal length's run, byte by byte. */
  method WriteRun(dst: array<byte>, op0: nat, x: nat) returns (op: nat)
    requires op0 + x / 255 + 1 <= dst.Length
    modifies dst
    ensures op == op0 + x / 255 + 1
    ensures dst[op0..op] == EncodeRun(x)
    ensures forall i :: 0 <= i < op0 || op <= i < dst.Length ==> dst[i] == old(dst[i])
  {
    var len := x;
    op := op0;
    while len >= 255
      invariant op0 <= op && op + len / 255 == op0 + x / 255 && len % 255 == x % 255
      invariant forall i :: op0 <= i < op ==> dst[i] == 255
      invariant forall i :: 0 <= i < op0 || op <= i < dst.Length ==> dst[i] == old(dst[i])
    {
      dst[op] := 255;
      op, len := op + 1, len - 255;
    }
    dst[op] := len;
    op := op + 1;
    RunBytes(x);
    RunIs(dst[op0..op], x);
  }

  lemma RunIs(s: seq<byte>, x: nat)
    requires |s| == x / 255 + 1
    requires forall i :: 0 <= i < x / 255 ==> s[i] == 255
    requires s[x / 255] == x % 255
    ensures s == EncodeRun(x)
  {
    RunBytes(x);
  }

  method Write32Full(dst: array<byte>, op: nat)
    requires op + 4 <= dst.Length
    modifies dst
    ensures forall i :: op <= i < op + 4 ==> dst[i] == 255
    ensures forall i :: 0 <= i < op || op + 4 <= i < dst.Length ==> dst[i] == old(dst[i])
  {
    forall j | 0 <= j < 4 {
      dst[op + j] := 255;
    }
  }

  /** A match length's run: four bytes at a time, overshooting, then the position is put
      right. */
  method WriteRunByFours(dst: array<byte>, op0: nat, x: nat) returns (op: nat)
    requires op0 + x / 255 + 4 <= dst.Length
    modifies dst
    ensures op == op0 + x / 255 + 1
    ensures dst[op0..op] == EncodeRun(x)
    ensures forall i :: 0 <= i < op0 || op0 + x / 255 + 4 <= i < dst.Length ==> dst[i] == old(dst[i])
  {
    var mc := x;
    op := op0;
    Write32Full(dst, op);
    while mc >= 4 * 255
      invariant op0 <= op && op + mc / 255 == op0 + x / 255 && mc % 255 == x % 255
      invariant forall i :: op0 <= i < op + 4 ==> dst[i] == 255
      invariant forall i :: 0 <= i < op0 || op + 4 <= i < dst.Length ==> dst[i] == old(dst[i])
    {
      op := op + 4;
      Write32Full(dst, op);
      mc := mc - 4 * 255;
    }
    op := op + mc / 255;
    dst[op] := mc % 255;
    op := op + 1;
    RunIs(dst[op0..op], x);
  }

  // ---- the head of a sequence ----

  /** The literal length: token and run. */
  method WriteLiteralLength(dst: array<byte>, op0: nat, litLen: nat) returns (op: nat)
    requires op0 + 1 + |Extension(litLen)| <= dst.Length
    modifies dst
    ensures op == op0 + 1 + |Extension(litLen)|
    ensures dst[op0] == Nibble(litLen) * 16
    ensures dst[op0 + 1..op] == Extension(litLen)
    ensures forall i :: 0 <= i < op0 || op <= i < dst.Length ==> dst[i] == old(dst[i])
  {
    op := op0 + 1;
    if litLen >= RUN_MASK {
      dst[op0] := RUN_MASK * 16;
      op := WriteRun(dst, op, litLen - RUN_MASK);
    } else {
      dst[op0] := litLen * 16;
    }
  }

  lemma HeadIs(x: seq<byte>, op: nat, o: nat, lit: seq<byte>)
    requires o == op + 1 + |Extension(|lit|)| && o + |lit| <= |x|
    requires x[op] == Nibble(|lit|) * 16
    requires x[op + 1..o] == Extension(|lit|)
    requires x[o..o + |lit|] == lit
    ensures x[op..o + |lit|] == EncodeHead(lit, 0)
  {
    assert x[op..op + 1] == [Nibble(|lit|) * 16];
    assert x[op..o] == x[op..op + 1] + x[op + 1..o];
    assert x[op..o + |lit|] == x[op..o] + x[o..o + |lit|];
  }

  /** Token, run and literals, the literals by wild copy. */
  method WriteHead(dst: array<byte>, op0: nat, src: seq<byte>, anchor: nat, ip: nat, oend: nat) returns (op: nat)
    requires anchor <= ip && ip + 8 <= |src| && oend <= dst.Length
    requires op0 + 1 + |Extension(ip - anchor)| + Max(ip - anchor, 1) + 7 <= oend
    modifies dst
    ensures op == op0 + 1 + |Extension(ip - anchor)| + (ip - anchor)
    ensures dst[op0..op] == EncodeHead(src[anchor..ip], 0)
    ensures forall i :: 0 <= i < op0 || oend <= i < dst.Length ==> dst[i] == old(dst[i])
  {
    var litLength := ip - anchor;
    var o := WriteLiteralLength(dst, op0, litLength);
    ghost var x := dst[..];
    WildCopy8In(dst, o, src, anchor, o + litLength);
    op := o + litLength;
    assert dst[op0 + 1..o] == x[op0 + 1..o];
    assert dst[o..op] == src[anchor..ip];
    HeadIs(dst[..], op0, o, src[anchor..ip]);
  }

  /** The last literals, copied exactly. */
  method WriteLast(dst: array<byte>, op0: nat, src: seq<byte>, anchor: nat, oend: nat) returns (op: nat)
    requires anchor <= |src| && oend <= dst.Length
    requires op0 + 1 + |Extension(|src| - anchor)| + (|src| - anchor) <= oend
    modifies dst
    ensures op == op0 + 1 + |Extension(|src| - anchor)| + (|src| - anchor)
    ensures dst[op0..op] == EncodeLast(src[anchor..])
    ensures forall i :: 0 <= i < op0 || oend <= i < dst.Length ==> dst[i] == old(dst[i])
  {
    var lastRun := |src| - anchor;
    var o := WriteLiteralLength(dst, op0, lastRun);
    ghost var x := dst[..];
    CopyIn(dst, o, src, anchor, lastRun);
    op := o + lastRun;
    assert dst[op0 + 1..o] == x[op0 + 1..o];
    assert dst[o..op] == src[anchor..];
    HeadIs(dst[..], op0, o, src[anchor..]);
  }

  // ---- the match ----

  /** The match length: the low half of the token, and a run when it is long. */
  method WriteMatchLength(dst: array<byte>, token: nat, op0: nat, matchCode: nat, oend: nat) returns (op: nat)
    requires token < op0 && op0 + |Extension(matchCode)| <= oend <= dst.Length
    requires dst[token] % 16 == 0
    requires matchCode >= 15 ==> op0 + |Extension(matchCode)| + 3 <= oend
    modifies dst
    ensures op == op0 + |Extension(matchCode)|
    ensures dst[token] == old(dst[token]) + Nibble(matchCode)
    ensures dst[op0..op] == Extension(matchCode)
    ensures forall i :: (0 <= i < op0 && i != token) || oend <= i < dst.Length ==> dst[i] == old(dst[i])
  {
    var t := dst[token] as int;
    if matchCode >= ML_MASK {
      dst[token] := t + ML_MASK;
      op := WriteRunByFours(dst, op0, matchCode - ML_MASK);
    } else {
      dst[token] := t + matchCode;
      op := op0;
    }
  }
}
