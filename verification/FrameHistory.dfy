/**
 The history a frame decoder keeps for linked blocks: where the last 64 KB of output can be
 read. It may lie in the caller's buffer, in an older buffer of the caller, or in the
 decoder's own tmpOutBuffer, and moves between them.
 */
module FrameHistory {
  import opened Bytes
  import opened FrameFormat
  import Lz4Decompress

  const GB: nat := 0x4000_0000

  /** How much of the output so far a linked block may refer to. */
  function Need(s: seq<byte>): (n: nat)
    ensures n <= |s| && n <= KB64
  {
    if |s| <= KB64 then |s| else KB64
  }

  /** The `w` bytes before position `end` are the last `w` bytes of `s`. */
  ghost predicate Mirrors(a: array<byte>, end: nat, s: seq<byte>, w: nat)
    reads a
  {
    && w <= end <= a.Length && w <= |s|
    && forall j :: end - w <= j < end ==> a[j] == s[j - end + |s|]
  }

  /** The bytes from position `from` on are `s`. */
  ghost predicate Bears(a: array<byte>, from: nat, s: seq<byte>)
    reads a
  {
    from + |s| <= a.Length && forall j :: from <= j < from + |s| ==> a[j] == s[j - from]
  }

  lemma Longer(a: array<byte>, end: nat, s: seq<byte>, w: nat, t: seq<byte>, v: nat)
    requires Mirrors(a, end, s, w) && Bears(a, end, t) && v <= w + |t|
    ensures Mirrors(a, end + |t|, s + t, v)
  {
  }

  lemma Shorter(a: array<byte>, end: nat, s: seq<byte>, t: seq<byte>, w: nat, v: nat)
    requires Mirrors(a, end, s + t, w) && v + |t| <= w && v <= |s|
    ensures |t| <= end && Mirrors(a, end - |t|, s, v)
  {
    forall j | end - |t| - v <= j < end - |t|
      ensures a[j] == s[j - (end - |t|) + |s|]
    {
      assert a[j] == (s + t)[j - end + |s + t|];
    }
  }

  lemma SliceBears(a: array<byte>, from: nat, until: nat)
    requires from <= until <= a.Length
    ensures Bears(a, from, a[from..until])
  {
  }

  lemma BearsSlice(a: array<byte>, from: nat, s: seq<byte>)
    requires Bears(a, from, s)
    ensures a[from..from + |s|] == s
  {
  }

  /** Bytes that mirror enough of the past mirror the window. */
  lemma MirrorsWindow(a: array<byte>, end: nat, s: seq<byte>)
    requires Mirrors(a, end, s, Need(s))
    ensures |Window(true, s)| == Need(s) && Mirrors(a, end, Window(true, s), Need(s))
  {
  }

  lemma MirrorsAll(a: array<byte>, from: nat, end: nat, w: seq<byte>)
    requires Mirrors(a, end, w, |w|) && from + |w| <= end
    ensures a[from..end][end - from - |w|..] == w
  {
    var d := a[from..end];
    forall k | 0 <= k < |w|
      ensures d[end - from - |w| + k] == w[k]
    {
      assert a[end - |w| + k] == w[k];
    }
  }

  /** memcpy, which wants the two ranges disjoint. */
  method Move(src: array<byte>, from: int, dst: array<byte>, upto: nat, n: nat)
    requires upto + n <= dst.Length
    requires n > 0 ==> 0 <= from && from + n <= src.Length
    requires n > 0 && src == dst ==> from + n <= upto || upto + n <= from
    modifies dst
    ensures forall j :: upto <= j < upto + n ==> dst[j] == old(src[j - upto + from])
    ensures forall j :: 0 <= j < upto || upto + n <= j < dst.Length ==> dst[j] == old(dst[j])
  {
    forall j | upto <= j < upto + n {
      dst[j] := src[j - upto + from];
    }
  }

  /** A block about to be decoded: the history handed to the block decoder, and all the output
      of the frame so far. */
  datatype Decoding = Decoding(linked: bool, history: seq<byte>, output: seq<byte>) {
    /** The history ends with the last 64 KB of the output, or with all of it. */
    ghost predicate Tail() {
      var w := Window(linked, output);
      |w| <= |history| && history[|history| - |w|..] == w
    }
  }

  /** Every one of the decodings had the history it needs. */
  ghost predicate Tails(ds: seq<Decoding>) {
    ds == [] || (ds[|ds| - 1].Tail() && Tails(ds[..|ds| - 1]))
  }

  lemma {:induction false} TailsAt(ds: seq<Decoding>, k: nat)
    requires Tails(ds) && k < |ds|
    ensures ds[k].Tail()
    decreases |ds|
  {
    if k < |ds| - 1 {
      TailsAt(ds[..|ds| - 1], k);
    }
  }

  /** The part of the decompression context that holds history and undelivered output. */
  class History {
    var tmpOutBuffer: array<byte>
    var dict: array?<byte>
    var dictStart: nat
    var dictSize: nat
    var tmpOut: nat
    var tmpOutSize: nat
    var tmpOutStart: nat
    /** All that was delivered in this frame. */
    ghost var past: seq<byte>
    /** What of it had been when the current call began, and all the bytes that had been taken of the
        frame. */
    ghost var kept: seq<byte>
    ghost var taken: seq<byte>
    /** Whether, in the current call, all of the history that lies in the destination is before its
        output. */
    ghost var below: bool
    /** What was delivered when the block in tmpOut was decoded, and that block. */
    ghost var before: seq<byte>
    ghost var block: seq<byte>

    constructor ()
      ensures fresh(tmpOutBuffer) && tmpOutBuffer.Length == 0 && Cleared() && past == []
    {
      tmpOutBuffer := new byte[0];
      dict, dictStart, dictSize := null, 0, 0;
      tmpOut, tmpOutSize, tmpOutStart := 0, 0, 0;
      past, before, block, kept, taken, below := [], [], [], [], [], true;
    }

    ghost predicate Cleared()
      reads `dict, `dictSize
    {
      dict == null && dictSize == 0
    }

    ghost predicate InRange()
      reads `dict, `dictStart, `dictSize, `tmpOutBuffer
    {
      && (dict == null ==> dictSize == 0)
      && (dict != null ==> dictStart + dictSize <= dict.Length)
      && (dict == tmpOutBuffer ==> dictStart == 0)
    }

    /** The dictionary ends with the last 64 KB of `s`, or with all of it. */
    ghost predicate DictFor(s: seq<byte>)
      reads `dict, `dictStart, `dictSize, `tmpOutBuffer, dict
    {
      && InRange()
      && Need(s) <= dictSize <= |s|
      && (dict != null ==> Mirrors(dict, dictStart + dictSize, s, Need(s)))
    }

    /** Between blocks. */
    ghost predicate Resting(linked: bool)
      reads `past, `tmpOut, `dict, `dictStart, `dictSize, `tmpOutBuffer, dict
    {
      if linked then DictFor(past) else Cleared() && tmpOut == 0
    }

    /** A block is being delivered from tmpOut. */
    ghost predicate Holding()
      reads `past, `before, `block, `tmpOut, `tmpOutSize, `tmpOutStart, `tmpOutBuffer, tmpOutBuffer
    {
      && tmpOutSize == |block| && tmpOutStart <= tmpOutSize
      && Bears(tmpOutBuffer, tmpOut, block)
      && past == before + block[..tmpOutStart]
    }

    /** The space before tmpOut, and with it the whole block, holds all the next block needs. */
    ghost predicate Continues()
      reads `before, `block, `tmpOut, `tmpOutSize, `tmpOutStart, `dict, `dictStart, `dictSize, `tmpOutBuffer, tmpOutBuffer
    {
      && dict == tmpOutBuffer && dictStart == 0
      && dictSize == tmpOut + tmpOutStart
      && Mirrors(tmpOutBuffer, tmpOut + tmpOutSize, before + block, Need(before + block))
    }

    ghost predicate Flushing(linked: bool)
      reads `past, `before, `block, `tmpOut, `tmpOutSize, `tmpOutStart, `dict, `dictStart, `dictSize, `tmpOutBuffer, dict, tmpOutBuffer
    {
      && Holding()
      && if linked then
           && Need(before) <= tmpOut <= |before|
           && (dict == tmpOutBuffer ==> Continues())
           && (dict != tmpOutBuffer ==> DictFor(past))
         else Cleared() && tmpOut == 0
    }

    /** What of the dictionary lies in the destination is before `op`. */
    ghost predicate Behind(dst: array<byte>, op: nat)
      reads `dict, `dictStart, `dictSize
    {
      dict == dst ==> dictStart + dictSize <= op
    }

    /** Nothing the dictionary needs lies where output is to go. */
    ghost predicate Free(dst: array<byte>, op: nat, end: nat)
      reads this
    {
      dst != tmpOutBuffer && (dict == dst ==> dictStart + dictSize <= op || end <= dictStart)
    }

    /** Nothing the dictionary needs lies where output is still to go. */
    ghost predicate Clear(dst: array<byte>, op: nat, end: nat)
      reads this
    {
      dst != tmpOutBuffer && (dict == dst ==> dictStart + dictSize <= op || (!below && end <= dictStart))
    }

    /** The first branches of LZ4F_updateDict: the new bytes continue the dictionary, or the
        destination alone is long enough to be one. */
    method Extend(dst: array<byte>, dstStart: nat, op: nat, n: nat, ghost new_: seq<byte>) returns (done: bool)
      requires dstStart <= op && |new_| == n && Bears(dst, op, new_)
      requires InRange() && (dictSize == 0 ==> past == []) && (dict == dst ==> DictFor(past))
      requires Mirrors(dst, op, past, op - dstStart) && dst != tmpOutBuffer
      modifies `dict, `dictStart, `dictSize
      ensures done ==> dict == dst && dictStart + dictSize == op + n && DictFor(past + new_)
      ensures !done ==> dict == old(dict) && dictStart == old(dictStart) && dictSize == old(dictSize)
      ensures !done ==> dictSize > 0 && op - dstStart + n < KB64
    {
      if dictSize == 0 {
        dict, dictStart := dst, op;
      }
      if dict == dst && dictStart + dictSize == op {
        Longer(dst, op, past, Need(past), new_, Need(past + new_));
        dictSize := dictSize + n;
        return true;
      }
      if op - dstStart + n >= KB64 {
        Longer(dst, op, past, op - dstStart, new_, Need(past + new_));
        dict, dictStart, dictSize := dst, dstStart, op - dstStart + n;
        return true;
      }
      return false;
    }
  
    /** Brings the dictionary's end in front of tmpOut, so that history continues there. */
    method Stow()
      requires dict != null && dict != tmpOutBuffer && Flushing(true)
      modifies tmpOutBuffer, `dict, `dictStart
      ensures dict == tmpOutBuffer && dictStart == 0 && Bears(tmpOutBuffer, tmpOut, block)
      ensures Mirrors(tmpOutBuffer, tmpOut + tmpOutSize, before + block, Need(before + block))
    {
      var copySize := Min(if tmpOutSize > KB64 then 0 else KB64 - tmpOutSize, tmpOut);
      var oldDictEnd := dictStart + dictSize - tmpOutStart;
      CopyBefore(oldDictEnd, copySize);
      Longer(tmpOutBuffer, tmpOut, before, copySize, block, Need(before + block));
      dict, dictStart := tmpOutBuffer, 0;
    }

    method CopyBefore(oldDictEnd: int, copySize: nat)
      requires dict != null && dict != tmpOutBuffer && Flushing(true)
      requires oldDictEnd == dictStart + dictSize - tmpOutStart
      requires copySize <= tmpOut && (tmpOutSize + copySize <= KB64 || copySize == 0)
      modifies tmpOutBuffer
      ensures Bears(tmpOutBuffer, tmpOut, block)
      ensures Mirrors(tmpOutBuffer, tmpOut, before, copySize)
    {
      if copySize > 0 {
        Shorter(dict, dictStart + dictSize, before, block[..tmpOutStart], Need(past), copySize);
        Move(dict, oldDictEnd - copySize, tmpOutBuffer, tmpOut - copySize, copySize);
      }
    }
  
    /** The branches of LZ4F_updateDict that find the new bytes already in tmpOut. */
    method ContinueWithin(n: nat)
      requires dict != null && Flushing(true) && tmpOutStart + n <= tmpOutSize
      modifies tmpOutBuffer, `dict, `dictStart, `dictSize
      ensures dict == tmpOutBuffer && dictStart == 0 && Bears(tmpOutBuffer, tmpOut, block)
      ensures dictSize == tmpOut + tmpOutStart + n
      ensures Mirrors(tmpOutBuffer, tmpOut + tmpOutSize, before + block, Need(before + block))
    {
      if dict == tmpOutBuffer {
        dictSize := dictSize + n;
      } else {
        Stow();
        dictSize := tmpOut + tmpOutStart + n;
      }
    }

    /** The dictionary is in tmpOutBuffer: the new bytes are copied behind it. */
    method CompleteTmp(dst: array<byte>, op: nat, n: nat, ghost new_: seq<byte>)
      requires dict == tmpOutBuffer && DictFor(past) && tmpOutBuffer.Length >= KB64 + KB128
      requires dst != tmpOutBuffer && n < KB64 && |new_| == n && Bears(dst, op, new_)
      modifies tmpOutBuffer, `dictSize
      ensures DictFor(past + new_)
    {
      if dictSize + n > tmpOutBuffer.Length {
        var preserveSize := KB64 - n;
        Move(tmpOutBuffer, dictSize - preserveSize, tmpOutBuffer, 0, preserveSize);
        dictSize := preserveSize;
      }
      AppendTmp(dst, op, n, new_);
    }

    method AppendTmp(dst: array<byte>, op: nat, n: nat, ghost new_: seq<byte>)
      requires dictSize + n <= tmpOutBuffer.Length && dictSize <= |past|
      requires Need(past + new_) <= dictSize + n
      requires Mirrors(tmpOutBuffer, dictSize, past, Min(Need(past), dictSize))
      requires dst != tmpOutBuffer && |new_| == n && Bears(dst, op, new_)
      modifies tmpOutBuffer, `dictSize
      ensures dictSize == old(dictSize) + n && dictSize <= tmpOutBuffer.Length
      ensures Mirrors(tmpOutBuffer, dictSize, past + new_, Need(past + new_))
    {
      Move(dst, op, tmpOutBuffer, dictSize, n);
      Longer(tmpOutBuffer, dictSize, past, Min(Need(past), dictSize), new_, Need(past + new_));
      dictSize := dictSize + n;
    }

    /** The dictionary is elsewhere: its end and the new bytes are joined in tmpOutBuffer. */
    method Join(dst: array<byte>, op: nat, n: nat, ghost new_: seq<byte>)
      requires dict != null && dict != tmpOutBuffer && DictFor(past) && tmpOutBuffer.Length >= KB64
      requires dst != tmpOutBuffer && n < KB64 && |new_| == n && Bears(dst, op, new_)
      modifies tmpOutBuffer, `dict, `dictStart, `dictSize
      ensures dict == tmpOutBuffer && DictFor(past + new_)
    {
      var preserveSize := Min(KB64 - n, dictSize);
      Move(dict, dictStart + dictSize - preserveSize, tmpOutBuffer, 0, preserveSize);
      dict, dictStart, dictSize := tmpOutBuffer, 0, preserveSize;
      AppendTmp(dst, op, n, new_);
    }
  
    /** The history after `n` more bytes of tmpOut were delivered, before that is recorded. */
    ghost predicate Advanced(n: nat, new_: seq<byte>)
      reads this, dict, tmpOutBuffer
    {
      && Bears(tmpOutBuffer, tmpOut, block)
      && (dict == tmpOutBuffer ==>
            && dictStart == 0 && dictSize == tmpOut + tmpOutStart + n
            && Mirrors(tmpOutBuffer, tmpOut + tmpOutSize, before + block, Need(before + block)))
      && (dict != tmpOutBuffer ==> DictFor(past + new_))
    }

    /** LZ4F_updateDict: dst[op..op + n] has just been written. */
    method UpdateDict(dst: array<byte>, dstStart: nat, op: nat, n: nat, withinTmp: bool,
                      ghost new_: seq<byte>, ghost end: nat)
      requires dstStart <= op && |new_| == n && Bears(dst, op, new_) && op + n <= end
      requires Mirrors(dst, op, past, op - dstStart) && Clear(dst, op, end)
      requires tmpOutBuffer.Length >= KB64 + KB128
      requires withinTmp ==> Flushing(true) && tmpOutStart + n <= tmpOutSize
      requires !withinTmp ==> DictFor(past)
      modifies tmpOutBuffer, `dict, `dictStart, `dictSize
      ensures withinTmp ==> Advanced(n, new_)
      ensures !withinTmp ==> DictFor(past + new_)
      ensures Clear(dst, op + n, end)
      ensures dict == old(dict) || dict == dst || dict == tmpOutBuffer
    {
      var done := Extend(dst, dstStart, op, n, new_);
      if !done {
        if withinTmp {
          ContinueWithin(n);
        } else if dict == tmpOutBuffer {
          CompleteTmp(dst, op, n, new_);
        } else {
          Join(dst, op, n, new_);
        }
      }
    }

    /** dstage_flushOut: as much of tmpOut as fits goes out. */
    method Flush(linked: bool, dst: array<byte>, dstStart: nat, op: nat, end: nat) returns (n: nat)
      requires dstStart <= op <= end <= dst.Length
      requires Mirrors(dst, op, past, op - dstStart) && Clear(dst, op, end)
      requires Flushing(linked) && (linked ==> tmpOutBuffer.Length >= KB64 + KB128)
      modifies `past, `tmpOutStart, `dict, `dictStart, `dictSize, tmpOutBuffer, dst
      ensures n == Min(tmpOutSize - old(tmpOutStart), end - op) && tmpOutStart == old(tmpOutStart) + n
      ensures Flushing(linked) && past == old(past) + block[old(tmpOutStart)..tmpOutStart]
      ensures Mirrors(dst, op + n, past, op + n - dstStart) && Clear(dst, op + n, end)
      ensures dict == old(dict) || dict == dst || dict == tmpOutBuffer
      ensures forall j :: 0 <= j < op || op + n <= j < dst.Length ==> dst[j] == old(dst[j])
    {
      n := Min(tmpOutSize - tmpOutStart, end - op);
      ghost var new_ := block[tmpOutStart..tmpOutStart + n];
      HandOut(linked, dst, dstStart, op, n, end, new_);
      Record(linked, n, new_);
    }

    method HandOut(linked: bool, dst: array<byte>, dstStart: nat, op: nat, n: nat, end: nat, ghost new_: seq<byte>)
      requires dstStart <= op && op + n <= end <= dst.Length && tmpOutStart + n <= tmpOutSize
      requires Mirrors(dst, op, past, op - dstStart) && Clear(dst, op, end)
      requires Flushing(linked) && (linked ==> tmpOutBuffer.Length >= KB64 + KB128)
      requires new_ == block[tmpOutStart..tmpOutStart + n]
      modifies `dict, `dictStart, `dictSize, tmpOutBuffer, dst
      ensures if linked then Advanced(n, new_) else Flushing(false)
      ensures Mirrors(dst, op + n, past + new_, op + n - dstStart) && Clear(dst, op + n, end)
      ensures dict == old(dict) || dict == dst || dict == tmpOutBuffer
      ensures forall j :: 0 <= j < op || op + n <= j < dst.Length ==> dst[j] == old(dst[j])
    {
      CopyOut(linked, dst, dstStart, op, n, end);
      Longer(dst, op, past, op - dstStart, new_, op + n - dstStart);
      if linked {
        UpdateDict(dst, dstStart, op, n, true, new_, end);
      }
    }

    method CopyOut(linked: bool, dst: array<byte>, dstStart: nat, op: nat, n: nat, end: nat)
      requires dstStart <= op && op + n <= end <= dst.Length && tmpOutStart + n <= tmpOutSize
      requires Flushing(linked) && Mirrors(dst, op, past, op - dstStart) && Clear(dst, op, end)
      modifies dst
      ensures Flushing(linked) && Bears(dst, op, block[tmpOutStart..tmpOutStart + n])
      ensures Mirrors(dst, op, past, op - dstStart)
      ensures forall j :: 0 <= j < op || op + n <= j < dst.Length ==> dst[j] == old(dst[j])
    {
      Move(tmpOutBuffer, tmpOut + tmpOutStart, dst, op, n);
    }

    method Record(linked: bool, n: nat, ghost new_: seq<byte>)
      requires tmpOutStart + n <= tmpOutSize == |block| && new_ == block[tmpOutStart..tmpOutStart + n]
      requires past == before + block[..tmpOutStart]
      requires if linked then Need(before) <= tmpOut <= |before| && Advanced(n, new_) else Flushing(false)
      modifies `past, `tmpOutStart
      ensures Flushing(linked) && past == old(past) + new_ && tmpOutStart == old(tmpOutStart) + n
    {
      assert block[..tmpOutStart] + new_ == block[..tmpOutStart + n];
      assert (before + block[..tmpOutStart]) + new_ == before + (block[..tmpOutStart] + new_);
      tmpOutStart := tmpOutStart + n;
      past := past + new_;
    }

    /** All of tmpOut is out: the next block may be decoded. */
    lemma Flushed(linked: bool)
      requires Flushing(linked) && tmpOutStart == tmpOutSize
      ensures Resting(linked)
    {
      assert block[..tmpOutStart] == block;
    }

    /** The new bytes went straight to the destination. */
    method Direct(linked: bool, dst: array<byte>, dstStart: nat, op: nat, n: nat, ghost end: nat, ghost new_: seq<byte>)
      requires dstStart <= op && op + n <= end && |new_| == n && Bears(dst, op, new_)
      requires Mirrors(dst, op, past, op - dstStart) && Clear(dst, op, end) && Resting(linked)
      requires linked ==> tmpOutBuffer.Length >= KB64 + KB128
      modifies `past, `dict, `dictStart, `dictSize, tmpOutBuffer
      ensures Resting(linked) && past == old(past) + new_
      ensures Mirrors(dst, op + n, past, op + n - dstStart) && Clear(dst, op + n, end)
      ensures dict == old(dict) || dict == dst || dict == tmpOutBuffer
    {
      hide DictFor, Mirrors, Bears;
      Longer(dst, op, past, op - dstStart, new_, op + n - dstStart);
      if linked {
        UpdateDict(dst, dstStart, op, n, false, new_, end);
      }
      past := past + new_;
    }

    /** At the end of a call: history is moved into tmpOutBuffer, since the caller may do as he
        likes with his buffer. */
    method Preserve(flushing: bool)
      requires dict != null && dict != tmpOutBuffer
      requires if flushing then Flushing(true) else Resting(true)
      requires tmpOutBuffer.Length >= KB64
      modifies tmpOutBuffer, `dict, `dictStart, `dictSize, `tmpOut
      ensures dict == tmpOutBuffer
      ensures if flushing then Flushing(true) else Resting(true)
    {
      if flushing {
        Stow();
        dictSize := tmpOut + tmpOutStart;
      } else {
        var newDictSize := Min(dictSize, KB64);
        Move(dict, dictStart + dictSize - newDictSize, tmpOutBuffer, 0, newDictSize);
        dict, dictStart, dictSize, tmpOut := tmpOutBuffer, 0, newDictSize, newDictSize;
      }
    }

    /** LZ4F_resetDecompressionContext's part. */
    method Reset()
      modifies `dict, `dictSize
      ensures Cleared()
    {
      dict, dictSize := null, 0;
    }

    /** Where the next block goes when the destination has no room for it. */
    method PlaceTmpOut(linked: bool)
      requires Resting(linked) && (linked ==> tmpOutBuffer.Length >= KB128)
      modifies `tmpOut, `dictSize, tmpOutBuffer
      ensures Resting(linked)
      ensures if linked then Need(past) <= tmpOut <= dictSize && tmpOut <= KB128 else tmpOut == old(tmpOut)
      ensures linked && dict == tmpOutBuffer ==> dictSize == tmpOut
      ensures dict != tmpOutBuffer ==> dictSize == old(dictSize)
    {
      if linked {
        if dict == tmpOutBuffer {
          if dictSize > KB128 {
            Move(tmpOutBuffer, dictSize - KB64, tmpOutBuffer, 0, KB64);
            dictSize := KB64;
          }
          tmpOut := dictSize;
        } else {
          tmpOut := Min(dictSize, KB64);
        }
      }
    }

    /** The dictionary to decode with: an empty one, the current one, or the last 64 KB of one
        whose size would not fit an int. */
    method CurrentDict(linked: bool, a: array<byte>, start: nat, ghost end: nat) returns (d: array<byte>, from: nat, size: nat)
      requires Resting(linked) && start <= end <= a.Length
      requires a == dict ==> dictStart + dictSize <= start || end <= dictStart
      ensures from + size <= d.Length && (a == d ==> from + size <= start || end <= from)
      ensures |Window(linked, past)| <= size && (|Window(linked, past)| == size || |Window(linked, past)| == KB64)
      ensures Mirrors(d, from + size, Window(linked, past), |Window(linked, past)|)
    {
      if dict == null {
        return a, start, 0;
      }
      MirrorsWindow(dict, dictStart + dictSize, past);
      d, from, size := dict, dictStart, dictSize;
      if dictSize > GB {
        from, size := dictStart + dictSize - KB64, KB64;
      }
    }

    /** LZ4_decompress_safe_usingDict with the current dictionary. */
    method DecodeBlock(linked: bool, data: seq<byte>, a: array<byte>, start: nat, capacity: nat,
                       ghost content: seq<byte>) returns (n: int, ghost m: Decoding)
      requires Resting(linked) && 0 < capacity < 0x8000_0000 && |data| < 0x8000_0000
      requires start + capacity <= a.Length
      requires a == dict ==> dictStart + dictSize <= start || start + capacity <= dictStart
      modifies a
      ensures n <= capacity
      ensures |content| <= capacity && Decodable(data, Window(linked, past), content)
        ==> n == |content| && Bears(a, start, content)
      ensures n >= 0 ==> Lz4Decompress.Decodes(data, Window(linked, past), a[start..start + n])
      ensures m.Tail() && m.linked == linked && m.output == past
      ensures forall j :: 0 <= j < start || start + capacity <= j < a.Length ==> a[j] == old(a[j])
    {
      hide Resting, DictFor, Decodable, Window;
      var d, from, size := CurrentDict(linked, a, start, start + capacity);
      m := Decoding(linked, d[from..from + size], past);
      MirrorsAll(d, from, from + size, Window(linked, past));
      n := DecodeWith(data, a, start, capacity, d, from, size, Window(linked, past), content);
    }

    /** Decodes a block into tmpOut. */
    method DecodeToTmp(linked: bool, data: seq<byte>, capacity: nat, ghost content: seq<byte>)
      returns (n: int, ghost m: Decoding)
      requires Resting(linked) && 0 < capacity < 0x8000_0000 && |data| < 0x8000_0000
      requires tmpOutBuffer.Length >= capacity + (if linked then KB128 else 0)
      modifies `tmpOut, `tmpOutSize, `tmpOutStart, `dictSize, `before, `block, tmpOutBuffer
      ensures dict != tmpOutBuffer ==> dictSize == old(dictSize)
      ensures n >= 0 ==> Flushing(linked) && tmpOutStart == 0 && tmpOutSize == n <= capacity && before == past
      ensures |content| <= capacity && Decodable(data, Window(linked, past), content) ==> n >= 0 && block == content
      ensures n >= 0 ==> Lz4Decompress.Decodes(data, Window(linked, past), block)
      ensures m.Tail() && m.linked == linked && m.output == past
    {
      hide DictFor, Decoding.Tail, Decodable, Lz4Decompress.Decodes;
      PlaceTmpOut(linked);
      n, m := DecodeInTmp(linked, data, capacity, content);
      if n >= 0 {
        ghost var b := tmpOutBuffer[tmpOut..tmpOut + n];
        SliceBears(tmpOutBuffer, tmpOut, tmpOut + n);
        if Bears(tmpOutBuffer, tmpOut, content) && n == |content| {
          BearsSlice(tmpOutBuffer, tmpOut, content);
        }
        Hold(linked, n, b);
      }
    }

    method DecodeInTmp(linked: bool, data: seq<byte>, capacity: nat, ghost content: seq<byte>)
      returns (n: int, ghost m: Decoding)
      requires Resting(linked) && 0 < capacity < 0x8000_0000 && |data| < 0x8000_0000
      requires tmpOut + capacity <= tmpOutBuffer.Length && (linked && dict == tmpOutBuffer ==> dictSize == tmpOut)
      modifies tmpOutBuffer
      ensures Resting(linked) && n <= capacity
      ensures |content| <= capacity && Decodable(data, Window(linked, past), content)
        ==> n == |content| && Bears(tmpOutBuffer, tmpOut, content)
      ensures n >= 0 ==> Lz4Decompress.Decodes(data, Window(linked, past), tmpOutBuffer[tmpOut..tmpOut + n])
      ensures m.Tail() && m.linked == linked && m.output == past
    {
      hide Window, Decodable, Decoding.Tail, Lz4Decompress.Decodes;
      n, m := DecodeBlock(linked, data, tmpOutBuffer, tmpOut, capacity, content);
    }

    method Hold(linked: bool, n: nat, ghost b: seq<byte>)
      requires Resting(linked) && n == |b| && Bears(tmpOutBuffer, tmpOut, b)
      requires linked ==> Need(past) <= tmpOut <= dictSize && (dict == tmpOutBuffer ==> dictSize == tmpOut)
      modifies `tmpOutSize, `tmpOutStart, `before, `block
      ensures Flushing(linked) && tmpOutStart == 0 && tmpOutSize == n && before == past && block == b
    {
      if linked && dict == tmpOutBuffer {
        Longer(tmpOutBuffer, tmpOut, past, Need(past), b, Need(past + b));
      }
      assert past + b[..0] == past;
      tmpOutSize, tmpOutStart, before, block := n, 0, past, b;
    }

    /** dstage_init's part: the buffer is made anew when it is too small. */
    method Prepare(bufferNeeded: nat)
      requires Cleared()
      modifies `tmpOutBuffer, `tmpOut, `tmpOutSize, `tmpOutStart, `past, `kept
      ensures past == [] && kept == []
      ensures tmpOutBuffer == old(tmpOutBuffer) || fresh(tmpOutBuffer)
      ensures tmpOutBuffer.Length == Max(old(tmpOutBuffer.Length), bufferNeeded)
      ensures Resting(true) && Resting(false)
    {
      if bufferNeeded > tmpOutBuffer.Length {
        tmpOutBuffer := new byte[bufferNeeded];
      }
      tmpOut, tmpOutSize, tmpOutStart, past, kept := 0, 0, 0, [], [];
    }
  }

  /** The data decodes to `content` behind the bytes it may refer to. */
  ghost predicate Decodable(data: seq<byte>, window: seq<byte>, content: seq<byte>) {
    Lz4Decompress.ConformingBlock(data, |window|, |content|) && Lz4Decompress.Decodes(data, window, content)
  }

  method DecodeWith(data: seq<byte>, a: array<byte>, start: nat, capacity: nat, d: array<byte>, from: nat, size: nat,
                    ghost w: seq<byte>, ghost content: seq<byte>) returns (n: int)
    requires 0 < capacity < 0x8000_0000 && |data| < 0x8000_0000
    requires start + capacity <= a.Length && from + size <= d.Length
    requires a == d ==> from + size <= start || start + capacity <= from
    requires |w| <= size && Mirrors(d, from + size, w, |w|) && (|w| == size || |w| == KB64)
    modifies a
    ensures n <= capacity
    ensures |content| <= capacity && Decodable(data, w, content) ==> n == |content| && Bears(a, start, content)
    ensures n >= 0 ==> Lz4Decompress.Decodes(data, w, a[start..start + n])
    ensures forall j :: 0 <= j < start || start + capacity <= j < a.Length ==> a[j] == old(a[j])
  {
    hide Lz4Decompress.ConformingBlock, Lz4Decompress.Decodes, Mirrors;
    ghost var dict := d[from..from + size];
    MirrorsAll(d, from, from + size, w);
    n := Lz4Decompress.DecompressSafeUsingDict(data, a, start, capacity, d, from, size, |content|);
    if n >= 0 {
      ShorterDictionary(data, dict, w, a[start..start + n]);
    }
    if |content| <= capacity && Decodable(data, w, content) {
      LongerDictionary(data, dict, w, |content|, content, if n >= 0 then a[start..start + n] else []);
      SliceBears(a, start, start + n);
    }
  }
}
