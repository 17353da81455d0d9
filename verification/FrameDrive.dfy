/**
 A frame decoded in pieces: whatever the sizes of the source pieces and of the destinations,
 and whatever the caller does to his buffers in between, the output is the frame's content.
 */
module FrameDrive {
  import opened Bytes
  import opened FrameFormat
  import opened FrameHistory
  import opened FrameLayout
  import opened FrameReading
  import opened FrameBlocks
  import opened FrameBytes
  import opened FrameDecompress

  /** One call: how much of the stream to offer, how much room to give, whether to vouch for the
      destination, and what to overwrite it with before the next call when not. After a destination
      that was vouched for, `follow` asks to go on in it behind what it holds; a new one has `spare`
      bytes more for that. */
  datatype Piece = Piece(size: nat, capacity: nat, stable: bool, follow: bool, spare: nat, junk: seq<byte>)

  predicate Generous(calls: seq<Piece>) {
    forall i :: 0 <= i < |calls| ==> calls[i].size > 0 && calls[i].capacity > 0
  }

  /** What the calls so far have come to. */
  datatype Drive = Drive(hint: Option<nat>, used: nat, out: seq<byte>)

  /** Between two calls: the context and the caller's buffer are in order; and where the last
      destination can be gone on with, if it can. */
  ghost predicate Held(c: Dctx, buf: array<byte>, keep: bool, at: Option<nat>)
    reads c, c.header, c.tmpIn, c.h, c.h.tmpOutBuffer, c.Lent()
  {
    && c.Valid() && c.Known()
    && buf != c.header && buf != c.tmpIn && buf != c.h.tmpOutBuffer
    && (!keep ==> c.Lent() <= {c.h.tmpOutBuffer})
    && (at.Some? ==> at.value <= buf.Length && c.h.Behind(buf, at.value))
  }

  /** How far the frame is taken and put out. */
  ghost predicate Abreast(c: Dctx, g: Goal, d: Drive)
    reads c`goal, c`stage, c.h`past
  {
    && c.goal.Aim() == g.Aim() && g.sound
    && c.goal.pos == d.used < FrameSize(g.frame) <= |g.stream|
    && c.Delivered() == |d.out| && d.out <= FrameContent(g.frame)
  }

  /** Both. */
  ghost predicate Underway(c: Dctx, buf: array<byte>, keep: bool, at: Option<nat>, g: Goal, d: Drive)
    reads c, c.header, c.tmpIn, c.h, c.h.tmpOutBuffer, c.Lent()
  {
    Held(c, buf, keep, at) && Abreast(c, g, d)
  }

  /** The frame is done: all of it was taken, all of its content was put out, and every
      compressed block was decoded behind the history it needs. */
  ghost predicate Done(c: Dctx, g: Goal, d: Drive)
    reads c, c.header, c.tmpIn, c.h, c.h.tmpOutBuffer, c.Lent()
  {
    && c.Valid() && d.used == FrameSize(g.frame) && d.out == FrameContent(g.frame) && g.Clean()
    && (g.frame.Frame? ==> Log(g.frame, |g.frame.blocks|, c.decodings))
  }

  /** Where a call may put its output when nothing is lent out. */
  lemma AcceptsAny(c: Dctx, b: array<byte>, n: nat)
    requires c.Hist() && c.Lent() <= {c.h.tmpOutBuffer} && n <= b.Length
    requires b != c.header && b != c.tmpIn && b != c.h.tmpOutBuffer
    ensures c.Accepts(b, 0, n)
  {
  }

  /** Behind the history there is room for any output. */
  lemma AcceptsBehind(c: Dctx, b: array<byte>, at: nat, n: nat)
    requires c.h.Behind(b, at) && at + n <= b.Length
    requires b != c.header && b != c.tmpIn && b != c.h.tmpOutBuffer
    ensures c.Accepts(b, at, at + n)
  {
  }

  /** Where the next call writes: behind the last output in the same buffer, if that was vouched for
      and has room; else at the start of a new one if the last was vouched for or is too small; else
      at the start of the same one, overwritten. */
  method NextBuffer(c: Dctx, buf: array<byte>, keep: bool, at: Option<nat>, call: Piece)
    returns (b: array<byte>, start: nat, linked: bool)
    requires Held(c, buf, keep, at)
    modifies buf
    ensures Held(c, b, keep, if linked then Some(start) else None) && c.Accepts(b, start, start + call.capacity)
    ensures start + call.capacity <= b.Length && (b == buf || fresh(b))
  {
    start, linked := 0, true;
    if keep && call.follow && at.Some? && at.value + call.capacity <= buf.Length {
      b, start := buf, at.value;
      AcceptsBehind(c, buf, start, call.capacity);
    } else if keep || buf.Length < call.capacity {
      b := NewBuffer(c, buf, keep, at, call);
    } else {
      b, linked := buf, false;
      Overwrite(c, buf, at, call);
    }
  }

  method NewBuffer(c: Dctx, buf: array<byte>, keep: bool, at: Option<nat>, call: Piece)
    returns (b: array<byte>)
    requires Held(c, buf, keep, at)
    ensures Held(c, b, keep, Some(0)) && c.Accepts(b, 0, call.capacity) && fresh(b) && b.Length >= call.capacity
  {
    hide Dctx.OnTrack, Opens, Laid, GoodBlocks, History.DictFor, Tails, Log, Dctx.Reads;
    b := new byte[call.capacity + call.spare];
    FreshBehind(c, b);
    AcceptsBehind(c, b, 0, call.capacity);
  }

  lemma FreshBehind(c: Dctx, b: array<byte>)
    requires c.h.dict != b
    ensures c.h.Behind(b, 0)
  {
  }

  method Overwrite(c: Dctx, buf: array<byte>, ghost at: Option<nat>, call: Piece)
    requires Held(c, buf, false, at) && call.capacity <= buf.Length
    modifies buf
    ensures Held(c, buf, false, None) && c.Accepts(buf, 0, call.capacity)
  {
    hide Dctx.OnTrack, Opens, Laid, GoodBlocks, History.DictFor, Tails, Log, Dctx.Reads;
    forall j | 0 <= j < buf.Length {
      buf[j] := if j < |call.junk| then call.junk[j] else 0;
    }
    AcceptsAny(c, buf, call.capacity);
  }

  lemma OutGrows(out: seq<byte>, b: array<byte>, start: nat, n: nat, content: seq<byte>)
    requires out <= content && Hands(b, start, n, content, |out|)
    ensures out + b[start..start + n] <= content && |out + b[start..start + n]| == |out| + n
    ensures |out| + n == |content| ==> out + b[start..start + n] == content
  {
  }

  /** One call of a drive. */
  method OneCall(c: Dctx, buf: array<byte>, keep: bool, at0: Option<nat>, call: Piece, t: seq<byte>, ghost g: Goal, d0: Drive)
    returns (b: array<byte>, at: Option<nat>, d: Drive)
    requires Underway(c, buf, keep, at0, g, d0) && t == g.stream
    modifies c, c.header, c.tmpIn, c.h, c.h.tmpOutBuffer, buf
    ensures d.hint.None? ==> !g.Clean()
    ensures d.hint.Some? ==> if d.hint.value == 0 then Done(c, g, d) else Underway(c, b, call.stable, at, g, d)
    ensures d.out <= FrameContent(g.frame) && d.used <= FrameSize(g.frame)
    ensures d.hint.Some? && d.hint.value != 0 && call.size > 0 && call.capacity > 0
      ==> d.used + |d.out| > d0.used + |d0.out|
    ensures b == buf || fresh(b)
    ensures c.tmpIn == old(c.tmpIn) || fresh(c.tmpIn)
    ensures c.h.tmpOutBuffer == old(c.h.tmpOutBuffer) || fresh(c.h.tmpOutBuffer)
  {
    hide Held, Abreast, Done;
    var start, linked;
    b, start, linked := NextBuffer(c, buf, keep, at0, call);
    at, d := CallInto(c, b, start, linked, keep, call, t, g, d0);
  }

  /** The call, when it is known where it writes. */
  method CallInto(c: Dctx, b: array<byte>, start: nat, linked: bool, ghost keep: bool, call: Piece, t: seq<byte>, ghost g: Goal, d0: Drive)
    returns (at: Option<nat>, d: Drive)
    requires Underway(c, b, keep, if linked then Some(start) else None, g, d0) && t == g.stream
    requires start + call.capacity <= b.Length && c.Accepts(b, start, start + call.capacity)
    modifies c, c.header, c.tmpIn, c.h, c.h.tmpOutBuffer, b
    ensures d.hint.None? ==> !g.Clean()
    ensures d.hint.Some? ==> if d.hint.value == 0 then Done(c, g, d) else Underway(c, b, call.stable, at, g, d)
    ensures d.out <= FrameContent(g.frame) && d.used <= FrameSize(g.frame)
    ensures d.hint.Some? && d.hint.value != 0 && call.size > 0 && call.capacity > 0
      ==> d.used + |d.out| > d0.used + |d0.out|
    ensures c.tmpIn == old(c.tmpIn) || fresh(c.tmpIn)
    ensures c.h.tmpOutBuffer == old(c.h.tmpOutBuffer) || fresh(c.h.tmpOutBuffer)
  {
    hide Dctx.OnTrack, Opens, Laid, GoodBlocks, History.DictFor, Tails, Log, FrameContent, FrameSize, Dctx.Hist, Dctx.Buffers,
         Dctx.Bounds, Dctx.Accepts, Mirrors, History.Behind, Dctx.Valid, Dctx.Known;
    var n := Min(call.size, |t| - d0.used);
    var src := t[d0.used..d0.used + n];
    var hint, consumed, produced := c.Decompress(src, b, start, call.capacity, call.stable);
    var piece := b[start..start + produced];
    d := Drive(hint, d0.used + consumed, d0.out + piece);
    at := if linked && call.stable then Some(start + produced) else None;
    if hint.Some? {
      OutGrows(d0.out, b, start, produced, FrameContent(g.frame));
    } else {
      assert piece == [] && d0.out + [] == d0.out;
    }
  }

  /** A drive so far: done, failed, or underway. */
  ghost predicate Driving(c: Dctx, buf: array<byte>, keep: bool, at: Option<nat>, g: Goal, d: Drive)
    reads c, c.header, c.tmpIn, c.h, c.h.tmpOutBuffer, c.Lent()
  {
    && d.out <= FrameContent(g.frame) && d.used <= FrameSize(g.frame)
    && match d.hint
       case None => !g.Clean()
       case Some(hint) => if hint == 0 then Done(c, g, d) else Underway(c, buf, keep, at, g, d)
  }

  method Start(c: Dctx, ghost f: Frame, t: seq<byte>) returns (buf: array<byte>, d: Drive)
    requires c.Valid() && c.stage == GetFrameHeader && Opens(c.x, f, t)
    modifies c`goal
    ensures Driving(c, buf, true, None, c.goal, d) && d == Drive(Some(1), 0, []) && fresh(buf)
    ensures c.goal.sound && c.goal.frame == f && c.goal.stream == t && c.goal.stale == c.remaining
  {
    hide Opens, Dctx.OnTrack, Dctx.Bounds, Dctx.Buffers, Log, Tails, FrameContent, FrameSize, Dctx.Known;
    c.Aim(f, t);
    SizeFits(c.x, f, t);
    buf, d := new byte[0], Drive(Some(1), 0, []);
  }

  /** Calls, one after the other, until the frame is done, an error comes, or none is left. */
  method Loop(c: Dctx, buf0: array<byte>, ghost g: Goal, t: seq<byte>, calls: seq<Piece>, d0: Drive) returns (d: Drive)
    requires Driving(c, buf0, true, None, g, d0) && t == g.stream && d0 == Drive(Some(1), 0, [])
    modifies c, c.header, c.tmpIn, c.h, c.h.tmpOutBuffer, buf0
    ensures d.out <= FrameContent(g.frame) && d.used <= FrameSize(g.frame)
    ensures d.hint.None? ==> !g.Clean()
    ensures d.hint == Some(0) ==> Done(c, g, d)
    ensures d.hint.Some? ==> Tails(c.decodings)
    ensures Generous(calls) && |calls| > FrameSize(g.frame) + |FrameContent(g.frame)| ==> d.hint.None? || d.hint.value == 0
  {
    hide Dctx.Valid, Opens, Dctx.Known, Tails, Log, FrameContent, FrameSize, Dctx.Lent, History.Behind;
    var buf, keep := buf0, true;
    var at: Option<nat> := None;
    d := d0;
    var i := 0;
    while i < |calls| && d.hint.Some? && d.hint.value != 0
      invariant 0 <= i <= |calls| && (buf == buf0 || fresh(buf)) && Driving(c, buf, keep, at, g, d)
      invariant c.tmpIn == old(c.tmpIn) || fresh(c.tmpIn)
      invariant c.h.tmpOutBuffer == old(c.h.tmpOutBuffer) || fresh(c.h.tmpOutBuffer)
      invariant d.hint.Some? && d.hint.value != 0 && Generous(calls) ==> d.used + |d.out| >= i
    {
      buf, at, d := OneCall(c, buf, keep, at, calls[i], t, g, d);
      keep := calls[i].stable;
      i := i + 1;
    }
    if d.hint.Some? {
      ValidTails(c);
    }
  }

  lemma ValidTails(c: Dctx)
    requires c.Valid()
    ensures Tails(c.decodings)
  {
  }

  /** Every drive of a context over a stream that begins with a valid frame, whatever the calls:
      the output never leaves the frame's content; it is all of it, and the stream is taken up to
      the frame's end, when the hint is 0; each block was decoded behind the history it needs. A
      drive with calls that always offer some input and some room comes to an end, and to a good
      end exactly when nothing was left over in the context, or the header overwrites it. */
  method DriveOn(c: Dctx, ghost f: Frame, t: seq<byte>, calls: seq<Piece>) returns (d: Drive)
    requires c.Valid() && c.stage == GetFrameHeader && Opens(c.x, f, t)
    modifies c, c.header, c.tmpIn, c.h, c.h.tmpOutBuffer
    ensures d.out <= FrameContent(f) && d.used <= FrameSize(f)
    ensures d.hint == Some(0) ==> d.out == FrameContent(f) && d.used == FrameSize(f) && c.Valid()
    ensures d.hint == Some(0) && f.Frame? ==> Log(f, |f.blocks|, c.decodings)
    ensures d.hint.Some? ==> Tails(c.decodings)
    ensures var clean := old(c.remaining) == 0 || f.Skippable? || f.info.size.Some?;
            && (d.hint == Some(0) ==> clean) && (d.hint.None? ==> !clean)
            && (Generous(calls) && |calls| > FrameSize(f) + |FrameContent(f)|
                ==> if clean then d.hint == Some(0) else d.hint.None?)
  {
    hide Opens, Dctx.Valid, Underway, Driving, Log, Tails;
    var buf;
    buf, d := Start(c, f, t);
    d := Loop(c, buf, c.goal, t, calls, d);
  }

  lemma SizeFits(x: Xxh, f: Frame, t: seq<byte>)
    requires Opens(x, f, t)
    ensures 0 < FrameSize(f) <= |t| && FrameSize(f) == |Render(x, f)|
  {
    if f.Frame? {
      FrameLength(x, f);
    }
  }

  /** A drive of a fresh context: no error ever comes, and 0 is returned exactly when the whole
      frame was taken, with the whole content put out. */
  method DriveFresh(x: Xxh, ghost f: Frame, t: seq<byte>, calls: seq<Piece>) returns (d: Drive, ghost ds: seq<Decoding>)
    requires Opens(x, f, t)
    ensures d.hint.Some? && d.out <= FrameContent(f) && d.used <= FrameSize(f)
    ensures d.hint == Some(0) ==> d.out == FrameContent(f) && d.used == FrameSize(f)
    ensures Generous(calls) && |calls| > FrameSize(f) + |FrameContent(f)| ==> d.hint == Some(0)
    ensures Tails(ds) && (d.hint == Some(0) && f.Frame? ==> Log(f, |f.blocks|, ds))
  {
    hide Opens, Dctx.Valid, Log, Tails;
    var c := new Dctx(x);
    d := DriveOn(c, f, t, calls);
    ds := c.decodings;
  }

  // ---- any stream ----

  /** A drive over a stream of which nothing is known, so far. */
  ghost predicate Reading(c: Dctx, t: seq<byte>, d: Drive)
    reads c`goal, c`stage, c.h`past
  {
    !c.goal.sound && d.used <= |t| && c.goal.tape == t[..d.used] && c.Out() == d.out
  }

  /** All that was taken is one frame that is accepted, and all that was put out is its content. */
  ghost predicate IsRead(x: Xxh, f: Frame, t: seq<byte>, d: Drive) {
    Accepted(f) && d.used <= |t| && t[..d.used] == Render(x, f) && d.out == FrameContent(f)
  }

  method CallAny(c: Dctx, b: array<byte>, start: nat, linked: bool, ghost keep: bool, call: Piece, t: seq<byte>, d0: Drive)
    returns (at: Option<nat>, d: Drive, ghost f: Frame)
    requires Held(c, b, keep, if linked then Some(start) else None) && Reading(c, t, d0)
    requires start + call.capacity <= b.Length && c.Accepts(b, start, start + call.capacity)
    modifies c, c.header, c.tmpIn, c.h, c.h.tmpOutBuffer, b
    ensures d.hint.Some? ==> if d.hint.value == 0 then IsRead(c.x, f, t, d) else Held(c, b, call.stable, at) && Reading(c, t, d)
    ensures c.tmpIn == old(c.tmpIn) || fresh(c.tmpIn)
    ensures c.h.tmpOutBuffer == old(c.h.tmpOutBuffer) || fresh(c.h.tmpOutBuffer)
  {
    hide Dctx.Advances, Dctx.Bounds, Dctx.Accepts, Dctx.Lent, Dctx.Out, History.Behind, Dctx.Valid, Dctx.Known,
         Accepted, Render, FrameContent;
    var n := Min(call.size, |t| - d0.used);
    var src := t[d0.used..d0.used + n];
    var hint, consumed, produced := c.Decompress(src, b, start, call.capacity, call.stable);
    var piece := b[start..start + produced];
    d := Drive(hint, d0.used + consumed, d0.out + piece);
    at := if linked && call.stable then Some(start + produced) else None;
    f := c.goal.seen;
    if hint.Some? {
      assert t[..d0.used] + src[..consumed] == t[..d0.used + consumed];
    }
  }

  method OneCallAny(c: Dctx, buf: array<byte>, keep: bool, at0: Option<nat>, call: Piece, t: seq<byte>, d0: Drive)
    returns (b: array<byte>, at: Option<nat>, d: Drive, ghost f: Frame)
    requires Held(c, buf, keep, at0) && Reading(c, t, d0)
    modifies c, c.header, c.tmpIn, c.h, c.h.tmpOutBuffer, buf
    ensures d.hint.Some? ==> if d.hint.value == 0 then IsRead(c.x, f, t, d) else Held(c, b, call.stable, at) && Reading(c, t, d)
    ensures b == buf || fresh(b)
    ensures c.tmpIn == old(c.tmpIn) || fresh(c.tmpIn)
    ensures c.h.tmpOutBuffer == old(c.h.tmpOutBuffer) || fresh(c.h.tmpOutBuffer)
  {
    hide Held, Reading, IsRead;
    var start, linked;
    b, start, linked := NextBuffer(c, buf, keep, at0, call);
    at, d, f := CallAny(c, b, start, linked, keep, call, t, d0);
  }

  /** A drive of a fresh context over any stream, whatever the calls. When it ends with the hint 0,
      all the bytes taken are one frame, the one given back, and what was put out is its content:
      nothing else is taken for a frame, no checksum, no size and no block is passed over, and it is
      the only frame the stream begins with. */
  method DriveAny(x: Xxh, t: seq<byte>, calls: seq<Piece>) returns (d: Drive, ghost f: Frame)
    ensures d.hint == Some(0) ==> IsRead(x, f, t, d)
    ensures d.hint == Some(0) && f.Frame? && f.info.contentSum ==> d.used >= 4 && t[d.used - 4..d.used] == Word(x(d.out))
    ensures d.hint == Some(0) && f.Frame? && Promised(f.info) != 0 ==> |d.out| % TWO64 == Promised(f.info)
    ensures d.hint == Some(0) ==> forall g :: Accepted(g) && Render(x, g) <= t ==> g == f
  {
    hide Held, Reading, Accepted, Render, FrameContent, Word;
    var c := new Dctx(x);
    var buf, keep := new byte[0], true;
    var at: Option<nat> := None;
    d, f := Drive(Some(1), 0, []), Skippable(0, []);
    StartsReading(c, buf, t);
    var i := 0;
    while i < |calls| && d.hint.Some? && d.hint.value != 0
      invariant fresh(c) && fresh(c.header) && fresh(c.tmpIn) && fresh(c.h) && fresh(c.h.tmpOutBuffer) && fresh(buf)
      invariant c.x == x && (d.hint.Some? ==> if d.hint.value == 0 then IsRead(x, f, t, d) else Held(c, buf, keep, at) && Reading(c, t, d))
    {
      buf, at, d, f := OneCallAny(c, buf, keep, at, calls[i], t, d);
      keep := calls[i].stable;
      i := i + 1;
    }
    if d.hint == Some(0) {
      ReadMeans(x, f, t, d);
      TheFrame(x, f, t, d);
    }
  }

  lemma TheFrame(x: Xxh, f: Frame, t: seq<byte>, d: Drive)
    requires IsRead(x, f, t, d)
    ensures forall g :: Accepted(g) && Render(x, g) <= t ==> g == f
  {
    hide RightBlocks, RenderFrom, Header;
    forall g | Accepted(g) && Render(x, g) <= t ensures g == f {
      OneFrame(x, f, g, t);
    }
  }

  lemma StartsReading(c: Dctx, buf: array<byte>, t: seq<byte>)
    requires c.Valid() && c.stage == GetFrameHeader && !c.goal.sound
    requires buf != c.header && buf != c.tmpIn && buf != c.h.tmpOutBuffer
    ensures Held(c, buf, true, None) && Reading(c, t, Drive(Some(1), 0, []))
  {
    hide Dctx.OnTrack, Dctx.Bounds, Dctx.Buffers;
    assert t[..0] == [];
  }

  lemma ReadMeans(x: Xxh, f: Frame, t: seq<byte>, d: Drive)
    requires IsRead(x, f, t, d)
    ensures f.Frame? && f.info.contentSum ==> d.used >= 4 && t[d.used - 4..d.used] == Word(x(d.out))
    ensures f.Frame? && Promised(f.info) != 0 ==> |d.out| % TWO64 == Promised(f.info)
  {
    if f.Frame? {
      FrameEnds(x, f);
      if f.info.contentSum {
        assert t[d.used - 4..d.used] == t[..d.used][d.used - 4..];
      }
    }
  }

  /** A frame with a content checksum ends with it. */
  lemma FrameEnds(x: Xxh, f: Frame)
    requires f.Frame? && 4 <= f.info.sizeId <= 7
    ensures var r := Render(x, f); f.info.contentSum ==> |r| >= 4 && r[|r| - 4..] == Word(x(FrameContent(f)))
  {
    hide Header, BlocksBytes, Word, FrameContent, Contents;
    Assembled(x, f.info, f.blocks);
    EndBytes(x, f);
    if f.info.contentSum {
      var w := Word(x(FrameContent(f)));
      Assoc(Header(x, f.info) + BlocksBytes(x, f.info, f.blocks), [0, 0, 0, 0], w);
      WordSize4(x(FrameContent(f)));
    }
  }

  lemma WordSize4(n: nat)
    ensures |Word(n)| == 4
  {
  }

  /** Two drives of the same frame, cut differently, come to the same. */
  method Agree(x: Xxh, ghost f: Frame, t1: seq<byte>, t2: seq<byte>, calls1: seq<Piece>, calls2: seq<Piece>)
    returns (d1: Drive, d2: Drive)
    requires Opens(x, f, t1) && Opens(x, f, t2)
    ensures d1.hint == d2.hint == Some(0) ==> d1.out == d2.out && d1.used == d2.used
    ensures d1.out <= d2.out || d2.out <= d1.out
  {
    hide Opens, Log, Tails;
    ghost var ds;
    d1, ds := DriveFresh(x, f, t1, calls1);
    d2, ds := DriveFresh(x, f, t2, calls2);
    if |d1.out| <= |d2.out| {
      assert d1.out == FrameContent(f)[..|d1.out|] == d2.out[..|d1.out|];
    } else {
      assert d2.out == FrameContent(f)[..|d2.out|] == d1.out[..|d2.out|];
    }
  }

  /** In a drive of a linked frame, each compressed block was decoded behind a history that ends
      with the last 64 KB of all the content before it, or with all of it. */
  lemma BlockHistory(f: Frame, ds: seq<Decoding>, i: nat)
    requires f.Frame? && Log(f, |f.blocks|, ds) && Tails(ds)
    requires i < |f.blocks| && f.blocks[i].Packed?
    ensures PackedBefore(f, i) < |ds| == PackedBefore(f, |f.blocks|)
    ensures var h, w := ds[PackedBefore(f, i)].history, Window(f.info.linked, Contents(f.blocks, i));
            |w| <= |h| && h[|h| - |w|..] == w
  {
    LogAt(f, |f.blocks|, ds, i);
    TailsAt(ds, PackedBefore(f, i));
  }

  /** Feeds a context just the header of a frame. */
  method FeedHeader(c: Dctx, ghost f: Frame, t: seq<byte>, n: nat)
    requires c.Valid() && c.stage == GetFrameHeader && c.remaining == 0 && c.Lent() == {} && Opens(c.x, f, t)
    requires f.Frame? && n == HeaderSize(f.info) && n <= |t| && Promised(f.info) != 0
    modifies c, c.header, c.tmpIn, c.h, c.h.tmpOutBuffer
    ensures c.Owned() && c.remaining == Promised(f.info)
    ensures c.tmpIn == old(c.tmpIn) || fresh(c.tmpIn)
    ensures c.h.tmpOutBuffer == old(c.h.tmpOutBuffer) || fresh(c.h.tmpOutBuffer)
  {
    hide Opens, Laid, GoodBlocks, Dctx.OnTrack, Dctx.Bounds, Log, Tails, Hands, Dctx.Buffers;
    c.Aim(f, t);
    var buf := new byte[1];
    BlockEnds(f, 0);
    var hint, consumed, produced := c.Decompress(t[..n], buf, 0, 1, false);
    if consumed < n {
      c.HeaderFirst();
    }
    c.LeftOver();
  }

  /** A context that was fed just the header of a frame with a content size, and then reset,
      fails on every frame that records none, however that frame is cut. */
  method ResetMidFrame(x: Xxh, ghost f1: Frame, t1: seq<byte>, n: nat, ghost f2: Frame, t2: seq<byte>, calls: seq<Piece>)
    returns (d: Drive)
    requires Opens(x, f1, t1) && f1.Frame? && n == HeaderSize(f1.info) && n <= |t1| && Promised(f1.info) != 0
    requires Opens(x, f2, t2) && f2.Frame? && f2.info.size.None?
    ensures d.hint != Some(0)
    ensures Generous(calls) && |calls| > FrameSize(f2) + |FrameContent(f2)| ==> d.hint.None?
  {
    hide Opens, Dctx.Valid, Log, Tails;
    var c := new Dctx(x);
    FeedHeader(c, f1, t1, n);
    c.ResetContext();
    d := DriveOn(c, f2, t2, calls);
  }
}
