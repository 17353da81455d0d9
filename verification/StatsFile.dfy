/**
 The text of a statistics file: one counter a line. Reading adds to counters that are there
 already, modulo 2^32.
 */
module StatsFile {
  import opened Bytes
  import opened Decimals

  const LONG_MAX: int := 0x7FFF_FFFF_FFFF_FFFF
  const LONG_MIN: int := -0x8000_0000_0000_0000

  // ---- strtol ----

  predicate IsSpace(c: char) {
    c == ' ' || c == '\t' || c == '\n' || c == '\r' || c as int == 11 || c as int == 12
  }

  function DigitCount(s: seq<char>): (n: nat)
    ensures n <= |s| && forall i :: 0 <= i < n ==> IsDigit(s[i])
  {
    if s == [] || !IsDigit(s[0]) then 0 else 1 + DigitCount(s[1..])
  }

  function Clamp(n: int): int {
    if n > LONG_MAX then LONG_MAX else if n < LONG_MIN then LONG_MIN else n
  }

  /** A number with its sign, and where it ends. */
  function SignedNumber(s: seq<char>): (r: Option<(int, nat)>)
    ensures r.Some? ==> 0 < r.value.1 <= |s|
  {
    var g := if s != [] && (s[0] == '-' || s[0] == '+') then 1 else 0;
    var n := DigitCount(s[g..]);
    if n == 0 then None
    else
      var v: int := Value(s[g..g + n]);
      Some((Clamp(if s[0] == '-' then -v else v), g + n))
  }

  /** strtol to base 10: the number and where it ends; nothing when there is none. */
  function StrToL(s: seq<char>): (r: Option<(int, nat)>)
    ensures r.Some? ==> 0 < r.value.1 <= |s|
  {
    if s != [] && IsSpace(s[0]) then
      var r := StrToL(s[1..]);
      if r == None then None else Some((r.value.0, r.value.1 + 1))
    else SignedNumber(s)
  }

  /** All the numbers at the beginning of a text. */
  function Numbers(s: seq<char>): seq<int>
    decreases |s|
  {
    var r := StrToL(s);
    if r == None then [] else [r.value.0] + Numbers(s[r.value.1..])
  }

  // ---- counters ----

  function Wrap(n: int): (r: u32) { n % TWO32 }

  /** The counters with some numbers added to the first of them. There are at least as many
      counters as numbers afterwards. */
  function Added(c: seq<u32>, numbers: seq<int>): (r: seq<u32>)
    ensures |r| == Max(|c|, |numbers|)
  {
    seq(Max(|c|, |numbers|), i requires 0 <= i < Max(|c|, |numbers|) =>
      Wrap((if i < |c| then c[i] else 0) + (if i < |numbers| then numbers[i] else 0)))
  }

  /** One number added to one counter, which is made if need be. */
  function Bump(c: seq<u32>, i: nat, n: int): seq<u32>
    requires i <= |c|
  {
    if i < |c| then c[i := Wrap(c[i] + n)] else c + [Wrap(n)]
  }

  function Zeros(n: nat): (r: seq<u32>)
    ensures |r| == n
  {
    seq(n, _ => 0)
  }

  // ---- reading ----

  /** strtol at a place of the buffer. */
  method NextNumber(buf: seq<char>, p: nat) returns (r: Option<(int, nat)>)
    requires p <= |buf|
    ensures r == None ==> Numbers(buf[p..]) == []
    ensures r != None ==> p < r.value.1 <= |buf| && Numbers(buf[p..]) == [r.value.0] + Numbers(buf[r.value.1..])
  {
    var n := StrToL(buf[p..]);
    if n == None {
      return None;
    }
    assert buf[p..][n.value.1..] == buf[p + n.value.1..];
    r := Some((n.value.0, p + n.value.1));
  }

  /** Grows the counters if need be, and adds to one of them. */
  method AddTo(counters: seq<u32>, i: nat, val: int) returns (r: seq<u32>)
    requires i <= |counters|
    ensures r == Bump(counters, i, val)
  {
    r := counters;
    if |r| < i + 1 {
      r := r + [0];
    }
    r := r[i := Wrap(r[i] + val)];
  }

  /** parse_stats. */
  method ParseStats(counters: seq<u32>, buf: seq<char>) returns (r: seq<u32>)
    ensures r == Added(counters, Numbers(buf))
  {
    r := counters;
    var i := 0;
    var p := 0;
    ghost var seen: seq<int> := [];
    AddNothing(counters);
    assert buf[0..] == buf && [] + Numbers(buf) == Numbers(buf);
    while true
      invariant p <= |buf| && i == |seen|
      invariant Numbers(buf) == seen + Numbers(buf[p..])
      invariant r == Added(counters, seen)
      decreases |buf| - p
    {
      var next := NextNumber(buf, p);
      if next == None {
        assert seen + [] == seen;
        return;
      }
      var val, p2 := next.value.0, next.value.1;
      Assoc(seen, [val], Numbers(buf[p2..]));
      AddOne(counters, seen, val);
      r := AddTo(r, i, val);
      seen := seen + [val];
      i := i + 1;
      p := p2;
    }
  }

  /** Every counter gains its number modulo 2^32; those that were not there count as zeros. */
  lemma AddedAt(c: seq<u32>, numbers: seq<int>, i: nat)
    requires i < |c| || i < |numbers|
    ensures |Added(c, numbers)| == if |c| < |numbers| then |numbers| else |c|
    ensures Added(c, numbers)[i] as int
      == ((if i < |c| then c[i] as int else 0) + (if i < |numbers| then numbers[i] else 0)) % 0x1_0000_0000
  {
  }

  lemma AddNothing(c: seq<u32>)
    ensures Added(c, []) == c
  {
  }

  lemma AddOne(c: seq<u32>, seen: seq<int>, n: int)
    ensures Added(c, seen + [n]) == Bump(Added(c, seen), |seen|, n)
  {
  }

  // ---- writing ----

  /** One counter a line. */
  function Text(c: seq<u32>): seq<char> {
    if c == [] then [] else Text(c[..|c| - 1]) + (Decimal(c[|c| - 1]) + ['\n'])
  }

  /** The loop of stats_write. */
  method WriteText(c: seq<u32>) returns (text: seq<char>)
    ensures text == Text(c)
  {
    text := [];
    var i := 0;
    while i < |c|
      invariant i <= |c| && text == Text(c[..i])
    {
      assert c[..i + 1][..i] == c[..i];
      text := text + (Decimal(c[i]) + ['\n']);
      i := i + 1;
    }
    assert c[..i] == c;
  }

  // ---- what is written is what is read ----

  lemma {:induction false} TextFirst(x: u32, c: seq<u32>)
    ensures Text([x] + c) == Decimal(x) + ['\n'] + Text(c)
    decreases |c|
  {
    if c == [] {
      assert [x][..0] == [];
    } else {
      var init := c[..|c| - 1];
      TextFirst(x, init);
      assert ([x] + c)[..|c|] == [x] + init;
    }
  }

  lemma {:induction false} DigitsEnd(s: seq<char>, rest: seq<char>)
    requires (forall i :: 0 <= i < |s| ==> IsDigit(s[i])) && (rest == [] || !IsDigit(rest[0]))
    ensures DigitCount(s + rest) == |s|
    decreases |s|
  {
    if s != [] {
      assert (s + rest)[1..] == s[1..] + rest;
      DigitsEnd(s[1..], rest);
    } else {
      assert s + rest == rest;
    }
  }

  lemma DigitsHere(d: seq<char>, rest: seq<char>)
    requires d != [] && (forall i :: 0 <= i < |d| ==> IsDigit(d[i])) && (rest == [] || !IsDigit(rest[0]))
    ensures IsDigit((d + rest)[0]) && SignedNumber(d + rest) == Some((Clamp(Value(d)), |d|))
  {
    var s := d + rest;
    assert IsDigit(d[0]) && s[0] == d[0];
    DigitsEnd(d, rest);
    assert s[0..] == s && s[0..0 + |d|] == d;
  }

  lemma NumberHere(x: u32, rest: seq<char>)
    requires rest == [] || !IsDigit(rest[0])
    ensures !IsSpace((Decimal(x) + rest)[0]) && SignedNumber(Decimal(x) + rest) == Some((x, |Decimal(x)|))
  {
    DecimalValue(x);
    DigitsHere(Decimal(x), rest);
  }

  /** A number at the beginning, or behind the end of a line. */
  lemma ReadsBack(x: u32, rest: seq<char>)
    requires rest == [] || !IsDigit(rest[0])
    ensures StrToL(Decimal(x) + rest) == Some((x, |Decimal(x)|))
    ensures StrToL(['\n'] + (Decimal(x) + rest)) == Some((x, 1 + |Decimal(x)|))
  {
    NumberHere(x, rest);
    SkipLine(Decimal(x) + rest);
  }

  lemma SkipLine(s: seq<char>)
    ensures StrToL(['\n'] + s) == if StrToL(s) == None then None else Some((StrToL(s).value.0, StrToL(s).value.1 + 1))
  {
    assert (['\n'] + s)[1..] == s;
  }

  lemma {:induction false} NumbersOfText(c: seq<u32>)
    ensures Numbers(Text(c)) == c && Numbers(['\n'] + Text(c)) == c
    decreases |c|
  {
    if c == [] {
      assert (['\n'] + Text(c))[1..] == [];
      assert StrToL([]) == None && StrToL(['\n'] + Text(c)) == None;
    } else {
      var x, rest := c[0], c[1..];
      assert c == [x] + rest;
      TextFirst(x, rest);
      var tail := ['\n'] + Text(rest);
      assert Text(c) == Decimal(x) + tail;
      ReadsBack(x, tail);
      assert Text(c)[|Decimal(x)|..] == tail;
      assert (['\n'] + Text(c))[1 + |Decimal(x)|..] == tail;
      NumbersOfText(rest);
    }
  }

  // ---- texts known by heart ----

  lemma KnownDecimal()
    ensures Decimal(0) == ['0'] && Decimal(305) == ['3', '0', '5']
  {
    assert Decimal(3) == ['3'] && Decimal(30) == ['3', '0'];
  }

  lemma KnownText()
    ensures Text([0, 305]) == ['0', '\n', '3', '0', '5', '\n']
  {
    KnownDecimal();
    assert [0, 305][..1] == [0] && [0][..0] == [];
    assert Text([0]) == ['0', '\n'];
  }

  /** White space and a sign come before the digits, and the first thing that is no number ends
      the reading. */
  lemma KnownNumbers()
    ensures Numbers(['\n', '-', '4', '2', 'x', '7']) == [-42]
  {
    var s := ['\n', '-', '4', '2', 'x', '7'];
    var u := ['-', '4', '2', 'x', '7'];
    KnownSigned(u);
    hide SignedNumber, IsSpace;
    assert s[1..] == u;
    SkipLine(u);
    assert ['\n'] + u == s;
    assert s[4..] == ['x', '7'];
    KnownNone();
  }

  lemma KnownNone()
    ensures StrToL(['x', '7']) == None
  {
    assert ['x', '7'][0..] == ['x', '7'];
  }

  lemma KnownSigned(u: seq<char>)
    requires u == ['-', '4', '2', 'x', '7']
    ensures StrToL(u) == Some((-42, 3))
  {
    assert u[1..] == ['4', '2', 'x', '7'] && u[1..][1..] == ['2', 'x', '7'] && u[1..][1..][1..] == ['x', '7'];
    assert DigitCount(u[1..]) == 1 + DigitCount(['2', 'x', '7']) == 2 + DigitCount(['x', '7']) == 2;
    var d := ['4', '2'];
    assert u[1..1 + 2] == d && d[..1] == ['4'] && ['4'][..0] == [];
    assert Value(['4']) == 4 && Value(d) == 42;
  }
}
