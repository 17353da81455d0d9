/**
 Building a Windows command line from an argument list, and the rules by which a started
 program takes it apart again.
 */
module ArgQuoting {
  import opened Bytes

  /** A C string: no character of it is NUL. */
  type CString = s: seq<char> | '\0' !in s

  // ---- the Microsoft argument rules ----

  /** Where the parser is: inside quotes, inside an argument, how many backslashes it has just
      passed, the argument so far and the arguments before it. */
  datatype Parser = Parser(quoted: bool, started: bool, slashes: nat, arg: seq<char>, args: seq<seq<char>>)

  const START: Parser := Parser(false, false, 0, [], [])

  function Slashes(n: nat): (s: seq<char>)
    ensures |s| == n && forall i :: 0 <= i < n ==> s[i] == '\\'
  {
    seq(n, _ => '\\')
  }

  /** Backslashes are literal unless a quotation mark follows. Then each pair stands for one;
      an even number leaves the mark a delimiter, an odd one makes it literal. Blanks outside
      quotation marks separate arguments. */
  function Step(p: Parser, c: char): Parser {
    if c == '\\' then p.(slashes := p.slashes + 1, started := true)
    else if c == '"' then
      var arg := p.arg + Slashes(p.slashes / 2);
      if p.slashes % 2 == 0 then p.(quoted := !p.quoted, started := true, slashes := 0, arg := arg)
      else p.(started := true, slashes := 0, arg := arg + ['"'])
    else if (c == ' ' || c == '\t') && !p.quoted then
      if p.started then Parser(false, false, 0, [], p.args + [p.arg + Slashes(p.slashes)]) else p
    else p.(started := true, slashes := 0, arg := p.arg + Slashes(p.slashes) + [c])
  }

  function Scan(p: Parser, line: seq<char>): Parser
    decreases |line|
  {
    if line == [] then p else Scan(Step(p, line[0]), line[1..])
  }

  /** The arguments a program sees. */
  function Parse(line: seq<char>): seq<seq<char>> {
    var p := Scan(START, line);
    if p.started then p.args + [p.arg + Slashes(p.slashes)] else p.args
  }

  // ---- quoting ----

  /** How many backslashes a string ends with. */
  function Trail(s: seq<char>): (n: nat)
    ensures n <= |s|
  {
    if s == [] || s[|s| - 1] != '\\' then 0 else 1 + Trail(s[..|s| - 1])
  }

  /** The string with its escapes, without the backslashes it ends with. */
  function Escaped(s: seq<char>): seq<char> {
    if s == [] then []
    else
      var init, c := s[..|s| - 1], s[|s| - 1];
      if c == '\\' then Escaped(init)
      else if c == '"' then Escaped(init) + Slashes(2 * Trail(init) + 1) + [c]
      else Escaped(init) + Slashes(Trail(init)) + [c]
  }

  function Quote(s: seq<char>): seq<char> {
    ['"'] + Escaped(s) + Slashes(2 * Trail(s)) + ['"']
  }

  /** Every argument quoted, each followed by a space. */
  function Line(list: seq<seq<char>>): (line: seq<char>)
    ensures list != [] ==> |line| >= 3
  {
    if list == [] then [] else Line(list[..|list| - 1]) + Quote(list[|list| - 1]) + [' ']
  }

  // ---- lines known by heart ----

  /** An argument with a quotation mark and a backslash at its end. */
  lemma KnownQuote()
    ensures Quote(['a', '"', '\\']) == ['"', 'a', '\\', '"', '\\', '\\', '"']
  {
    var s := ['a', '"', '\\'];
    assert s[..2] == ['a', '"'];
    KnownEscaped();
    assert Trail(s) == 1 && Slashes(2) == ['\\', '\\'];
  }

  lemma KnownEscaped()
    ensures Escaped(['a', '"']) == ['a', '\\', '"']
  {
    assert ['a', '"'][..1] == ['a'] && ['a'][..0] == [];
    assert Escaped(['a']) == ['a'];
    assert Trail(['a']) == 0 && Slashes(1) == ['\\'];
  }

  /** A blank inside quotation marks, and a quotation mark behind a backslash. */
  lemma KnownParse()
    ensures Parse(['"', 'a', ' ', '"', ' ', 'b', '\\', '"']) == [['a', ' '], ['b', '"']]
  {
    assert ['"', 'a', ' ', '"', ' ', 'b', '\\', '"'] == ['"', 'a', ' '] + ['"', ' ', 'b', '\\', '"'];
    ScanConcat(START, ['"', 'a', ' '], ['"', ' ', 'b', '\\', '"']);
    KnownScan1();
    KnownScan2();
    assert ['b', '"'] + Slashes(0) == ['b', '"'];
    assert [['a', ' ']] + [['b', '"']] == [['a', ' '], ['b', '"']];
  }

  lemma KnownScan1()
    ensures Scan(START, ['"', 'a', ' ']) == Parser(true, true, 0, ['a', ' '], [])
  {
    assert ['"', 'a', ' '][1..] == ['a', ' '] && ['a', ' '][1..] == [' '] && [' '][1..] == [];
    assert Slashes(0) == [];
  }

  lemma KnownScan2()
    ensures Scan(Parser(true, true, 0, ['a', ' '], []), ['"', ' ', 'b', '\\', '"']) == Parser(false, true, 0, ['b', '"'], [['a', ' ']])
  {
    assert Slashes(0) == [] && [' ', 'b', '\\', '"'][1..] == ['b', '\\', '"'];
    var p := Parser(false, false, 0, [], [['a', ' ']]);
    assert Step(Parser(true, true, 0, ['a', ' '], []), '"') == Parser(false, true, 0, ['a', ' '], []);
    assert Step(Parser(false, true, 0, ['a', ' '], []), ' ') == p;
    KnownScan3();
    assert ['"', ' ', 'b', '\\', '"'][1..] == [' ', 'b', '\\', '"'];
  }

  lemma KnownScan3()
    ensures Scan(Parser(false, false, 0, [], [['a', ' ']]), ['b', '\\', '"']) == Parser(false, true, 0, ['b', '"'], [['a', ' ']])
  {
    var args := [['a', ' ']];
    assert Slashes(0) == [] && ['b', '\\', '"'][1..] == ['\\', '"'] && ['\\', '"'][1..] == ['"'] && ['"'][1..] == [];
    assert Step(Parser(false, false, 0, [], args), 'b') == Parser(false, true, 0, ['b'], args);
    assert Step(Parser(false, true, 0, ['b'], args), '\\') == Parser(false, true, 1, ['b'], args);
    assert Step(Parser(false, true, 1, ['b'], args), '"') == Parser(false, true, 0, ['b', '"'], args);
  }

  // ---- the round trip ----

  lemma {:induction false} ScanConcat(p: Parser, x: seq<char>, y: seq<char>)
    ensures Scan(p, x + y) == Scan(Scan(p, x), y)
    decreases |x|
  {
    if x == [] {
      assert x + y == y;
    } else {
      assert (x + y)[0] == x[0] && (x + y)[1..] == x[1..] + y;
      ScanConcat(Step(p, x[0]), x[1..], y);
    }
  }

  lemma ScanChar(p: Parser, x: seq<char>, c: char)
    ensures Scan(p, x + [c]) == Step(Scan(p, x), c)
  {
    ScanConcat(p, x, [c]);
  }

  lemma {:induction false} ScanSlashes(p: Parser, n: nat)
    requires p.started
    ensures Scan(p, Slashes(n)) == p.(slashes := p.slashes + n)
    decreases n
  {
    if n > 0 {
      assert Slashes(n)[1..] == Slashes(n - 1);
      ScanSlashes(p.(slashes := p.slashes + 1), n - 1);
    }
  }

  lemma {:induction false} TrailIsSlashes(s: seq<char>)
    ensures s == s[..|s| - Trail(s)] + Slashes(Trail(s))
    decreases |s|
  {
    if Trail(s) > 0 {
      var init := s[..|s| - 1];
      TrailIsSlashes(init);
      assert s == init + ['\\'];
      assert s[..|s| - Trail(s)] == init[..|init| - Trail(init)];
      assert Slashes(Trail(s)) == Slashes(Trail(init)) + ['\\'];
    }
  }

  /** Inside quotation marks, with an argument under way. */
  function Inside(arg: seq<char>, args: seq<seq<char>>): Parser {
    Parser(true, true, 0, arg, args)
  }

  /** Scanning the escaped string brings back the string, but for its last backslashes. */
  lemma {:induction false} ScanEscaped(s: seq<char>, args: seq<seq<char>>)
    ensures Scan(Inside([], args), Escaped(s)) == Inside(s[..|s| - Trail(s)], args)
    decreases |s|
  {
    if s != [] {
      var init, c := s[..|s| - 1], s[|s| - 1];
      ScanEscaped(init, args);
      if c == '\\' {
        assert s[..|s| - Trail(s)] == init[..|init| - Trail(init)];
      } else {
        ScanNext(Escaped(init), init[..|init| - Trail(init)], Trail(init), c, args);
        TrailIsSlashes(init);
        assert s == init + [c] == s[..|s|];
      }
    }
  }

  lemma ScanNext(e: seq<char>, arg: seq<char>, trail: nat, c: char, args: seq<seq<char>>)
    requires c != '\\'
    requires Scan(Inside([], args), e) == Inside(arg, args)
    ensures Scan(Inside([], args), e + Slashes(if c == '"' then 2 * trail + 1 else trail) + [c])
            == Inside(arg + Slashes(trail) + [c], args)
  {
    var n := if c == '"' then 2 * trail + 1 else trail;
    ScanPiece(Inside([], args), Inside(arg, args), e, n, c);
    ClosePiece(arg, trail, c, args);
  }

  /** A character inside quotation marks takes in the backslashes before it. */
  lemma ClosePiece(arg: seq<char>, trail: nat, c: char, args: seq<seq<char>>)
    requires c != '\\'
    ensures var n := if c == '"' then 2 * trail + 1 else trail;
            Step(Inside(arg, args).(slashes := n), c) == Inside(arg + Slashes(trail) + [c], args)
  {
    if c == '"' {
      assert (2 * trail + 1) / 2 == trail;
    }
  }

  /** A run of backslashes and the character that ends it. */
  lemma ScanPiece(p: Parser, q: Parser, before: seq<char>, n: nat, c: char)
    requires Scan(p, before) == q && q.started
    ensures Scan(p, before + Slashes(n) + [c]) == Step(q.(slashes := q.slashes + n), c)
  {
    ScanChar(p, before + Slashes(n), c);
    ScanConcat(p, before, Slashes(n));
    ScanSlashes(q, n);
  }

  /** A quoted argument is taken in whole, whatever backslashes and quotation marks it has. */
  lemma ScanQuote(s: seq<char>, args: seq<seq<char>>)
    ensures Scan(Parser(false, false, 0, [], args), Quote(s)) == Parser(false, true, 0, s, args)
  {
    var p := Parser(false, false, 0, [], args);
    var open: seq<char> := ['"'];
    assert Step(p, '"') == Inside([], args);
    ScanConcat(p, open, Escaped(s));
    ScanEscaped(s, args);
    ScanPiece(p, Inside(s[..|s| - Trail(s)], args), open + Escaped(s), 2 * Trail(s), '"');
    TrailIsSlashes(s);
  }

  lemma {:induction false} ScanLine(list: seq<seq<char>>)
    ensures Scan(START, Line(list)) == Parser(false, false, 0, [], list)
    decreases |list|
  {
    if list != [] {
      var init, last := list[..|list| - 1], list[|list| - 1];
      ScanLine(init);
      ScanLast(Line(init), init, last);
      ScanChar(START, Line(init) + Quote(last), ' ');
      assert init + [last] == list;
      assert last + Slashes(0) == last;
    }
  }

  lemma ScanLast(line: seq<char>, init: seq<seq<char>>, last: seq<char>)
    requires Scan(START, line) == Parser(false, false, 0, [], init)
    ensures Scan(START, line + Quote(last)) == Parser(false, true, 0, last, init)
    ensures Parse(line + Quote(last)) == init + [last]
  {
    ScanConcat(START, line, Quote(last));
    ScanQuote(last, init);
    assert last + Slashes(0) == last;
  }

  /** Parsing the command line, without its last space, gives the arguments back. */
  lemma ParseLine(list: seq<seq<char>>)
    requires list != []
    ensures Parse(Line(list)[..|Line(list)| - 1]) == list
  {
    var init, last := list[..|list| - 1], list[|list| - 1];
    assert init + [last] == list;
    ScanLine(init);
    ScanLast(Line(init), init, last);
    LineButSpace(list);
  }

  lemma LineButSpace(list: seq<seq<char>>)
    requires list != []
    ensures Line(list)[..|Line(list)| - 1] == Line(list[..|list| - 1]) + Quote(list[|list| - 1])
  {
  }

  // ---- an argument that needs no escapes ----

  /** Escapes are added exactly when there is a quotation mark, or a backslash at the end: so a
      program name without these is also found by a parser that knows no escapes. */
  lemma {:induction false} PlainQuote(s: seq<char>)
    ensures Quote(s) == ['"'] + s + ['"'] <==> '"' !in s && Trail(s) == 0
  {
    EscapedLength(s);
    if '"' !in s && Trail(s) == 0 {
      EscapedPlain(s);
      assert Quote(s) == ['"'] + s + ['"'];
    } else {
      assert |Quote(s)| == 2 + |Escaped(s)| + 2 * Trail(s);
      assert |['"'] + s + ['"']| == 2 + |s|;
    }
  }

  lemma {:induction false} EscapedPlain(s: seq<char>)
    requires '"' !in s
    ensures Escaped(s) == s[..|s| - Trail(s)]
    decreases |s|
  {
    if s != [] {
      var init, c := s[..|s| - 1], s[|s| - 1];
      EscapedPlain(init);
      TrailIsSlashes(init);
      if c == '\\' {
        assert s[..|s| - Trail(s)] == init[..|init| - Trail(init)];
      } else {
        assert s[..|s|] == init + [c];
      }
    }
  }

  lemma {:induction false} EscapedLength(s: seq<char>)
    ensures |Escaped(s)| + Trail(s) >= |s|
    ensures '"' in s ==> |Escaped(s)| + Trail(s) > |s|
    decreases |s|
  {
    if s != [] {
      EscapedLength(s[..|s| - 1]);
    }
  }

  // ---- the code ----

  /** The first pass over one argument: how many characters it will take, with its space. */
  method CountArg(arg: seq<char>) returns (n: nat)
    ensures n == |Quote(arg)| + 1
  {
    n := 0;
    var bs := 0;
    var j := 0;
    while j < |arg|
      invariant 0 <= j <= |arg|
      invariant bs == Trail(arg[..j])
      invariant n == |Escaped(arg[..j])|
    {
      assert arg[..j + 1][..j] == arg[..j];
      if arg[j] == '\\' {
        bs := bs + 1;
      } else {
        if arg[j] == '"' {
          bs := 2 * bs + 1;
        }
        n := n + bs + 1;
        bs := 0;
      }
      j := j + 1;
    }
    assert arg[..j] == arg;
    n := n + 2 * bs + 3;
  }

  /** Writes a run of backslashes. */
  method WriteSlashes(str: array<char>, start: nat, count: nat) returns (ptr: nat)
    requires start + count <= str.Length
    modifies str
    ensures ptr == start + count
    ensures str[..ptr] == old(str[..start]) + Slashes(count)
  {
    var bs: nat := count;
    ptr := start;
    while bs > 0
      invariant bs <= count && ptr == start + count - bs
      invariant str[..ptr] == old(str[..start]) + Slashes(count - bs)
    {
      str[ptr] := '\\';
      assert str[..ptr + 1] == str[..ptr] + ['\\'];
      assert Slashes(count - bs) + ['\\'] == Slashes(count - bs + 1);
      ptr := ptr + 1;
      bs := bs - 1;
    }
  }

  method WriteChar(str: array<char>, start: nat, c: char) returns (ptr: nat)
    requires start < str.Length
    modifies str
    ensures ptr == start + 1
    ensures str[..ptr] == old(str[..start]) + [c]
  {
    str[start] := c;
    ptr := start + 1;
  }

  /** The second pass over one argument: exactly as many characters as the first counted. */
  method WriteArg(str: array<char>, start: nat, arg: seq<char>) returns (ptr: nat)
    requires start + |Quote(arg)| + 1 <= str.Length
    modifies str
    ensures ptr == start + |Quote(arg)| + 1
    ensures str[..ptr] == old(str[..start]) + Quote(arg) + [' ']
  {
    ptr := WriteChar(str, start, '"');
    ghost var front := str[..ptr];
    var bs := 0;
    var j := 0;
    while j < |arg|
      invariant 0 <= j <= |arg|
      invariant bs == Trail(arg[..j])
      invariant str.Length >= ptr
      invariant str[..ptr] == front + Escaped(arg[..j])
    {
      EscapedFits(arg, j, j + 1);
      ptr, bs := WriteNext(str, ptr, arg, j, bs, front);
      j := j + 1;
    }
    assert arg[..j] == arg;
    ptr := WriteSlashes(str, ptr, 2 * bs);
    ptr := WriteChar(str, ptr, '"');
    ptr := WriteChar(str, ptr, ' ');
    QuoteParts(old(str[..start]), arg);
  }

  lemma QuoteParts(before: seq<char>, arg: seq<char>)
    ensures before + ['"'] + Escaped(arg) + Slashes(2 * Trail(arg)) + ['"'] + [' '] == before + Quote(arg) + [' ']
  {
  }

  /** One character of an argument. */
  method WriteNext(str: array<char>, start: nat, arg: seq<char>, j: nat, bs: nat, ghost front: seq<char>)
    returns (ptr: nat, rest: nat)
    requires j < |arg| && bs == Trail(arg[..j]) && start <= str.Length
    requires str[..start] == front + Escaped(arg[..j])
    requires |front| + |Escaped(arg[..j + 1])| <= str.Length
    modifies str
    ensures rest == Trail(arg[..j + 1]) && ptr <= str.Length
    ensures str[..ptr] == front + Escaped(arg[..j + 1])
  {
    assert arg[..j + 1][..j] == arg[..j];
    ptr, rest := start, bs;
    if arg[j] == '\\' {
      rest := rest + 1;
    } else {
      if arg[j] == '"' {
        rest := 2 * rest + 1;
      }
      assert |str[..start]| == start;
      ptr := WriteSlashes(str, ptr, rest);
      ptr := WriteChar(str, ptr, arg[j]);
      EscapedParts(front, Escaped(arg[..j]), rest, arg[j]);
      rest := 0;
    }
  }

  lemma EscapedParts(front: seq<char>, e: seq<char>, n: nat, c: char)
    ensures front + e + Slashes(n) + [c] == front + (e + Slashes(n) + [c])
  {
  }

  /** What is written grows with the argument. */
  lemma {:induction false} EscapedFits(arg: seq<char>, i: nat, j: nat)
    requires i <= j <= |arg|
    ensures |Escaped(arg[..i])| <= |Escaped(arg[..j])| <= |Escaped(arg)|
    decreases |arg| - i
  {
    if i < |arg| {
      assert arg[..i + 1][..i] == arg[..i];
      EscapedFits(arg, i + 1, Max(i + 1, j));
    } else {
      assert arg[..i] == arg;
    }
  }

  /** The arguments to print: the prefix first, when there is one. */
  function List(prefix: Option<CString>, argv: seq<CString>): seq<seq<char>> {
    (if prefix.Some? then [prefix.value] else []) + argv
  }

  /** win32argvtos: the buffer holds the command line and its NUL in exactly the characters the
      first pass counted, with one to spare. */
  method Win32ArgvToS(prefix: Option<CString>, argv: seq<CString>) returns (str: array<char>, length: nat)
    requires prefix.Some? || argv != []
    ensures fresh(str) && str.Length == length + 2 == |Line(List(prefix, argv))| + 1
    ensures str[..length] == Line(List(prefix, argv))[..length] && str[length] == '\0'
    ensures Parse(str[..length]) == List(prefix, argv)
    ensures '\0' !in str[..length]
  {
    ghost var list := List(prefix, argv);
    var k := CountAll(prefix, argv);
    str := new char[k + 1];
    var ptr := WriteAll(str, prefix, argv);
    length := ptr - 1;
    assert str[..length] == str[..ptr][..length];
    str[ptr - 1] := '\0';
    ParseLine(list);
    LineHasNoNul(list);
  }

  /** The second pass. */
  method WriteAll(str: array<char>, prefix: Option<CString>, argv: seq<CString>) returns (ptr: nat)
    requires prefix.Some? || argv != []
    requires str.Length >= |Line(List(prefix, argv))|
    modifies str
    ensures ptr == |Line(List(prefix, argv))| && str[..ptr] == Line(List(prefix, argv))
  {
    ghost var list := List(prefix, argv);
    var i := 0;
    ptr := 0;
    var arg := [];
    if prefix.Some? {
      arg := prefix.value;
    } else {
      arg := argv[0];
      i := 1;
    }
    ghost var done := 0;
    while true
      invariant 0 <= i <= |argv| && done < |list| && arg == list[done]
      invariant |list| - (done + 1) == |argv| - i
      invariant ptr <= str.Length && str[..ptr] == Line(list[..done])
      decreases |argv| - i
    {
      LineFits(list, done + 1);
      LineNext(list, done);
      ptr := WriteArg(str, ptr, arg);
      done := done + 1;
      if i == |argv| {
        break;
      }
      arg := argv[i];
      i := i + 1;
    }
    assert list[..done] == list;
  }

  /** The first pass. */
  method CountAll(prefix: Option<CString>, argv: seq<CString>) returns (k: nat)
    requires prefix.Some? || argv != []
    ensures k == |Line(List(prefix, argv))|
  {
    ghost var list := List(prefix, argv);
    k := 0;
    var i := 0;
    var arg := [];
    if prefix.Some? {
      arg := prefix.value;
    } else {
      arg := argv[0];
      i := 1;
    }
    ghost var done := 0;
    while true
      invariant 0 <= i <= |argv| && done < |list| && arg == list[done]
      invariant |list| - (done + 1) == |argv| - i
      invariant k == |Line(list[..done])|
      decreases |argv| - i
    {
      LineNext(list, done);
      var n := CountArg(arg);
      k := k + n;
      done := done + 1;
      if i == |argv| {
        break;
      }
      arg := argv[i];
      i := i + 1;
    }
    assert list[..done] == list;
  }

  lemma LineNext(list: seq<seq<char>>, i: nat)
    requires i < |list|
    ensures Line(list[..i + 1]) == Line(list[..i]) + Quote(list[i]) + [' ']
  {
    assert list[..i + 1][..i] == list[..i];
  }

  lemma {:induction false} LineFits(list: seq<seq<char>>, i: nat)
    requires i <= |list|
    ensures |Line(list[..i])| <= |Line(list)|
    decreases |list| - i
  {
    if i < |list| {
      assert list[..i + 1][..i] == list[..i];
      LineFits(list, i + 1);
    } else {
      assert list[..i] == list;
    }
  }

  lemma {:induction false} LineHasNoNul(list: seq<seq<char>>)
    requires forall i :: 0 <= i < |list| ==> '\0' !in list[i]
    ensures '\0' !in Line(list)
    decreases |list|
  {
    if list != [] {
      LineHasNoNul(list[..|list| - 1]);
      EscapedHasNoNul(list[|list| - 1]);
    }
  }

  lemma {:induction false} EscapedHasNoNul(s: seq<char>)
    requires '\0' !in s
    ensures '\0' !in Escaped(s)
    decreases |s|
  {
    if s != [] {
      EscapedHasNoNul(s[..|s| - 1]);
    }
  }
}
