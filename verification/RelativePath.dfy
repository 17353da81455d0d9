/**
 Making a path relative to a directory: the common prefix of two paths, found by scanning
 characters, and the path that leads from one directory to the other.
 */
module RelativePath {
  // ---- paths ----

  /** A directory: the names on the way down from the root. */
  type Dir = seq<seq<char>>

  predicate Absolute(path: seq<char>) {
    path != [] && path[0] == '/'
  }

  predicate Name(c: seq<char>) {
    c != [] && '/' !in c && c != "." && c != ".."
  }

  predicate Canonical(dir: Dir) {
    forall i :: 0 <= i < |dir| ==> Name(dir[i])
  }

  /** Every name with a slash before it. */
  function Flat(dir: Dir): seq<char> {
    if dir == [] then [] else Flat(dir[..|dir| - 1]) + ['/'] + dir[|dir| - 1]
  }

  /** The canonical absolute path of a directory. */
  function Render(dir: Dir): seq<char> {
    if dir == [] then "/" else Flat(dir)
  }

  /** Following a path: the directory reached, the name being read, and the moves made. */
  datatype Walk = Walk(dir: Dir, name: seq<char>, moves: nat)

  /** The end of a name: `..` goes up, nothing and `.` stay, anything else goes down. */
  function Enter(w: Walk): Walk {
    if w.name == [] || w.name == "." then Walk(w.dir, [], w.moves)
    else if w.name == ".." then Walk(if w.dir == [] then [] else w.dir[..|w.dir| - 1], [], w.moves + 1)
    else Walk(w.dir + [w.name], [], w.moves + 1)
  }

  function Step(w: Walk, c: char): Walk {
    if c == '/' then Enter(w) else w.(name := w.name + [c])
  }

  function Follow(w: Walk, path: seq<char>): Walk {
    if path == [] then w else Step(Follow(w, path[..|path| - 1]), path[|path| - 1])
  }

  function From(dir: Dir): Walk {
    Walk(dir, [], 0)
  }

  /** Where a relative path leads. */
  function Resolve(dir: Dir, path: seq<char>): Walk {
    Enter(Follow(From(dir), path))
  }

  /** "../c" leads to c in the directory above, and from the root to c in the root, in two moves. */
  lemma KnownWalk(dir: Dir)
    ensures Resolve(dir, ['.', '.', '/', 'c']) == Walk((if dir == [] then [] else dir[..|dir| - 1]) + [['c']], [], 2)
  {
    hide Follow;
    KnownFollow(From(dir));
    assert ['c'][0] != '.';
  }

  /** "." leads nowhere. */
  lemma KnownStay(dir: Dir)
    ensures Resolve(dir, ['.']) == Walk(dir, [], 0)
  {
    assert ['.'][..0] == [] && [] + ['.'] == ['.'];
    assert Follow(From(dir), []) == From(dir);
  }

  lemma KnownRender(a: seq<char>, b: seq<char>)
    ensures Render([]) == ['/'] && Render([a, b]) == ['/'] + a + ['/'] + b
  {
    assert [a, b][..1] == [a] && [a][..0] == [];
    assert Flat([a]) == [] + ['/'] + a == ['/'] + a;
  }

  lemma KnownFollow(w: Walk)
    requires w.name == []
    ensures Follow(w, ['.', '.', '/', 'c']) == Walk(if w.dir == [] then [] else w.dir[..|w.dir| - 1], ['c'], w.moves + 1)
  {
    assert ['.', '.', '/', 'c'][..3] == ['.', '.', '/'] && ['.', '.', '/'][..2] == ['.', '.'];
    assert ['.', '.'][..1] == ['.'] && ['.'][..0] == [];
    assert Follow(w, []) == w && Follow(w, ['.']) == Walk(w.dir, [] + ['.'], w.moves);
    assert Follow(w, ['.', '.']) == Walk(w.dir, ['.', '.'], w.moves);
  }

  // ---- how far apart two directories are ----

  /** How many leading names two directories share. */
  function Shared(a: Dir, b: Dir): (k: nat)
    ensures k <= |a| && k <= |b| && a[..k] == b[..k]
    ensures k < |a| && k < |b| ==> a[k] != b[k]
  {
    if a == [] || b == [] || a[0] != b[0] then 0 else 1 + Shared(a[1..], b[1..])
  }

  function Distance(a: Dir, b: Dir): (n: nat) {
    |a| + |b| - 2 * Shared(a, b)
  }

  lemma SamePrefixAt<T>(x: seq<T>, y: seq<T>, k: nat, i: nat)
    requires i < k <= |x| && k <= |y| && x[..k] == y[..k]
    ensures x[i] == y[i]
  {
    assert x[i] == x[..k][i];
  }

  lemma SharedIsLongest(a: Dir, b: Dir, k: nat)
    requires k <= |a| && k <= |b| && a[..k] == b[..k]
    ensures k <= Shared(a, b)
  {
    if k > Shared(a, b) {
      SamePrefixAt(a, b, k, Shared(a, b));
    }
  }

  lemma SharedUp(a: Dir, b: Dir)
    requires a != []
    ensures Shared(a[..|a| - 1], b) <= Shared(a, b)
  {
    var up := a[..|a| - 1];
    var k := Shared(up, b);
    assert up[..k] == a[..k];
    SharedIsLongest(a, b, k);
  }

  lemma SharedDown(a: Dir, c: seq<char>, b: Dir)
    ensures Shared(a + [c], b) <= Shared(a, b) + 1
  {
    var k := Shared(a + [c], b);
    if k > 0 {
      assert (a + [c])[..k][..k - 1] == a[..k - 1];
      assert b[..k][..k - 1] == b[..k - 1];
      SharedIsLongest(a, b, k - 1);
    }
  }

  /** One name brings a walk at most one closer, and costs a move. */
  lemma EnterCloser(w: Walk, b: Dir)
    ensures Distance(w.dir, b) + w.moves <= Distance(Enter(w).dir, b) + Enter(w).moves
  {
    if w.name != [] && w.name != "." {
      if w.name != ".." {
        SharedDown(w.dir, w.name, b);
      } else if w.dir != [] {
        SharedUp(w.dir, b);
      }
    }
  }

  lemma {:induction false} FollowCloser(w: Walk, path: seq<char>, b: Dir)
    ensures Distance(w.dir, b) + w.moves <= Distance(Follow(w, path).dir, b) + Follow(w, path).moves
    decreases |path|
  {
    if path != [] {
      FollowCloser(w, path[..|path| - 1], b);
      EnterCloser(Follow(w, path[..|path| - 1]), b);
    }
  }

  /** No path from one directory to another makes fewer moves than their distance. */
  lemma NoShorterPath(a: Dir, path: seq<char>)
    ensures Resolve(a, path).moves >= Distance(a, Resolve(a, path).dir)
  {
    var b := Resolve(a, path).dir;
    FollowCloser(From(a), path, b);
    EnterCloser(Follow(From(a), path), b);
    SelfShared(b);
  }

  lemma SelfShared(b: Dir)
    ensures Distance(b, b) == 0
  {
    SharedIsLongest(b, b, |b|);
  }

  // ---- following paths ----

  lemma {:induction false} FollowConcat(w: Walk, x: seq<char>, y: seq<char>)
    ensures Follow(w, x + y) == Follow(Follow(w, x), y)
    decreases |y|
  {
    if y == [] {
      assert x + y == x;
    } else {
      assert (x + y)[..|x + y| - 1] == x + y[..|y| - 1];
      FollowConcat(w, x, y[..|y| - 1]);
    }
  }

  lemma {:induction false} FollowName(w: Walk, c: seq<char>)
    requires '/' !in c
    ensures Follow(w, c) == w.(name := w.name + c)
    decreases |c|
  {
    if c == [] {
      assert w.name + c == w.name;
    } else {
      FollowName(w, c[..|c| - 1]);
      assert c == c[..|c| - 1] + [c[|c| - 1]];
    }
  }

  lemma FollowSlash(w: Walk, x: seq<char>)
    ensures Follow(w, x + ['/']) == Enter(Follow(w, x))
  {
    assert (x + ['/'])[..|x|] == x;
  }

  /** A trailing slash makes no difference. */
  lemma TrailingSlash(a: Dir, x: seq<char>)
    ensures Resolve(a, x + ['/']) == Resolve(a, x)
  {
    FollowSlash(From(a), x);
  }

  /** Going down into a list of names. */
  lemma {:induction false} FollowFlat(w: Walk, b: Dir)
    requires w.name == [] && Canonical(b)
    ensures Enter(Follow(w, Flat(b))) == Walk(w.dir + b, [], w.moves + |b|)
    decreases |b|
  {
    if b == [] {
      assert w.dir + b == w.dir;
    } else {
      var init, last := b[..|b| - 1], b[|b| - 1];
      assert w.dir + init + [last] == w.dir + b by { assert init + [last] == b; }
      FollowFlat(w, init);
      FollowDown(w, Walk(w.dir + init, [], w.moves + |init|), Flat(init), last);
    }
  }

  /** One more name. */
  lemma FollowDown(w: Walk, v: Walk, x: seq<char>, c: seq<char>)
    requires Name(c) && Enter(Follow(w, x)) == v && v.name == []
    ensures Enter(Follow(w, x + ['/'] + c)) == Walk(v.dir + [c], [], v.moves + 1)
  {
    FollowSlash(w, x);
    FollowConcat(w, x + ['/'], c);
    EnterName(v, c);
  }

  lemma EnterName(v: Walk, c: seq<char>)
    requires Name(c) && v.name == []
    ensures Enter(Follow(v, c)) == Walk(v.dir + [c], [], v.moves + 1)
  {
    FollowName(v, c);
    assert [] + c == c;
  }

  /** Different directories have different paths. */
  lemma FlatInjective(a: Dir, b: Dir)
    requires Canonical(a) && Canonical(b) && Flat(a) == Flat(b)
    ensures a == b
  {
    FollowFlat(From([]), a);
    FollowFlat(From([]), b);
    assert [] + a == a && [] + b == b;
  }

  function Ups(n: nat): seq<char> {
    if n == 0 then [] else ['.', '.', '/'] + Ups(n - 1)
  }

  function Up(w: Walk): Walk {
    Walk(if w.dir == [] then [] else w.dir[..|w.dir| - 1], [], w.moves + 1)
  }

  lemma FollowUp(w: Walk)
    requires w.name == []
    ensures Follow(w, ['.', '.', '/']) == Up(w)
  {
    FollowName(w, "..");
    FollowSlash(w, "..");
    assert [] + ".." == "..";
    assert ".." + ['/'] == ['.', '.', '/'];
  }

  /** Each `../` goes up one directory. */
  lemma {:induction false} FollowUps(w: Walk, n: nat)
    requires w.name == [] && n <= |w.dir|
    ensures Follow(w, Ups(n)) == Walk(w.dir[..|w.dir| - n], [], w.moves + n)
    decreases n
  {
    if n > 0 {
      var up := Up(w);
      assert up.dir[..|up.dir| - (n - 1)] == w.dir[..|w.dir| - n];
      FollowUps(up, n - 1);
      FollowUp(w);
      FollowConcat(w, ['.', '.', '/'], Ups(n - 1));
    } else {
      assert w.dir[..|w.dir|] == w.dir;
    }
  }

  // ---- the common prefix ----

  /** The end of a string, or a slash in it. */
  predicate Edge(s: seq<char>, i: nat) {
    i == |s| || (i < |s| && s[i] == '/')
  }

  /** A place where both strings have an edge, and before which they agree. */
  predicate CommonEdge(s1: seq<char>, s2: seq<char>, i: nat) {
    Edge(s1, i) && Edge(s2, i) && s1[..i] == s2[..i]
  }

  /** common_dir_prefix_length: the last common edge, but for two one-character strings. It
      asks for a common edge because without one it would scan off the front of the strings. */
  method CommonDirPrefixLength(s1: seq<char>, s2: seq<char>) returns (n: nat)
    requires exists i: nat :: CommonEdge(s1, s2, i)
    ensures |s1| == 1 && s1 == s2 ==> n == 0
    ensures !(|s1| == 1 && s1 == s2) ==> CommonEdge(s1, s2, n) && forall i: nat :: i > n ==> !CommonEdge(s1, s2, i)
  {
    var p := 0;
    while p < |s1| && p < |s2| && s1[p] == s2[p]
      invariant p <= |s1| && p <= |s2|
      invariant s1[..p] == s2[..p]
    {
      p := p + 1;
    }
    forall i: nat | i > p ensures !CommonEdge(s1, s2, i) {
      if CommonEdge(s1, s2, i) {
        PastMismatch(s1, s2, p, i);
      }
    }
    while (p < |s1| && s1[p] != '/') || (p < |s2| && s2[p] != '/')
      invariant 0 <= p <= |s1| && p <= |s2|
      invariant s1[..p] == s2[..p]
      invariant forall i: nat :: i > p ==> !CommonEdge(s1, s2, i)
      decreases p
    {
      EdgeBelow(s1, s2, p);
      assert s1[..p][..p - 1] == s1[..p - 1] && s2[..p][..p - 1] == s2[..p - 1];
      p := p - 1;
    }
    if p == |s1| && p == |s2| && p == 1 {
      assert s1 == s1[..p] == s2[..p] == s2;
      return 0;
    }
    if |s1| == 1 && s1 == s2 {
      assert CommonEdge(s1, s2, 1);
    }
    n := p;
  }

  lemma PastMismatch(s1: seq<char>, s2: seq<char>, p: nat, i: nat)
    requires p <= |s1| && p <= |s2| && (p < |s1| && p < |s2| ==> s1[p] != s2[p])
    requires i > p && i <= |s1| && i <= |s2|
    ensures s1[..i] != s2[..i]
  {
    if s1[..i] == s2[..i] {
      SamePrefixAt(s1, s2, i, p);
    }
  }

  lemma EdgeBelow(s1: seq<char>, s2: seq<char>, p: nat)
    requires exists i: nat :: CommonEdge(s1, s2, i)
    requires p <= |s1| && p <= |s2|
    requires (p < |s1| && s1[p] != '/') || (p < |s2| && s2[p] != '/')
    requires forall i: nat :: i > p ==> !CommonEdge(s1, s2, i)
    ensures p > 0
  {
  }

  /** Two absolute paths always have a common edge: the root's slash. */
  lemma AbsoluteEdge(s1: seq<char>, s2: seq<char>)
    requires Absolute(s1) && Absolute(s2)
    ensures CommonEdge(s1, s2, 0)
  {
  }

  lemma {:induction false} FlatSplit(a: Dir, k: nat)
    requires k <= |a|
    ensures Flat(a) == Flat(a[..k]) + Flat(a[k..])
    decreases |a|
  {
    if k == |a| {
      assert a[..k] == a && a[k..] == [];
    } else {
      var init := a[..|a| - 1];
      FlatSplit(init, k);
      assert init[..k] == a[..k] && init[k..] == a[k..][..|a| - k - 1];
      assert Flat(a) == Flat(a[..k]) + (Flat(init[k..]) + ['/'] + a[|a| - 1]);
    }
  }

  /** The edges of a path are the ends of its leading names. */
  lemma {:induction false} EdgeIsNameEnd(a: Dir, i: nat) returns (j: nat)
    requires Canonical(a) && Edge(Flat(a), i)
    ensures j <= |a| && Flat(a[..j]) == Flat(a)[..i]
    decreases |a|
  {
    var s := Flat(a);
    if i == |s| {
      assert a[..|a|] == a && s[..i] == s;
      return |a|;
    }
    var init, last := a[..|a| - 1], a[|a| - 1];
    var front := Flat(init);
    assert s == front + (['/'] + last);
    if i > |front| {
      NoEdgeInName(front, last, i);
    }
    if i < |front| {
      assert front[i] == s[i];
    }
    j := EdgeIsNameEnd(init, i);
    assert init[..j] == a[..j] && front[..i] == s[..i];
  }

  lemma NoEdgeInName(front: seq<char>, last: seq<char>, i: nat)
    requires Name(last) && |front| < i < |front| + 1 + |last|
    ensures (front + ['/'] + last)[i] != '/'
  {
    assert (front + ['/'] + last)[i] == last[i - |front| - 1];
  }

  lemma NameEndIsEdge(a: Dir, k: nat)
    requires k <= |a|
    ensures Edge(Flat(a), |Flat(a[..k])|) && Flat(a)[..|Flat(a[..k])|] == Flat(a[..k])
  {
    FlatSplit(a, k);
    if k < |a| {
      FlatStart(a[k..]);
    }
  }

  lemma {:induction false} FlatStart(a: Dir)
    requires a != []
    ensures Flat(a) != [] && Flat(a)[0] == '/'
    decreases |a|
  {
    if |a| > 1 {
      FlatStart(a[..|a| - 1]);
    }
  }

  /** The last common edge of two canonical paths is the end of the names they share. */
  lemma LastEdgeIsShared(a: Dir, b: Dir, n: nat)
    requires Canonical(a) && Canonical(b)
    requires CommonEdge(Flat(a), Flat(b), n) && forall i: nat :: i > n ==> !CommonEdge(Flat(a), Flat(b), i)
    ensures n == |Flat(a[..Shared(a, b)])|
  {
    var k := Shared(a, b);
    NameEndIsEdge(a, k);
    NameEndIsEdge(b, k);
    assert CommonEdge(Flat(a), Flat(b), |Flat(a[..k])|);
    var i := EdgeIsNameEnd(a, n);
    var j := EdgeIsNameEnd(b, n);
    FlatInjective(a[..i], b[..j]);
    assert i == |a[..i]| == |b[..j]| == j;
    SharedIsLongest(a, b, i);
    FlatSplit(a[..k], i);
    assert a[..k][..i] == a[..i];
  }

  /** What both prefix lengths come to on canonical paths. */
  method SharedPrefix(from: seq<char>, path: seq<char>, ghost a: Dir, ghost b: Dir) returns (n: nat)
    requires Canonical(a) && Canonical(b) && from == Render(a) && path == Render(b)
    ensures n == |Flat(a[..Shared(a, b)])|
  {
    RenderAbsolute(a);
    RenderAbsolute(b);
    AbsoluteEdge(from, path);
    n := CommonDirPrefixLength(from, path);
    if a == [] || b == [] {
      RootShares(a, b, n);
    } else {
      LastEdgeIsShared(a, b, n);
    }
  }

  lemma RenderAbsolute(a: Dir)
    ensures Absolute(Render(a))
  {
    if a != [] {
      FlatStart(a);
    }
  }

  /** With the root on one side there is no common edge but its slash, unless it is on both. */
  lemma RootShares(a: Dir, b: Dir, n: nat)
    requires Canonical(a) && Canonical(b) && (a == [] || b == [])
    requires |Render(a)| == 1 && Render(a) == Render(b) ==> n == 0
    requires !(|Render(a)| == 1 && Render(a) == Render(b)) ==> CommonEdge(Render(a), Render(b), n)
    ensures n == 0
  {
    if a != [] {
      NameAfterSlash(a);
    } else if b != [] {
      NameAfterSlash(b);
    }
  }

  lemma {:induction false} NameAfterSlash(a: Dir)
    requires a != [] && Canonical(a)
    ensures |Flat(a)| > 1 && Flat(a)[1] != '/'
    decreases |a|
  {
    assert Name(a[|a| - 1]);
    if |a| > 1 {
      NameAfterSlash(a[..|a| - 1]);
    } else {
      assert Flat(a[..0]) == [];
    }
  }

  // ---- the relative path ----

  function Count(s: seq<char>): nat {
    if s == [] then 0 else (if s[0] == '/' then 1 else 0) + Count(s[1..])
  }

  lemma {:induction false} CountConcat(x: seq<char>, y: seq<char>)
    ensures Count(x + y) == Count(x) + Count(y)
    decreases |x|
  {
    if x == [] {
      assert x + y == y;
    } else {
      assert (x + y)[0] == x[0] && (x + y)[1..] == x[1..] + y;
      CountConcat(x[1..], y);
    }
  }

  lemma {:induction false} CountName(c: seq<char>)
    requires '/' !in c
    ensures Count(c) == 0
    decreases |c|
  {
    if c != [] {
      CountName(c[1..]);
    }
  }

  /** There are as many slashes as names. */
  lemma {:induction false} CountFlat(a: Dir)
    requires Canonical(a)
    ensures Count(Flat(a)) == |a|
    decreases |a|
  {
    if a != [] {
      var init, last := a[..|a| - 1], a[|a| - 1];
      CountFlat(init);
      assert Name(last);
      CountName(last);
      CountConcat(Flat(init) + ['/'], last);
      CountConcat(Flat(init), ['/']);
    }
  }

  /** One `../` for each slash of the rest of the path. */
  method UpsFor(from: seq<char>, start: nat) returns (result: seq<char>)
    requires start <= |from|
    ensures result == Ups(Count(from[start..]))
  {
    result := [];
    var p := start;
    ghost var n := 0;
    while p < |from|
      invariant start <= p <= |from|
      invariant result == Ups(n) && n + Count(from[p..]) == Count(from[start..])
    {
      assert from[p..][1..] == from[p + 1..];
      if from[p] == '/' {
        result := ['.', '.', '/'] + result;
        n := n + 1;
      }
      p := p + 1;
    }
  }

  /** Drops the slashes at the end. Where the path leads stays the same. */
  method TrimSlashes(path: seq<char>, ghost a: Dir) returns (result: seq<char>)
    ensures result <= path
    ensures result == [] || result[|result| - 1] != '/'
    ensures Resolve(a, result) == Resolve(a, path)
  {
    result := path;
    while result != [] && result[|result| - 1] == '/'
      invariant result <= path
      invariant Resolve(a, result) == Resolve(a, path)
      decreases |result|
    {
      var shorter := result[..|result| - 1];
      assert result == shorter + ['/'];
      TrailingSlash(a, shorter);
      result := shorter;
    }
  }

  /** The way down: what is behind the common prefix and its slash. */
  function Below(b: Dir): seq<char> {
    if b == [] then [] else Flat(b)[1..]
  }

  /** Up some directories and down again. */
  lemma UpAndDown(a: Dir, n: nat, below: Dir)
    requires Canonical(below) && n <= |a|
    ensures Resolve(a, Ups(n) + Below(below)) == Walk(a[..|a| - n] + below, [], n + |below|)
  {
    FollowUps(From(a), n);
    FollowConcat(From(a), Ups(n), Below(below));
    FollowBelow(Walk(a[..|a| - n], [], n), below);
  }

  lemma LeadsThere(a: Dir, b: Dir, k: nat)
    requires Canonical(b) && k == Shared(a, b)
    ensures Resolve(a, Ups(|a| - k) + Below(b[k..])) == Walk(b, [], Distance(a, b))
    ensures !Absolute(Ups(|a| - k) + Below(b[k..]))
  {
    ThroughShared(a, b);
    UpAndDown(a, |a| - k, b[k..]);
    StartsRelative(|a| - k, b[k..]);
  }

  lemma ThroughShared(a: Dir, b: Dir)
    ensures var k := Shared(a, b);
            a[..|a| - (|a| - k)] + b[k..] == b && |a| - k + |b[k..]| == Distance(a, b)
  {
  }

  lemma FollowBelow(w: Walk, b: Dir)
    requires w.name == [] && Canonical(b)
    ensures Enter(Follow(w, Below(b))) == Walk(w.dir + b, [], w.moves + |b|)
  {
    if b == [] {
      assert w.dir + b == w.dir;
    } else {
      FollowFlat(w, b);
      FlatStart(b);
      assert Flat(b) == ['/'] + Below(b);
      FollowConcat(w, ['/'], Below(b));
      FollowSlash(w, []);
      assert [] + ['/'] == ['/'];
    }
  }

  /** What the code puts behind the `../`s is the way down. */
  lemma TailIsBelow(b: Dir, k: nat)
    requires Canonical(b) && k <= |b|
    ensures var n := |Flat(b[..k])|;
            n <= |Render(b)| && (if |Render(b)| > n then Render(b)[n + 1..] else []) == Below(b[k..])
  {
    FlatSplit(b, k);
    if k < |b| {
      FlatStart(b[k..]);
      var n := |Flat(b[..k])|;
      assert Flat(b)[n + 1..] == Flat(b[k..])[1..];
    } else {
      assert b[..k] == b && b[k..] == [];
    }
  }

  /** How many `../`s the code writes. */
  lemma UpsNeeded(a: Dir, k: nat)
    requires Canonical(a) && k <= |a|
    ensures var n := |Flat(a[..k])|;
            n <= |Render(a)| && (if n > 0 || Render(a) != "/" then Count(Render(a)[n..]) else 0) == |a| - k
  {
    FlatSplit(a, k);
    CountFlat(a[k..]);
    var n := |Flat(a[..k])|;
    if a != [] {
      assert Flat(a)[n..] == Flat(a[k..]);
      NameAfterSlash(a);
    }
  }

  /** The result never begins with a slash, so it is relative. */
  lemma StartsRelative(n: nat, b: Dir)
    requires Canonical(b)
    ensures !Absolute(Ups(n) + Below(b))
  {
    if n == 0 && b != [] {
      NameAfterSlash(b);
    }
  }

  /** The result before its last slashes are dropped. */
  method Untrimmed(from: seq<char>, path: seq<char>, ghost a: Dir, ghost b: Dir) returns (result: seq<char>)
    requires Canonical(a) && Canonical(b) && from == Render(a) && path == Render(b)
    ensures result == Ups(|a| - Shared(a, b)) + Below(b[Shared(a, b)..])
  {
    var n := SharedPrefix(from, path, a, b);
    ghost var k := Shared(a, b);
    NameEnds(a, b, k);
    var ups := AllUps(from, n, a, k);
    var tail := Tail(path, n, b, k);
    result := ups + tail;
  }

  lemma NameEnds(a: Dir, b: Dir, k: nat)
    requires k == Shared(a, b)
    ensures k <= |a| && k <= |b| && Flat(a[..k]) == Flat(b[..k])
  {
  }

  /** What is behind the common prefix. */
  method Tail(path: seq<char>, n: nat, ghost b: Dir, ghost k: nat) returns (tail: seq<char>)
    requires Canonical(b) && path == Render(b) && k <= |b| && n == |Flat(b[..k])|
    ensures tail == Below(b[k..])
  {
    TailIsBelow(b, k);
    tail := [];
    if |path| > n {
      tail := path[n + 1..];
    }
  }

  /** The `../`s, of which the root needs none. */
  method AllUps(from: seq<char>, n: nat, ghost a: Dir, ghost k: nat) returns (result: seq<char>)
    requires Canonical(a) && from == Render(a) && k <= |a| && n == |Flat(a[..k])|
    ensures result == Ups(|a| - k)
  {
    UpsNeeded(a, k);
    result := [];
    if n > 0 || from != "/" {
      result := UpsFor(from, n);
    }
  }

  /** get_relative_path on canonical paths: the result leads from one directory to the other,
      and no path does so in fewer moves. Anything that is not absolute is returned as it is. */
  method GetRelativePath(from: seq<char>, path: seq<char>, ghost a: Dir, ghost b: Dir) returns (result: seq<char>)
    requires Canonical(a) && from == Render(a)
    requires Absolute(path) ==> Canonical(b) && path == Render(b)
    ensures !Absolute(path) ==> result == path
    ensures Absolute(path) ==> Resolve(a, result) == Walk(b, [], Distance(a, b))
    ensures Absolute(path) ==> result != [] && !Absolute(result) && result[|result| - 1] != '/'
  {
    if path == [] || path[0] != '/' {
      return path;
    }
    result := Untrimmed(from, path, a, b);
    LeadsThere(a, b, Shared(a, b));
    result := Finish(result, a);
  }

  /** Without its last slashes, and a dot for nothing. */
  method Finish(path: seq<char>, ghost a: Dir) returns (result: seq<char>)
    requires !Absolute(path)
    ensures Resolve(a, result) == Resolve(a, path)
    ensures result != [] && !Absolute(result) && result[|result| - 1] != '/'
  {
    result := TrimSlashes(path, a);
    if result == [] {
      StayHere(a);
      result := ".";
    }
  }

  lemma StayHere(a: Dir)
    ensures Resolve(a, ".") == Resolve(a, [])
  {
    FollowName(From(a), ".");
    assert [] + "." == ".";
  }
}
