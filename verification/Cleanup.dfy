/**
 The clean-up of one cache directory: sort the files by age and delete the oldest until both
 limits are met, never leaving an object file whose .stderr is already gone.
 */
module Cleanup {
  type Path = seq<char>

  datatype File = File(fname: Path, mtime: int, size: nat)

  // ---- file names ----

  /** get_extension: from the last dot of the last component on. */
  function Extension(path: Path): (e: Path)
    ensures |e| <= |path|
  {
    if path == [] then []
    else
      var init, c := path[..|path| - 1], path[|path| - 1];
      if c == '.' then [c]
      else if c == '/' || Extension(init) == [] then []
      else Extension(init) + [c]
  }

  /** remove_extension. */
  function Base(path: Path): Path {
    path[..|path| - |Extension(path)|]
  }

  function StderrOf(base: Path): Path { base + ".stderr" }

  function ObjectOf(base: Path): Path { base + ".o" }

  predicate IsStderr(path: Path) { Extension(path) == ".stderr" }

  lemma {:induction false} ExtensionNext(path: Path, tail: seq<char>)
    requires '.' !in tail && '/' !in tail && Extension(path) != []
    ensures Extension(path + tail) == Extension(path) + tail
    decreases |tail|
  {
    if tail == [] {
      assert path + tail == path;
    } else {
      var init, c := tail[..|tail| - 1], tail[|tail| - 1];
      ExtensionNext(path, init);
      assert (path + tail)[..|path + tail| - 1] == path + init;
      assert init + [c] == tail;
    }
  }

  lemma ExtensionDot(path: Path)
    ensures Extension(path + ['.']) == ['.']
  {
  }

  /** A path is its base and its extension. */
  lemma {:induction false} BaseAndExtension(path: Path)
    ensures Base(path) + Extension(path) == path
    decreases |path|
  {
    if path != [] {
      BaseAndExtension(path[..|path| - 1]);
    }
  }

  /** The extension is the last dot and what follows, unless a slash does. */
  lemma {:induction false} ExtensionMeans(path: Path)
    ensures var e := Extension(path);
      && (e != [] ==> e[0] == '.' && '.' !in e[1..] && '/' !in e[1..])
      && (e == [] ==> forall i :: 0 <= i < |path| && path[i] == '.' ==> '/' in path[i..])
    decreases |path|
  {
    if path != [] {
      var init, c := path[..|path| - 1], path[|path| - 1];
      ExtensionMeans(init);
      if Extension(path) == [] {
        forall i | 0 <= i < |path| && path[i] == '.' ensures '/' in path[i..] {
          assert path[i..][|path| - 1 - i] == c;
          if c != '/' {
            assert path[i..] == init[i..] + [c];
          }
        }
      } else if c != '.' {
        assert Extension(path)[1..] == Extension(init)[1..] + [c];
      }
    }
  }

  lemma StderrOfIsStderr(base: Path)
    ensures IsStderr(StderrOf(base)) && Base(StderrOf(base)) == base
  {
    ExtensionDot(base);
    ExtensionNext(base + ['.'], "stderr");
    assert StderrOf(base) == base + ['.'] + "stderr";
    assert StderrOf(base)[..|base|] == base;
  }

  /** An object file is not a .stderr file. */
  lemma ObjectIsNotStderr(base: Path)
    ensures !IsStderr(ObjectOf(base))
  {
    ExtensionDot(base);
    ExtensionNext(base + ['.'], "o");
    assert ObjectOf(base) == base + ['.'] + "o";
  }

  // ---- the order ----

  /** strcmp. */
  function StrCmp(s: Path, t: Path): (r: int)
    decreases |s|
  {
    if s == [] then (if t == [] then 0 else -1)
    else if t == [] then 1
    else if s[0] != t[0] then (if s[0] < t[0] then -1 else 1)
    else StrCmp(s[1..], t[1..])
  }

  /** files_compare: by time, then by name. */
  function Compare(f: File, g: File): int {
    if g.mtime == f.mtime then StrCmp(f.fname, g.fname)
    else if g.mtime > f.mtime then -1
    else 1
  }

  lemma {:induction false} StrCmpOrder(s: Path, t: Path)
    ensures StrCmp(s, t) == 0 <==> s == t
    ensures StrCmp(s, t) == -StrCmp(t, s)
    decreases |s|
  {
    if s != [] && t != [] && s[0] == t[0] {
      StrCmpOrder(s[1..], t[1..]);
      assert s == [s[0]] + s[1..] && t == [t[0]] + t[1..];
    }
  }

  lemma {:induction false} StrCmpTransitive(s: Path, t: Path, u: Path)
    requires StrCmp(s, t) <= 0 && StrCmp(t, u) <= 0
    ensures StrCmp(s, u) <= 0
    decreases |s|
  {
    if s != [] && t != [] && u != [] && s[0] == t[0] == u[0] {
      StrCmpTransitive(s[1..], t[1..], u[1..]);
    }
  }

  /** The name ends where the other goes on, or has the smaller character where they first differ. */
  ghost predicate NameBefore(s: Path, t: Path) {
    exists k: nat :: DiffersFirstAt(s, t, k) && (if k < |s| then k < |t| && s[k] < t[k] else k < |t|)
  }

  predicate DiffersFirstAt(s: Path, t: Path, k: nat) {
    && k <= |s| && k <= |t|
    && (forall i :: 0 <= i < k ==> s[i] == t[i])
    && (k == |s| || k == |t| || s[k] != t[k])
  }

  /** strcmp is negative for exactly those names. */
  lemma {:induction false} StrCmpMeans(s: Path, t: Path)
    ensures StrCmp(s, t) < 0 <==> NameBefore(s, t)
    decreases |s|
  {
    if s != [] && t != [] && s[0] == t[0] {
      StrCmpMeans(s[1..], t[1..]);
      NameBeforeRest(s, t);
    } else {
      assert DiffersFirstAt(s, t, 0);
      if k: nat :| DiffersFirstAt(s, t, k) {
        assert k == 0;
      }
    }
  }

  lemma NameBeforeRest(s: Path, t: Path)
    requires s != [] && t != [] && s[0] == t[0]
    ensures NameBefore(s, t) <==> NameBefore(s[1..], t[1..])
  {
    if NameBefore(s, t) {
      var k: nat :| DiffersFirstAt(s, t, k) && (if k < |s| then k < |t| && s[k] < t[k] else k < |t|);
      assert k > 0;
      assert DiffersFirstAt(s[1..], t[1..], k - 1);
    }
    if NameBefore(s[1..], t[1..]) {
      var u, v := s[1..], t[1..];
      var k: nat :| DiffersFirstAt(u, v, k) && (if k < |u| then k < |v| && u[k] < v[k] else k < |v|);
      assert forall i :: 0 < i < k + 1 ==> s[i] == u[i - 1] && t[i] == v[i - 1];
      assert DiffersFirstAt(s, t, k + 1);
    }
  }

  /** Whatever comes first is older, or as old and first by its name. */
  lemma OldestFirst(files: seq<File>, i: nat, j: nat)
    requires Sorted(files) && i < j < |files|
    ensures files[i].mtime <= files[j].mtime
    ensures files[i].mtime == files[j].mtime && files[i].fname != files[j].fname ==> NameBefore(files[i].fname, files[j].fname)
  {
    assert Compare(files[i], files[j]) <= 0;
    StrCmpMeans(files[i].fname, files[j].fname);
    StrCmpOrder(files[i].fname, files[j].fname);
  }

  lemma CompareOrder(f: File, g: File)
    ensures Compare(f, g) == 0 <==> f.fname == g.fname && f.mtime == g.mtime
    ensures Compare(f, g) <= 0 || Compare(g, f) <= 0
    ensures Compare(f, g) <= 0 && Compare(g, f) <= 0 ==> f.fname == g.fname
  {
    StrCmpOrder(f.fname, g.fname);
  }

  lemma CompareTransitive(f: File, g: File, h: File)
    requires Compare(f, g) <= 0 && Compare(g, h) <= 0
    ensures Compare(f, h) <= 0
  {
    if f.mtime == g.mtime == h.mtime {
      StrCmpTransitive(f.fname, g.fname, h.fname);
    }
  }

  predicate Sorted(s: seq<File>) {
    forall i, j :: 0 <= i < j < |s| ==> Compare(s[i], s[j]) <= 0
  }

  predicate DistinctNames(s: seq<File>) {
    forall i, j :: 0 <= i < j < |s| ==> s[i].fname != s[j].fname
  }

  function Insert(f: File, s: seq<File>): (r: seq<File>)
    requires Sorted(s)
    ensures multiset(r) == multiset([f]) + multiset(s)
    ensures Sorted(r)
  {
    if s == [] then [f]
    else if Compare(f, s[0]) <= 0 then InsertFirst(f, s); [f] + s
    else
      CompareOrder(f, s[0]);
      InsertLater(f, s, Insert(f, s[1..]));
      [s[0]] + Insert(f, s[1..])
  }

  lemma InsertFirst(f: File, s: seq<File>)
    requires Sorted(s) && s != [] && Compare(f, s[0]) <= 0
    ensures Sorted([f] + s)
  {
    forall j | 0 < j < |s| ensures Compare(f, s[j]) <= 0 {
      CompareTransitive(f, s[0], s[j]);
    }
  }

  lemma InsertLater(f: File, s: seq<File>, r: seq<File>)
    requires Sorted(s) && s != [] && Compare(s[0], f) <= 0
    requires Sorted(r) && multiset(r) == multiset([f]) + multiset(s[1..])
    ensures Sorted([s[0]] + r) && multiset([s[0]] + r) == multiset([f]) + multiset(s)
  {
    assert s == [s[0]] + s[1..];
    forall j | 0 <= j < |r| ensures Compare(s[0], r[j]) <= 0 {
      assert r[j] in multiset(r);
      assert r[j] == f || r[j] in s[1..];
    }
  }

  /** Sorting, as the library's qsort would: any method gives the same (SortIsUnique). */
  function Sort(s: seq<File>): (r: seq<File>)
    ensures Sorted(r) && multiset(r) == multiset(s)
  {
    if s == [] then []
    else
      assert s == [s[0]] + s[1..];
      Insert(s[0], Sort(s[1..]))
  }

  lemma {:induction false} SortIsUnique(a: seq<File>, b: seq<File>)
    requires Sorted(a) && Sorted(b) && multiset(a) == multiset(b) && DistinctNames(a)
    ensures a == b
    decreases |a|
  {
    assert |multiset(a)| == |a| && |multiset(b)| == |b|;
    if a != [] {
      SameFirst(a, b);
      SameRest(a, b);
      SortIsUnique(a[1..], b[1..]);
      assert a == [a[0]] + a[1..] && b == [b[0]] + b[1..];
    }
  }

  lemma SameRest(a: seq<File>, b: seq<File>)
    requires multiset(a) == multiset(b) && a != [] && b != [] && a[0] == b[0]
    ensures multiset(a[1..]) == multiset(b[1..])
  {
    assert a == [a[0]] + a[1..] && b == [b[0]] + b[1..];
    assert multiset(a[1..]) == multiset(a) - multiset([a[0]]);
    assert multiset(b[1..]) == multiset(b) - multiset([b[0]]);
  }

  lemma SameFirst(a: seq<File>, b: seq<File>)
    requires Sorted(a) && Sorted(b) && multiset(a) == multiset(b) && DistinctNames(a) && a != []
    ensures b != [] && a[0] == b[0]
  {
    assert a[0] in multiset(b);
    assert b[0] in multiset(a);
    var i :| 0 <= i < |a| && a[i] == b[0];
    var j :| 0 <= j < |b| && b[j] == a[0];
    if i > 0 && j > 0 {
      CompareOrder(a[0], b[0]);
    }
  }

  // ---- what the loop does, file by file ----

  /** What is on disk after one unlink. */
  function Without(disk: set<Path>, stubborn: set<Path>, path: Path): set<Path> {
    if path in stubborn then disk else disk - {path}
  }

  /** What is on disk after one file has been dealt with. */
  function DiskAfterOne(disk: set<Path>, stubborn: set<Path>, f: File): set<Path> {
    var d := if IsStderr(f.fname) then Without(disk, stubborn, ObjectOf(Base(f.fname))) else disk;
    Without(d, stubborn, f.fname)
  }

  /** What is on disk when the first `p` files have been dealt with. */
  function DiskAfter(disk: set<Path>, stubborn: set<Path>, files: seq<File>, p: nat): set<Path>
    requires p <= |files|
  {
    if p == 0 then disk
    else DiskAfterOne(DiskAfter(disk, stubborn, files, p - 1), stubborn, files[p - 1])
  }

  /** The total size of those of the first `p` files that could be deleted, or were gone. */
  function FreedSize(stubborn: set<Path>, files: seq<File>, p: nat): nat
    requires p <= |files|
  {
    if p == 0 then 0
    else FreedSize(stubborn, files, p - 1) + if files[p - 1].fname in stubborn then 0 else files[p - 1].size
  }

  function FreedCount(stubborn: set<Path>, files: seq<File>, p: nat): (n: nat)
    requires p <= |files|
    ensures n <= p
  {
    if p == 0 then 0
    else FreedCount(stubborn, files, p - 1) + if files[p - 1].fname in stubborn then 0 else 1
  }

  function TotalSize(files: seq<File>): nat {
    if files == [] then 0 else files[0].size + TotalSize(files[1..])
  }

  /** Both limits; zero stands for no limit. */
  predicate LimitsMet(size: int, count: int, sizeLimit: nat, countLimit: nat) {
    (sizeLimit == 0 || size <= sizeLimit) && (countLimit == 0 || count <= countLimit)
  }

  lemma {:induction false} FreedSizeSplit(stubborn: set<Path>, files: seq<File>, p: nat)
    requires p <= |files|
    ensures FreedSize(stubborn, files, p) + TotalSize(files[p..]) <= TotalSize(files)
    decreases p
  {
    if p > 0 {
      FreedSizeSplit(stubborn, files, p - 1);
      assert files[p - 1..][1..] == files[p..];
    }
  }

  /** The next file can be subtracted without going below zero. */
  lemma FreedFits(stubborn: set<Path>, files: seq<File>, p: nat)
    requires p < |files|
    ensures FreedSize(stubborn, files, p + 1) <= TotalSize(files)
  {
    FreedSizeSplit(stubborn, files, p + 1);
  }

  /** When every unlink succeeds, or finds no file, the counters stand for the files that
      were not processed. */
  lemma {:induction false} AllFreed(stubborn: set<Path>, files: seq<File>, p: nat)
    requires p <= |files| && forall i :: 0 <= i < |files| ==> files[i].fname !in stubborn
    ensures TotalSize(files) - FreedSize(stubborn, files, p) == TotalSize(files[p..])
    ensures |files| - FreedCount(stubborn, files, p) == |files[p..]|
    decreases p
  {
    if p > 0 {
      AllFreed(stubborn, files, p - 1);
      assert files[p - 1..][1..] == files[p..];
    }
  }

  /** The file takes this path with it: its own, or that of its object file. */
  predicate Takes(f: File, path: Path) {
    path == f.fname || (Extension(f.fname) == ".stderr" && path == Base(f.fname) + ".o")
  }

  /** What is left on disk is what cannot be unlinked and what no file processed took with it. */
  lemma {:induction false} DiskExactly(disk: set<Path>, stubborn: set<Path>, files: seq<File>, p: nat, path: Path)
    requires p <= |files|
    ensures path in DiskAfter(disk, stubborn, files, p) <==>
      path in disk && (path in stubborn || forall i :: 0 <= i < p ==> !Takes(files[i], path))
    decreases p
  {
    hide Extension, Base;
    if p > 0 {
      DiskExactly(disk, stubborn, files, p - 1, path);
    }
  }

  // ---- the order of deletions ----

  /** A .stderr that is gone has no object file left behind, unless that could not be unlinked. */
  ghost predicate Consistent(before: set<Path>, now: set<Path>, stubborn: set<Path>) {
    forall base :: StderrOf(base) in before && StderrOf(base) !in now ==>
                     ObjectOf(base) !in now || ObjectOf(base) in stubborn
  }

  lemma UnlinkOther(before: set<Path>, now: set<Path>, stubborn: set<Path>, path: Path)
    requires Consistent(before, now, stubborn)
    requires !IsStderr(path) || ObjectOf(Base(path)) !in now || ObjectOf(Base(path)) in stubborn
    ensures Consistent(before, Without(now, stubborn, path), stubborn)
  {
    forall base | StderrOf(base) in before && StderrOf(base) !in Without(now, stubborn, path)
      ensures ObjectOf(base) !in Without(now, stubborn, path) || ObjectOf(base) in stubborn
    {
      StderrOfIsStderr(base);
    }
  }

  /** A .stderr that is gone has no object file left behind, without exception. */
  ghost predicate Strict(before: set<Path>, now: set<Path>) {
    forall base :: StderrOf(base) in before && StderrOf(base) !in now ==> ObjectOf(base) !in now
  }

  /** The file is a .stderr that will go, and its object file is there and cannot. */
  predicate ObjectStays(before: set<Path>, stubborn: set<Path>, f: File) {
    && IsStderr(f.fname) && f.fname in before && f.fname !in stubborn
    && ObjectOf(Base(f.fname)) in before && ObjectOf(Base(f.fname)) in stubborn
  }

  predicate NoObjectStays(before: set<Path>, stubborn: set<Path>, files: seq<File>, p: nat)
    requires p <= |files|
  {
    forall i :: 0 <= i < p ==> !ObjectStays(before, stubborn, files[i])
  }

  /** What cannot be unlinked stays, and what was processed and can is gone. */
  lemma {:induction false} StaysAndGoes(before: set<Path>, stubborn: set<Path>, files: seq<File>, p: nat)
    requires p <= |files|
    ensures before * stubborn <= DiskAfter(before, stubborn, files, p) <= before
    ensures forall i :: 0 <= i < p && files[i].fname !in stubborn ==> files[i].fname !in DiskAfter(before, stubborn, files, p)
    decreases p
  {
    if p > 0 {
      StaysAndGoes(before, stubborn, files, p - 1);
    }
  }

  lemma GoneInOneStep(disk: set<Path>, stubborn: set<Path>, f: File, base: Path)
    requires StderrOf(base) in disk && StderrOf(base) !in DiskAfterOne(disk, stubborn, f)
    ensures f.fname == StderrOf(base) && f.fname !in stubborn
  {
    hide Base, Extension, StderrOf, ObjectOf;
    StderrOfIsStderr(base);
    ObjectIsNotStderr(Base(f.fname));
  }

  /** A .stderr goes only when it is processed itself. */
  lemma {:induction false} GoneIsProcessed(before: set<Path>, stubborn: set<Path>, files: seq<File>, p: nat, base: Path)
    returns (i: nat)
    requires p <= |files|
    requires StderrOf(base) in before && StderrOf(base) !in DiskAfter(before, stubborn, files, p)
    ensures i < p && files[i].fname == StderrOf(base) && files[i].fname !in stubborn
    decreases p
  {
    hide StderrOf, DiskAfterOne;
    if StderrOf(base) in DiskAfter(before, stubborn, files, p - 1) {
      GoneInOneStep(DiskAfter(before, stubborn, files, p - 1), stubborn, files[p - 1], base);
      i := p - 1;
    } else {
      i := GoneIsProcessed(before, stubborn, files, p - 1, base);
    }
  }

  /** When no object stays, none was left behind at any moment. */
  lemma NoneLeftBehind(before: set<Path>, stubborn: set<Path>, files: seq<File>, p: nat, now: set<Path>)
    requires p <= |files| && NoObjectStays(before, stubborn, files, p)
    requires Consistent(before, now, stubborn) && DiskAfter(before, stubborn, files, p) <= now <= before
    ensures Strict(before, now)
  {
    forall base | StderrOf(base) in before && StderrOf(base) !in now ensures ObjectOf(base) !in now {
      var i := GoneIsProcessed(before, stubborn, files, p, base);
      StderrOfIsStderr(base);
      assert !ObjectStays(before, stubborn, files[i]);
    }
  }

  /** When one stays, it is left behind. */
  lemma LeftBehind(before: set<Path>, stubborn: set<Path>, files: seq<File>, p: nat, i: nat)
    requires i < p <= |files| && ObjectStays(before, stubborn, files[i])
    ensures !Strict(before, DiskAfter(before, stubborn, files, p))
  {
    var base := Base(files[i].fname);
    BaseAndExtension(files[i].fname);
    assert StderrOf(base) == files[i].fname;
    StaysAndGoes(before, stubborn, files, p);
    assert ObjectOf(base) in DiskAfter(before, stubborn, files, p);
  }

  /** Such an input: one .stderr file, whose object file cannot be unlinked. */
  lemma StubbornObject()
    ensures var f := File("a.stderr", 0, 2);
            && ObjectStays({"a.stderr", "a.o"}, {"a.o"}, f)
            && DiskAfterOne({"a.stderr", "a.o"}, {"a.o"}, f) == {"a.o"}
  {
    var name: Path := "a.stderr";
    StderrOfIsStderr("a");
    assert StderrOf("a") == name;
    assert ObjectOf("a") == "a.o";
    assert "a.o"[1] != name[1] || "a.o"[2] != name[2];
  }

  datatype Outcome = Deleted | Missing | Failed

  /** The files found in one directory, the counters, and the directory itself. */
  class Cleaner {
    var files: seq<File>
    var cacheSize: nat
    var filesInCache: nat
    const cacheSizeThreshold: nat
    const filesInCacheThreshold: nat
    var disk: set<Path>
    /** The paths that cannot be unlinked. */
    const stubborn: set<Path>
    /** What was on disk after each unlink. */
    ghost var trace: seq<set<Path>>

    constructor (files: seq<File>, disk: set<Path>, stubborn: set<Path>, sizeLimit: nat, countLimit: nat)
      ensures this.files == files && Counted()
      ensures this.disk == disk && this.stubborn == stubborn && trace == []
      ensures cacheSizeThreshold == sizeLimit && filesInCacheThreshold == countLimit
    {
      this.files := files;
      this.disk, this.stubborn := disk, stubborn;
      cacheSizeThreshold, filesInCacheThreshold := sizeLimit, countLimit;
      cacheSize, filesInCache := TotalSize(files), |files|;
      trace := [];
    }

    /** The counters are those of the files found. */
    predicate Counted()
      reads this
    {
      cacheSize == TotalSize(files) && filesInCache == |files|
    }

    /** Every listed file can be unlinked, or is gone already. */
    predicate NoneStubborn()
      reads this
    {
      forall i :: 0 <= i < |files| ==> files[i].fname !in stubborn
    }

    /** x_try_unlink. */
    method Unlink(path: Path) returns (o: Outcome)
      modifies this`disk, this`trace
      ensures disk == Without(old(disk), stubborn, path)
      ensures o == if path in stubborn then Failed else if path in old(disk) then Deleted else Missing
      ensures trace == old(trace) + [disk]
    {
      if path in stubborn {
        o := Failed;
      } else {
        o := if path in disk then Deleted else Missing;
        disk := disk - {path};
      }
      trace := trace + [disk];
    }

    /** delete_file: the counters go down even when there was no file to delete. */
    method DeleteFile(path: Path, size: nat, updateCounters: bool)
      requires updateCounters && path !in stubborn ==> size <= cacheSize && filesInCache > 0
      modifies this`disk, this`trace, this`cacheSize, this`filesInCache
      ensures disk == Without(old(disk), stubborn, path)
      ensures trace == old(trace) + [disk]
      ensures cacheSize == old(cacheSize) - if updateCounters && path !in stubborn then size else 0
      ensures filesInCache == old(filesInCache) - if updateCounters && path !in stubborn then 1 else 0
    {
      var o := Unlink(path);
      if o == Failed {
      } else if updateCounters {
        cacheSize := cacheSize - size;
        filesInCache := filesInCache - 1;
      }
    }

    /** The limits as they stand when the counters do for the first `p` files processed. */
    predicate MetAfter(sorted: seq<File>, p: nat)
      requires p <= |sorted|
    {
      LimitsMet(TotalSize(sorted) - FreedSize(stubborn, sorted, p), |sorted| - FreedCount(stubborn, sorted, p),
                cacheSizeThreshold, filesInCacheThreshold)
    }

    /** Nothing ever came back. */
    ghost predicate Falling(before: set<Path>)
      reads this
    {
      disk <= before && forall k :: 0 <= k < |trace| ==> disk <= trace[k] <= before
    }

    /** One round of the loop. */
    method CleanOne(f: File, ghost before: set<Path>)
      requires f.fname !in stubborn ==> f.size <= cacheSize && filesInCache > 0
      requires Consistent(before, disk, stubborn)
      requires forall k :: 0 <= k < |trace| ==> Consistent(before, trace[k], stubborn)
      requires Falling(before)
      modifies this`disk, this`trace, this`cacheSize, this`filesInCache
      ensures disk == DiskAfterOne(old(disk), stubborn, f)
      ensures cacheSize == old(cacheSize) - if f.fname in stubborn then 0 else f.size
      ensures filesInCache == old(filesInCache) - if f.fname in stubborn then 0 else 1
      ensures Consistent(before, disk, stubborn)
      ensures forall k :: 0 <= k < |trace| ==> Consistent(before, trace[k], stubborn)
      ensures Falling(before)
    {
      if Extension(f.fname) == ".stderr" {
        var base := Base(f.fname);
        ObjectIsNotStderr(base);
        UnlinkOther(before, disk, stubborn, ObjectOf(base));
        DeleteFile(ObjectOf(base), 0, false);
      }
      UnlinkOther(before, disk, stubborn, f.fname);
      DeleteFile(f.fname, f.size, true);
    }

    /** The counters and the directory when the first `i` files have been processed. */
    ghost predicate At(before: set<Path>, i: nat)
      reads this
    {
      && i <= |files|
      && FreedSize(stubborn, files, i) <= TotalSize(files)
      && cacheSize == TotalSize(files) - FreedSize(stubborn, files, i)
      && filesInCache == |files| - FreedCount(stubborn, files, i)
      && disk == DiskAfter(before, stubborn, files, i)
    }

    /** At no time so far was a .stderr gone and its object file left, unless that was stubborn. */
    ghost predicate OrderKept(before: set<Path>)
      reads this
    {
      && Consistent(before, disk, stubborn) && Falling(before)
      && forall k :: 0 <= k < |trace| ==> Consistent(before, trace[k], stubborn)
    }

    /** At no time so far was a .stderr gone and its object file left. */
    ghost predicate NeverLeft(before: set<Path>)
      reads this
    {
      Strict(before, disk) && forall k :: 0 <= k < |trace| ==> Strict(before, trace[k])
    }

    /** No object file was left behind exactly when none had to stay. */
    lemma LeftExactly(before: set<Path>, p: nat)
      requires At(before, p) && OrderKept(before)
      ensures NeverLeft(before) <==> NoObjectStays(before, stubborn, files, p)
    {
      if NoObjectStays(before, stubborn, files, p) {
        NoneLeftBehind(before, stubborn, files, p, disk);
        forall k | 0 <= k < |trace| ensures Strict(before, trace[k]) {
          NoneLeftBehind(before, stubborn, files, p, trace[k]);
        }
      } else {
        var i :| 0 <= i < p && ObjectStays(before, stubborn, files[i]);
        LeftBehind(before, stubborn, files, p, i);
      }
    }

    /** One more file. */
    method CleanNext(i: nat, ghost before: set<Path>)
      requires i < |files| && At(before, i) && OrderKept(before)
      modifies this`disk, this`trace, this`cacheSize, this`filesInCache
      ensures At(before, i + 1) && OrderKept(before)
    {
      FreedFits(stubborn, files, i);
      CleanOne(files[i], before);
    }

    /** The loop over the sorted files. */
    method CleanOldest() returns (p: nat)
      requires Counted() && trace == []
      modifies this`disk, this`trace, this`cacheSize, this`filesInCache
      ensures p <= |files| && At(old(disk), p) && OrderKept(old(disk))
      ensures p == |files| || MetAfter(files, p)
      ensures forall q :: 0 <= q < p ==> !MetAfter(files, q)
    {
      p := 0;
      while p < |files|
        invariant At(old(disk), p) && OrderKept(old(disk))
        invariant forall q :: 0 <= q < p ==> !MetAfter(files, q)
      {
        if LimitsMet(cacheSize, filesInCache, cacheSizeThreshold, filesInCacheThreshold) {
          return;
        }
        CleanNext(p, old(disk));
        p := p + 1;
      }
    }

    /** No limit is exceeded. */
    predicate WithinLimits(size: int, count: int) {
      && (cacheSizeThreshold != 0 ==> size <= cacheSizeThreshold)
      && (filesInCacheThreshold != 0 ==> count <= filesInCacheThreshold)
    }

    /** The files processed are the oldest, and of files as old those whose names come first. */
    ghost predicate OldestGo(p: nat)
      requires p <= |files|
      reads this
    {
      forall i, j :: 0 <= i < p <= j < |files| ==>
        && files[i].mtime <= files[j].mtime
        && (files[i].mtime == files[j].mtime && files[i].fname != files[j].fname ==>
              NameBefore(files[i].fname, files[j].fname))
    }

    lemma SortedOldestGo(p: nat)
      requires Sorted(files) && p <= |files|
      ensures OldestGo(p)
    {
      hide NameBefore, Sorted;
      forall i, j | 0 <= i < p <= j < |files|
        ensures files[i].mtime <= files[j].mtime
        ensures files[i].mtime == files[j].mtime && files[i].fname != files[j].fname ==>
          NameBefore(files[i].fname, files[j].fname)
      {
        OldestFirst(files, i, j);
      }
    }

    /** The files not processed are within the limits, and with one more they were not. */
    ghost predicate NoneTooMany(p: nat)
      requires p <= |files|
      reads this
    {
      && (p < |files| ==> WithinLimits(TotalSize(files[p..]), |files| - p))
      && forall q :: 0 <= q < p ==> !WithinLimits(TotalSize(files[q..]), |files| - q)
    }

    lemma MetNoneTooMany(p: nat)
      requires NoneStubborn() && p <= |files| && (p == |files| || MetAfter(files, p))
      requires forall q :: 0 <= q < p ==> !MetAfter(files, q)
      ensures NoneTooMany(p)
    {
      AllFreed(stubborn, files, p);
      forall q | 0 <= q < p ensures !WithinLimits(TotalSize(files[q..]), |files| - q) {
        assert !MetAfter(files, q);
        AllFreed(stubborn, files, q);
      }
    }

    /** The counters, when the loop has ended. */
    lemma CountersAre(before: set<Path>, p: nat)
      requires At(before, p)
      ensures NoneStubborn() ==> cacheSize == TotalSize(files[p..]) && filesInCache == |files[p..]|
      ensures MetAfter(files, p) ==> WithinLimits(cacheSize, filesInCache)
    {
      if NoneStubborn() {
        AllFreed(stubborn, files, p);
      }
    }

    /** What is left on disk is what cannot be unlinked and what no file processed took with it. */
    ghost predicate LeftOnDisk(before: set<Path>, p: nat)
      requires p <= |files|
      reads this
    {
      forall path :: path in disk <==>
        path in before && (path in stubborn || forall i :: 0 <= i < p ==> !Takes(files[i], path))
    }

    lemma AtLeftOnDisk(before: set<Path>, p: nat)
      requires At(before, p)
      ensures LeftOnDisk(before, p)
    {
      forall path
        ensures path in disk <==>
          path in before && (path in stubborn || forall i :: 0 <= i < p ==> !Takes(files[i], path))
      {
        DiskExactly(before, stubborn, files, p, path);
      }
    }

    /** sort_and_clean: processes the oldest files, as many as it takes and no more. */
    method SortAndClean() returns (cleaned: bool, p: nat)
      requires Counted() && trace == []
      modifies this
      ensures Sorted(files) && multiset(files) == multiset(old(files))
      ensures At(old(disk), p) && cleaned == (p > 0)
      ensures p == |files| || MetAfter(files, p)
      ensures forall q :: 0 <= q < p ==> !MetAfter(files, q)
      ensures OrderKept(old(disk))
      ensures NeverLeft(old(disk)) <==> NoObjectStays(old(disk), stubborn, files, p)
      ensures NoneStubborn() ==> cacheSize == TotalSize(files[p..]) && filesInCache == |files[p..]|
      ensures OldestGo(p) && LeftOnDisk(old(disk), p)
      ensures p < |files| ==> WithinLimits(cacheSize, filesInCache)
      ensures NoneStubborn() ==> NoneTooMany(p)
    {
      hide At, OldestGo, LeftOnDisk, NoneTooMany, OrderKept, NeverLeft, WithinLimits, NoneStubborn;
      if |files| > 1 {
        SortKeepsSize(files);
        files := Sort(files);
      }
      p := CleanOldest();
      cleaned := p > 0;
      LeftExactly(old(disk), p);
      SortedOldestGo(p);
      AtLeftOnDisk(old(disk), p);
      CountersAre(old(disk), p);
      if NoneStubborn() {
        MetNoneTooMany(p);
      }
    }
  }

  lemma {:induction false} InsertSize(f: File, s: seq<File>)
    requires Sorted(s)
    ensures TotalSize(Insert(f, s)) == f.size + TotalSize(s) && |Insert(f, s)| == 1 + |s|
    decreases |s|
  {
    if s != [] {
      assert ([f] + s)[1..] == s;
      if Compare(f, s[0]) > 0 {
        InsertSize(f, s[1..]);
        assert ([s[0]] + Insert(f, s[1..]))[1..] == Insert(f, s[1..]);
      }
    }
  }

  /** Sorting changes neither the number of files nor their total size. */
  lemma {:induction false} SortKeepsSize(s: seq<File>)
    ensures TotalSize(Sort(s)) == TotalSize(s) && |Sort(s)| == |s|
    decreases |s|
  {
    if s != [] {
      SortKeepsSize(s[1..]);
      InsertSize(s[0], Sort(s[1..]));
    }
  }

  /** Such a run: the directory is too large by one .stderr file, and its object file is left
      behind. */
  method LeaveStubbornObject() returns (c: Cleaner)
    ensures !c.NeverLeft({"a.stderr", "a.o"})
  {
    var f := File("a.stderr", 0, 2);
    c := new Cleaner([f], {"a.stderr", "a.o"}, {"a.o"}, 1, 0);
    var cleaned, p := c.SortAndClean();
    assert |multiset([f])| == 1 && |multiset(c.files)| == |c.files|;
    assert c.files[0] in multiset(c.files);
    assert TotalSize(c.files) == 2;
    assert p == 1;
    StubbornObject();
    assert ObjectStays({"a.stderr", "a.o"}, {"a.o"}, c.files[0]);
  }
}
