/**
 The manifest of direct mode: which sets of include files give which object, and looking a
 result up.
 */
module ManifestLookup {
  import opened Bytes
  import opened ManifestFormat
  import opened ManifestIO

  /** More objects than this, or more entries, and the manifest starts anew. */
  const MAX_MANIFEST_ENTRIES: nat := 100
  const MAX_MANIFEST_FILE_INFO_ENTRIES: nat := 10000

  // ---- the world outside ----

  /** What stat says of a file. */
  datatype Stats = Stats(size: nat, mtime: i64, ctime: i64)

  /** What hashing a source file comes to: an error, a source with __TIME__ in it, or the hash
      and the number of bytes hashed. */
  datatype HashOutcome = Failed | FoundTime | Hashed(hash: Hash16, size: nat)

  datatype World = World(stat: Path -> Option<Stats>, hash: Path -> HashOutcome)

  /** The sloppiness settings, and whether the output is a precompiled header of a compiler that
      looks at the times of what it includes. */
  datatype Config = Config(fileStatMatches: bool, ignoreCtime: bool, pch: bool)

  /** A hash and a size, both as the manifest keeps them. */
  datatype FileHash = FileHash(hash: Hash16, size: u32)

  // ---- what a match is ----

  /** The recorded times are the file's. */
  predicate TimesMatch(cfg: Config, fi: FileInfo, st: Stats) {
    fi.mtime == st.mtime && (cfg.ignoreCtime || fi.ctime == st.ctime)
  }

  /** The file at the path is the one the entry describes. */
  predicate InfoMatches(cfg: Config, w: World, fi: FileInfo, path: Path) {
    && w.stat(path).Some?
    && var st := w.stat(path).value;
       && fi.size == st.size % TWO32
       && (cfg.pch ==> fi.mtime == st.mtime)
       && ((cfg.fileStatMatches && TimesMatch(cfg, fi, st))
           || (w.hash(path).Hashed? && fi.hash == w.hash(path).hash && fi.size == w.hash(path).size % TWO32))
  }

  /** The indexes of a manifest lead somewhere. */
  predicate InRange(m: Manifest) {
    && (forall i :: 0 <= i < |m.infos| ==> m.infos[i].index < |m.files|)
    && forall i, j :: 0 <= i < |m.objects| && 0 <= j < |m.objects[i].indexes| ==> m.objects[i].indexes[j] < |m.infos|
  }

  /** One of an object's entries matches. */
  predicate IndexMatches(cfg: Config, w: World, m: Manifest, index: nat)
    requires InRange(m) && index < |m.infos|
  {
    InfoMatches(cfg, w, m.infos[index], m.files[m.infos[index].index])
  }

  predicate ObjectMatches(cfg: Config, w: World, m: Manifest, i: nat)
    requires InRange(m) && i < |m.objects|
  {
    forall j :: 0 <= j < |m.objects[i].indexes| ==> IndexMatches(cfg, w, m, m.objects[i].indexes[j])
  }

  /** The answer to a lookup: the newest object all of whose include files match. */
  predicate NewestMatch(cfg: Config, w: World, m: Manifest, r: Option<FileHash>)
    requires InRange(m)
  {
    if r == None then forall i :: 0 <= i < |m.objects| ==> !ObjectMatches(cfg, w, m, i)
    else exists i :: 0 <= i < |m.objects| && IsNewest(cfg, w, m, i) && r.value == FileHash(m.objects[i].hash, m.objects[i].size)
  }

  predicate IsNewest(cfg: Config, w: World, m: Manifest, i: nat)
    requires InRange(m) && i < |m.objects|
  {
    ObjectMatches(cfg, w, m, i) && forall j :: i < j < |m.objects| ==> !ObjectMatches(cfg, w, m, j)
  }

  /** What it takes for an object to match, in full: every include file is there, has the recorded
      size in 32 bits, has the recorded mtime when that is compiled in, and has the recorded hash
      and size, unless its times are to be trusted and are the recorded ones. */
  lemma ObjectMatchesWhen(cfg: Config, w: World, m: Manifest, i: nat)
    requires InRange(m) && i < |m.objects|
    ensures cfg.fileStatMatches && !cfg.ignoreCtime ==>
      (ObjectMatches(cfg, w, m, i) <==>
        forall j :: 0 <= j < |m.objects[i].indexes| ==>
          var fi := m.infos[m.objects[i].indexes[j]];
          var path := m.files[fi.index];
          && w.stat(path).Some? && fi.size as int == w.stat(path).value.size % 0x1_0000_0000
          && (cfg.pch ==> fi.mtime == w.stat(path).value.mtime)
          && ((fi.mtime == w.stat(path).value.mtime && fi.ctime == w.stat(path).value.ctime)
              || HashedAs(w, fi, path)))
    ensures cfg.fileStatMatches && cfg.ignoreCtime ==>
      (ObjectMatches(cfg, w, m, i) <==>
        forall j :: 0 <= j < |m.objects[i].indexes| ==>
          var fi := m.infos[m.objects[i].indexes[j]];
          var path := m.files[fi.index];
          && w.stat(path).Some? && fi.size as int == w.stat(path).value.size % 0x1_0000_0000
          && (cfg.pch ==> fi.mtime == w.stat(path).value.mtime)
          && (fi.mtime == w.stat(path).value.mtime || HashedAs(w, fi, path)))
    ensures !cfg.fileStatMatches ==>
      (ObjectMatches(cfg, w, m, i) <==>
        forall j :: 0 <= j < |m.objects[i].indexes| ==>
          var fi := m.infos[m.objects[i].indexes[j]];
          var path := m.files[fi.index];
          && w.stat(path).Some? && fi.size as int == w.stat(path).value.size % 0x1_0000_0000
          && (cfg.pch ==> fi.mtime == w.stat(path).value.mtime)
          && HashedAs(w, fi, path))
  {
    forall j | 0 <= j < |m.objects[i].indexes|
      ensures IndexMatches(cfg, w, m, m.objects[i].indexes[j]) <==>
        var fi := m.infos[m.objects[i].indexes[j]];
        InfoMatches(cfg, w, fi, m.files[fi.index])
    {
    }
  }

  /** Hashing the file gives the recorded hash, and read as many bytes as recorded. */
  predicate HashedAs(w: World, fi: FileInfo, path: Path) {
    match w.hash(path)
    case Hashed(hash, size) => fi.hash == hash && fi.size as int == size % 0x1_0000_0000
    case _ => false
  }

  // ---- looking up ----

  /** The two tables that remember, during one lookup, what stat and hashing said. */
  class Lookup {
    const cfg: Config
    const w: World
    var statedFiles: map<Path, Stats>
    var hashedFiles: map<Path, FileHash>

    constructor (cfg: Config, w: World)
      ensures this.cfg == cfg && this.w == w && Remembers()
    {
      this.cfg, this.w := cfg, w;
      statedFiles, hashedFiles := map[], map[];
    }

    /** The tables say what the world says. */
    ghost predicate Remembers()
      reads this
    {
      && (forall p :: p in statedFiles ==> w.stat(p).Some? && statedFiles[p] == Narrow(w.stat(p).value))
      && forall p :: p in hashedFiles ==> w.hash(p).Hashed? && hashedFiles[p] == FileHash(w.hash(p).hash, w.hash(p).size % TWO32)
    }

    /** stat, remembered. */
    method Stat(path: Path) returns (st: Option<Stats>)
      requires Remembers()
      modifies this`statedFiles
      ensures Remembers()
      ensures st == if w.stat(path) == None then None else Some(Narrow(w.stat(path).value))
    {
      if path in statedFiles {
        return Some(statedFiles[path]);
      }
      var fileStat := w.stat(path);
      if fileStat == None {
        return None;
      }
      st := Some(Narrow(fileStat.value));
      statedFiles := statedFiles[path := st.value];
    }

    /** The hash of a file, remembered; nothing when it cannot be had or must not be used. */
    method Hash(path: Path) returns (actual: Option<FileHash>)
      requires Remembers()
      modifies this`hashedFiles
      ensures Remembers()
      ensures actual == if w.hash(path).Hashed? then Some(FileHash(w.hash(path).hash, w.hash(path).size % TWO32)) else None
    {
      if path in hashedFiles {
        return Some(hashedFiles[path]);
      }
      var result := w.hash(path);
      if result == Failed {
        return None;
      }
      if result == FoundTime {
        return None;
      }
      actual := Some(FileHash(result.hash, result.size % TWO32));
      hashedFiles := hashedFiles[path := actual.value];
    }

    /** One round of the loop of verify_object. */
    method VerifyInfo(fi: FileInfo, path: Path) returns (ok: bool)
      requires Remembers()
      modifies this
      ensures Remembers() && ok == InfoMatches(cfg, w, fi, path)
      ensures ok ==> w.stat(path).Some? && fi.size as int == w.stat(path).value.size % 0x1_0000_0000
      ensures ok && cfg.pch ==> fi.mtime == w.stat(path).value.mtime
      ensures ok && !HashedAs(w, fi, path) ==>
                && cfg.fileStatMatches && fi.mtime == w.stat(path).value.mtime
                && (fi.ctime == w.stat(path).value.ctime || cfg.ignoreCtime)
    {
      var st := Stat(path);
      if st == None {
        return false;
      }
      if fi.size != st.value.size {
        return false;
      }
      if cfg.pch && fi.mtime != st.value.mtime {
        return false;
      }
      if cfg.fileStatMatches {
        if !cfg.ignoreCtime {
          if fi.mtime == st.value.mtime && fi.ctime == st.value.ctime {
            return true;
          }
        } else {
          if fi.mtime == st.value.mtime {
            return true;
          }
        }
      }
      var actual := Hash(path);
      if actual == None {
        return false;
      }
      ok := fi.hash == actual.value.hash && fi.size == actual.value.size;
    }

    /** verify_object: what has been remembered never changes the answer. */
    method VerifyObject(m: Manifest, i: nat) returns (ok: bool)
      requires Remembers() && InRange(m) && i < |m.objects|
      modifies this
      ensures Remembers() && ok == ObjectMatches(cfg, w, m, i)
    {
      var j := 0;
      while j < |m.objects[i].indexes|
        invariant j <= |m.objects[i].indexes| && Remembers()
        invariant forall a :: 0 <= a < j ==> IndexMatches(cfg, w, m, m.objects[i].indexes[a])
      {
        var fi := m.infos[m.objects[i].indexes[j]];
        var matches := VerifyInfo(fi, m.files[fi.index]);
        if !matches {
          assert !IndexMatches(cfg, w, m, m.objects[i].indexes[j]);
          return false;
        }
        j := j + 1;
      }
      ok := true;
    }
  }

  /** The size as it is kept, in 32 bits. */
  function Narrow(st: Stats): Stats { st.(size := st.size % TWO32) }

  /** The file, when it is a manifest, is one whose indexes lead somewhere. */
  ghost predicate Sane(file: Option<seq<byte>>) {
    forall m :: file.Some? && Sized(m) && ShortPaths(m) && Begins(file.value, m) ==> InRange(m)
  }

  /** manifest_get. */
  method ManifestGet(file: Option<seq<byte>>, cfg: Config, w: World) returns (r: Option<FileHash>)
    requires Sane(file)
    ensures (forall m :: Sized(m) && ShortPaths(m) ==> !(file.Some? && Begins(file.value, m))) ==> r == None
    ensures forall m :: file.Some? && Sized(m) && ShortPaths(m) && Begins(file.value, m) ==> NewestMatch(cfg, w, m, r)
  {
    if file == None {
      return None;
    }
    var f := new In(file.value);
    var mf := f.ReadManifest();
    if mf == None {
      return None;
    }
    r := Find(mf.value, cfg, w);
    forall m | Sized(m) && Begins(file.value, m) ensures m == mf.value {
      BeginsOnce(file.value, m, mf.value);
    }
  }

  /** The loop from the newest object down. */
  method Find(m: Manifest, cfg: Config, w: World) returns (r: Option<FileHash>)
    requires InRange(m)
    ensures NewestMatch(cfg, w, m, r)
    ensures r == None ==> forall i :: 0 <= i < |m.objects| ==> !ObjectMatches(cfg, w, m, i)
    ensures r != None ==>
      exists i ::
        && 0 <= i < |m.objects| && ObjectMatches(cfg, w, m, i)
        && r.value.hash == m.objects[i].hash && r.value.size == m.objects[i].size
        && forall j :: i < j < |m.objects| ==> !ObjectMatches(cfg, w, m, j)
  {
    var lookup := new Lookup(cfg, w);
    var i: nat := |m.objects|;
    while i > 0
      invariant i <= |m.objects| && lookup.Remembers() && fresh(lookup) && lookup.cfg == cfg && lookup.w == w
      invariant forall j :: i <= j < |m.objects| ==> !ObjectMatches(cfg, w, m, j)
    {
      var ok := lookup.VerifyObject(m, i - 1);
      if ok {
        assert IsNewest(cfg, w, m, i - 1);
        return Some(FileHash(m.objects[i - 1].hash, m.objects[i - 1].size));
      }
      i := i - 1;
    }
    r := None;
  }

  // ---- lookups known by heart ----

  /** An include file of five bytes, recorded with both times 1, whose ctime is 2 now, and which has the hash `h`. */
  function Touched(cfg: Config, h: Hash16): (r: (Manifest, World)) {
    (Manifest([[97]], [FileInfo(0, Same16(0), 5, 1, 1)], [Object([0], Same16(7), 3)]),
     World(_ => Some(Stats(5, 1, 2)), _ => Hashed(h, 5)))
  }

  function Same16(b: byte): (h: Hash16) { [b, b, b, b, b, b, b, b, b, b, b, b, b, b, b, b] }

  /** Its times alone are trusted only when ctimes do not count, whatever it holds. */
  method FindTouched(cfg: Config, h: Hash16) returns (r: Option<FileHash>)
    ensures h != Same16(0) ==>
      r == if cfg.fileStatMatches && cfg.ignoreCtime then Some(FileHash(Same16(7), 3)) else None
    ensures h == Same16(0) ==> r == Some(FileHash(Same16(7), 3))
  {
    var t := Touched(cfg, h);
    var m, w := t.0, t.1;
    r := Find(m, cfg, w);
    assert ObjectMatches(cfg, w, m, 0) <==> IndexMatches(cfg, w, m, m.objects[0].indexes[0]);
  }
}
