/**
 Putting an object into the manifest: its include files become entries, shared with those that
 are there already, and what is put is what a lookup finds.
 */
module ManifestPut {
  import opened Bytes
  import opened ManifestFormat
  import opened ManifestIO
  import opened ManifestLookup

  /** The include files with their hashes, in the order of the table that holds them. */
  type Included = seq<(Path, FileHash)>

  /** They come from a table of paths, so no path is twice among them. */
  ghost predicate DistinctPaths(included: Included) {
    forall i, j :: 0 <= i < j < |included| ==> included[i].0 != included[j].0
  }

  ghost predicate Distinct<T>(xs: seq<T>) {
    forall i, j :: 0 <= i < j < |xs| ==> xs[i] != xs[j]
  }

  /** What every manifest that has been put is like. */
  ghost predicate Consistent(m: Manifest) {
    && Distinct(m.files) && Distinct(m.infos) && InRange(m)
    && ShortPaths(m) && |m.files| <= |m.infos| && |m.objects| <= MAX_MANIFEST_ENTRIES + 1
  }

  /** The times kept for a file: only times older than the compilation can be told apart from
      later ones; -1 stands for times not kept. */
  function KeptTimes(w: World, path: Path, now: int, saveTimestamp: bool): (i64, i64) {
    if saveTimestamp && w.stat(path).Some? && now > Max(w.stat(path).value.mtime, w.stat(path).value.ctime) then
      (w.stat(path).value.mtime, w.stat(path).value.ctime)
    else (-1, -1)
  }

  /** The entry at an index describes an include file. */
  ghost predicate Describes(files: seq<Path>, infos: seq<FileInfo>, index: nat, item: (Path, FileHash), times: (i64, i64)) {
    && index < |infos| && infos[index].index < |files| && files[infos[index].index] == item.0
    && infos[index].hash == item.1.hash && infos[index].size == item.1.size
    && infos[index].mtime == times.0 && infos[index].ctime == times.1
  }

  /** A table from the things in a list to their places: of equal things, the last. */
  ghost predicate IndexMap<T>(xs: seq<T>, t: map<T, nat>) {
    && (forall i :: 0 <= i < |xs| ==> xs[i] in t)
    && forall x :: x in t ==> t[x] < |xs| && xs[t[x]] == x
  }

  /** create_string_index_map and create_file_info_index_map. */
  method CreateIndexMap<T(==)>(xs: seq<T>) returns (t: map<T, nat>)
    ensures IndexMap(xs, t)
  {
    t := map[];
    var i := 0;
    while i < |xs|
      invariant i <= |xs|
      invariant forall j :: 0 <= j < i ==> xs[j] in t
      invariant forall x :: x in t ==> t[x] < i && xs[t[x]] == x
    {
      t := t[xs[i] := i];
      i := i + 1;
    }
  }

  /** Where the files and entries stand after some include files have been added: nothing that
      was there has moved, nothing is twice there, and what is new is about those files. */
  ghost predicate Grown(files0: seq<Path>, infos0: seq<FileInfo>, files: seq<Path>, infos: seq<FileInfo>,
                        included: Included, done: nat)
    requires done <= |included|
  {
    && files0 <= files && infos0 <= infos
    && Distinct(files) && Distinct(infos)
    && |files| <= |infos| <= |infos0| + done
    && (forall i :: 0 <= i < |infos| ==> infos[i].index < |files|)
    && (forall i :: |files0| <= i < |files| ==> Among(files[i], included, done))
    && (forall i :: |infos0| <= i < |infos| ==> Among(files[infos[i].index], included, done))
  }

  ghost predicate Among(path: Path, included: Included, done: nat)
    requires done <= |included|
  {
    exists k :: 0 <= k < done && included[k].0 == path
  }

  class Builder {
    var files: seq<Path>
    var infos: seq<FileInfo>
    var objects: seq<Object>

    constructor (m: Manifest)
      ensures files == m.files && infos == m.infos && objects == m.objects
    {
      files, infos, objects := m.files, m.infos, m.objects;
    }

    /** get_include_file_index: the table is that of the files before the loop. */
    method GetIncludeFileIndex(path: Path, mfFiles: map<Path, nat>) returns (index: nat)
      modifies this`files
      ensures if path in mfFiles then index == mfFiles[path] && files == old(files)
              else index == |old(files)| && files == old(files) + [path]
    {
      if path in mfFiles {
        return mfFiles[path];
      }
      index := |files|;
      files := files + [path];
    }

    /** get_file_hash_index: an entry for one include file, a new one only when there is none. */
    method GetFileHashIndex(included: Included, i: nat, mfFiles: map<Path, nat>, mfFileInfos: map<FileInfo, nat>,
                            w: World, now: int, saveTimestamp: bool,
                            ghost files0: seq<Path>, ghost infos0: seq<FileInfo>) returns (index: nat)
      requires i < |included| && DistinctPaths(included)
      requires IndexMap(files0, mfFiles) && IndexMap(infos0, mfFileInfos)
      requires forall j :: 0 <= j < |infos0| ==> infos0[j].index < |files0|
      requires Grown(files0, infos0, files, infos, included, i) && |infos0| + |included| < TWO32
      modifies this`files, this`infos
      ensures Grown(files0, infos0, files, infos, included, i + 1)
      ensures old(files) <= files && old(infos) <= infos
      ensures Describes(files, infos, index, included[i], KeptTimes(w, included[i].0, now, saveTimestamp))
    {
      var path, fileHash := included[i].0, included[i].1;
      var fileIndex := GetIncludeFileIndex(path, mfFiles);
      var times := KeptTimes(w, path, now, saveTimestamp);
      var fi := FileInfo(fileIndex, fileHash.hash, fileHash.size, times.0, times.1);
      if fi in mfFileInfos {
        return mfFileInfos[fi];
      }
      index := |infos|;
      infos := infos + [fi];
    }

    /** add_file_info_indexes: an entry for every include file. The tables are made once and not
        kept up to date while files and entries are added; since no path comes twice, nothing is
        added twice all the same. */
    method AddFileInfoIndexes(included: Included, w: World, now: int, saveTimestamp: bool) returns (indexes: seq<u32>)
      requires DistinctPaths(included) && Distinct(files) && Distinct(infos) && |files| <= |infos|
      requires forall j :: 0 <= j < |infos| ==> infos[j].index < |files|
      requires |infos| + |included| < TWO32
      modifies this`files, this`infos
      ensures Grown(old(files), old(infos), files, infos, included, |included|)
      ensures |indexes| == |included|
      ensures forall k :: 0 <= k < |included| ==>
                Describes(files, infos, indexes[k], included[k], KeptTimes(w, included[k].0, now, saveTimestamp))
    {
      indexes := [];
      if |included| == 0 {
        return;
      }
      var mfFiles := CreateIndexMap(files);
      var mfFileInfos := CreateIndexMap(infos);
      var i := 0;
      while i < |included|
        invariant i == |indexes| <= |included|
        invariant Grown(old(files), old(infos), files, infos, included, i)
        invariant forall k :: 0 <= k < i ==>
                    Describes(files, infos, indexes[k], included[k], KeptTimes(w, included[k].0, now, saveTimestamp))
      {
        ghost var f, n := files, infos;
        var index := GetFileHashIndex(included, i, mfFiles, mfFileInfos, w, now, saveTimestamp, old(files), old(infos));
        forall k | 0 <= k < i
          ensures Describes(files, infos, indexes[k], included[k], KeptTimes(w, included[k].0, now, saveTimestamp))
        {
          StillDescribes(f, n, files, infos, indexes[k], included[k], KeptTimes(w, included[k].0, now, saveTimestamp));
        }
        indexes := indexes + [index];
        i := i + 1;
      }
    }

    /** add_object_entry. */
    method AddObjectEntry(objectHash: FileHash, included: Included, w: World, now: int, saveTimestamp: bool)
      returns (ghost indexes: seq<u32>)
      requires DistinctPaths(included) && Distinct(files) && Distinct(infos) && |files| <= |infos|
      requires forall j :: 0 <= j < |infos| ==> infos[j].index < |files|
      requires |infos| + |included| < TWO32
      modifies this
      ensures Grown(old(files), old(infos), files, infos, included, |included|)
      ensures |indexes| == |included| && objects == old(objects) + [AnyObject.Object(indexes, objectHash.hash, objectHash.size)]
      ensures forall k :: 0 <= k < |included| ==>
                Describes(files, infos, indexes[k], included[k], KeptTimes(w, included[k].0, now, saveTimestamp))
    {
      var list := AddFileInfoIndexes(included, w, now, saveTimestamp);
      indexes := list;
      objects := objects + [AnyObject.Object(list, objectHash.hash, objectHash.size)];
    }
  }

  lemma StillDescribes(files: seq<Path>, infos: seq<FileInfo>, files': seq<Path>, infos': seq<FileInfo>, index: nat,
                       item: (Path, FileHash), times: (i64, i64))
    requires Describes(files, infos, index, item, times) && files <= files' && infos <= infos'
    ensures Describes(files', infos', index, item, times)
  {
  }

  // ---- putting ----

  /** The file, when it is a manifest, is one that has been put. */
  ghost predicate Managed(file: Option<seq<byte>>) {
    forall m :: file.Some? && Sized(m) && ShortPaths(m) && Begins(file.value, m) ==> Consistent(m)
  }

  lemma ManagedIsSane(file: Option<seq<byte>>)
    requires Managed(file)
    ensures Sane(file)
  {
    hide Begins, Sized, ShortPaths;
  }

  /** A manifest that is too big is given up. */
  function Kept(m: Manifest): Manifest {
    if |m.objects| > MAX_MANIFEST_ENTRIES then EMPTY
    else if |m.infos| > MAX_MANIFEST_FILE_INFO_ENTRIES then EMPTY
    else m
  }

  /** One manifest is another with an object added: its entries describe the include files. */
  ghost predicate Added(m: Manifest, m': Manifest, target: FileHash, included: Included, w: World, now: int, saveTimestamp: bool) {
    && m.files <= m'.files && m.infos <= m'.infos
    && |m'.objects| == |m.objects| + 1 && m'.objects[..|m.objects|] == m.objects
    && var o := m'.objects[|m.objects|];
       && FileHash(o.hash, o.size) == target && |o.indexes| == |included|
       && forall k :: 0 <= k < |included| ==>
            Describes(m'.files, m'.infos, o.indexes[k], included[k], KeptTimes(w, included[k].0, now, saveTimestamp))
  }

  /** manifest_put. It gives the manifest it has written too. */
  method ManifestPut(file: Option<seq<byte>>, target: FileHash, included: Included, w: World, now: int, saveTimestamp: bool)
    returns (file': seq<byte>, ghost m: Manifest, ghost m': Manifest)
    requires Managed(file) && DistinctPaths(included) && |included| < TWO32 - MAX_MANIFEST_FILE_INFO_ENTRIES
    requires forall k :: 0 <= k < |included| ==> |included[k].0| < PATH_ROOM
    ensures (forall n :: Sized(n) && ShortPaths(n) ==> !(file.Some? && Begins(file.value, n))) ==> m == EMPTY
    ensures forall n :: file.Some? && Sized(n) && ShortPaths(n) && Begins(file.value, n) ==>
              m == if |n.objects| > 100 || |n.infos| > 10000 then EMPTY else n
    ensures file' == Encode(m') && Sized(m') && Consistent(m') && Added(m, m', target, included, w, now, saveTimestamp)
    ensures Managed(Some(file'))
  {
    hide Begins, Encode, Describes;
    var mf := ReadOrStartAnew(file);
    mf := Kept(mf);
    m := mf;
    var builder := new Builder(mf);
    ghost var indexes := builder.AddObjectEntry(target, included, w, now, saveTimestamp);
    var result := Manifest(builder.files, builder.infos, builder.objects);
    m' := result;
    StaysConsistent(m, m', indexes, target, included, w, now, saveTimestamp);
    var f := new Out();
    f.WriteManifest(result);
    file' := f.data;
    assert file' == Encode(m');
    WrittenIsManaged(m');
  }

  /** The manifest that is there, or an empty one. */
  method ReadOrStartAnew(file: Option<seq<byte>>) returns (m: Manifest)
    requires Managed(file)
    ensures (forall n :: Sized(n) && ShortPaths(n) ==> !(file.Some? && Begins(file.value, n))) ==> m == EMPTY
    ensures forall n :: file.Some? && Sized(n) && ShortPaths(n) && Begins(file.value, n) ==> m == n
    ensures Consistent(m) && Sized(m)
  {
    if file == None {
      return EMPTY;
    }
    var f := new In(file.value);
    var mf := f.ReadManifest();
    if mf == None {
      return EMPTY;
    }
    m := mf.value;
    forall n | Sized(n) && Begins(file.value, n) ensures n == m {
      BeginsOnce(file.value, n, m);
    }
  }

  lemma StaysConsistent(m: Manifest, m': Manifest, indexes: seq<u32>, target: FileHash, included: Included, w: World,
                        now: int, saveTimestamp: bool)
    requires Consistent(m) && |m.objects| <= MAX_MANIFEST_ENTRIES && |m.infos| <= MAX_MANIFEST_FILE_INFO_ENTRIES
    requires |included| < TWO32 - MAX_MANIFEST_FILE_INFO_ENTRIES
    requires forall k :: 0 <= k < |included| ==> |included[k].0| < PATH_ROOM
    requires Grown(m.files, m.infos, m'.files, m'.infos, included, |included|)
    requires |indexes| == |included| && m'.objects == m.objects + [AnyObject.Object(indexes, target.hash, target.size)]
    requires forall k :: 0 <= k < |included| ==>
               Describes(m'.files, m'.infos, indexes[k], included[k], KeptTimes(w, included[k].0, now, saveTimestamp))
    ensures Sized(m') && Consistent(m') && Added(m, m', target, included, w, now, saveTimestamp)
  {
    forall i | 0 <= i < |m'.files| ensures |m'.files[i]| < PATH_ROOM {
      if i >= |m.files| {
        assert Among(m'.files[i], included, |included|);
      }
    }
  }

  lemma WrittenIsManaged(m: Manifest)
    requires Sized(m) && Consistent(m)
    ensures Managed(Some(Encode(m)))
  {
    WrittenBegins(m);
    forall n | Sized(n) && Begins(Encode(m), n) ensures n == m {
      BeginsOnce(Encode(m), n, m);
    }
  }

  /** The entry put for an include file: its path, hash and size, and its mtime and ctime when these
      are asked for and both are before the compilation, else -1 twice. */
  lemma EntryPut(m: Manifest, m': Manifest, target: FileHash, included: Included, w: World, now: int, saveTimestamp: bool, k: nat)
    requires Consistent(m') && Added(m, m', target, included, w, now, saveTimestamp) && k < |included|
    ensures var o := m'.objects[|m'.objects| - 1];
      && o.hash == target.hash && o.size == target.size && k < |o.indexes| && o.indexes[k] < |m'.infos|
      && var fi, path := m'.infos[o.indexes[k]], included[k].0;
         && fi.index < |m'.files| && m'.files[fi.index] == path
         && fi.hash == included[k].1.hash && fi.size == included[k].1.size
         && (!saveTimestamp || w.stat(path).None? ==> fi.mtime == -1 && fi.ctime == -1)
         && (saveTimestamp && w.stat(path).Some? ==>
               var st := w.stat(path).value;
               && (st.mtime < now && st.ctime < now ==> fi.mtime == st.mtime && fi.ctime == st.ctime)
               && (st.mtime >= now || st.ctime >= now ==> fi.mtime == -1 && fi.ctime == -1))
  {
    var o := m'.objects[|m.objects|];
    assert Describes(m'.files, m'.infos, o.indexes[k], included[k], KeptTimes(w, included[k].0, now, saveTimestamp));
  }

  // ---- a lookup right after ----

  /** The include file is still what it was when its hash was taken. */
  predicate Unchanged(cfg: Config, w: World, item: (Path, FileHash), times: (i64, i64)) {
    && w.stat(item.0).Some? && w.stat(item.0).value.size % TWO32 == item.1.size
    && w.hash(item.0).Hashed? && FileHash(w.hash(item.0).hash, w.hash(item.0).size % TWO32) == item.1
    && (cfg.pch ==> times.0 == w.stat(item.0).value.mtime)
  }

  /** The object just put matches when none of its include files has changed. */
  lemma PutMatches(cfg: Config, m: Manifest, m': Manifest, target: FileHash, included: Included, w: World, now: int, saveTimestamp: bool)
    requires Consistent(m') && Added(m, m', target, included, w, now, saveTimestamp)
    requires forall k :: 0 <= k < |included| ==> Unchanged(cfg, w, included[k], KeptTimes(w, included[k].0, now, saveTimestamp))
    ensures ObjectMatches(cfg, w, m', |m.objects|) && IsNewest(cfg, w, m', |m.objects|)
  {
    var o := m'.objects[|m.objects|];
    forall j | 0 <= j < |o.indexes| ensures IndexMatches(cfg, w, m', o.indexes[j]) {
      assert Describes(m'.files, m'.infos, o.indexes[j], included[j], KeptTimes(w, included[j].0, now, saveTimestamp));
      assert Unchanged(cfg, w, included[j], KeptTimes(w, included[j].0, now, saveTimestamp));
    }
  }

  /** A lookup right after a put finds the object just put, when its include files have not
      changed: from no file, from one that cannot be read as a manifest, and from any that puts
      have left. For a precompiled header the recorded time must be the file's, too. */
  method PutThenGet(file: Option<seq<byte>>, target: FileHash, included: Included, w: World, now: int, saveTimestamp: bool,
                    cfg: Config) returns (r: Option<FileHash>)
    requires Managed(file) && DistinctPaths(included) && |included| < TWO32 - MAX_MANIFEST_FILE_INFO_ENTRIES
    requires forall k :: 0 <= k < |included| ==> |included[k].0| < PATH_ROOM
    requires forall k :: 0 <= k < |included| ==> Unchanged(cfg, w, included[k], KeptTimes(w, included[k].0, now, saveTimestamp))
    ensures r == Some(target)
  {
    hide Encode, Unchanged, ObjectMatches, Begins, Describes;
    var file', m, m' := ManifestPut(file, target, included, w, now, saveTimestamp);
    ManagedIsSane(Some(file'));
    r := ManifestGet(Some(file'), cfg, w);
    WrittenBegins(m');
    PutMatches(cfg, m, m', target, included, w, now, saveTimestamp);
  }

  /** One call of manifest_put. */
  datatype Put = Put(target: FileHash, included: Included, w: World, now: int, saveTimestamp: bool)

  ghost predicate Proper(put: Put) {
    && DistinctPaths(put.included) && |put.included| < TWO32 - MAX_MANIFEST_FILE_INFO_ENTRIES
    && forall k :: 0 <= k < |put.included| ==> |put.included[k].0| < PATH_ROOM
  }

  /** After any run of puts from no file at all, the file is a manifest whose files and entries
      are distinct, whose indexes lead somewhere, and that has at most 101 objects. */
  method Run(puts: seq<Put>) returns (file: Option<seq<byte>>, ghost m: Manifest)
    requires forall i :: 0 <= i < |puts| ==> Proper(puts[i])
    ensures Managed(file)
    ensures puts != [] ==> file == Some(Encode(m)) && Sized(m) && Consistent(m) && |m.objects| <= 101
  {
    file, m := None, EMPTY;
    for i := 0 to |puts|
      invariant Managed(file)
      invariant i > 0 ==> file == Some(Encode(m)) && Sized(m) && Consistent(m)
    {
      var data, before, after :=
        ManifestPut(file, puts[i].target, puts[i].included, puts[i].w, puts[i].now, puts[i].saveTimestamp);
      file, m := Some(data), after;
    }
  }
}
