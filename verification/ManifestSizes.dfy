/**
 Sizes in a manifest have 32 bits. When a lookup by those sizes answers as one by the true sizes
 would, and when it does not.
 */
module ManifestSizes {
  import opened Bytes
  import opened ManifestFormat
  import opened ManifestLookup

  // ---- one entry ----

  /** All of a match but the sizes. */
  predicate RestMatches(cfg: Config, w: World, fi: FileInfo, path: Path) {
    && w.stat(path).Some?
    && var st := w.stat(path).value;
       && (cfg.pch ==> fi.mtime == st.mtime)
       && ((cfg.fileStatMatches && TimesMatch(cfg, fi, st)) || (w.hash(path).Hashed? && fi.hash == w.hash(path).hash))
  }

  /** The match for an entry that was recorded for a file of `n` bytes, with sizes of any width. */
  predicate TrueMatch(cfg: Config, w: World, fi: FileInfo, path: Path, n: nat) {
    && w.stat(path).Some?
    && var st := w.stat(path).value;
       && n == st.size
       && (cfg.pch ==> fi.mtime == st.mtime)
       && ((cfg.fileStatMatches && TimesMatch(cfg, fi, st))
           || (w.hash(path).Hashed? && fi.hash == w.hash(path).hash && n == w.hash(path).size))
  }

  /** The sizes that are compared are all the recorded one in their low 32 bits, and one is not it. */
  predicate Aliased(cfg: Config, w: World, fi: FileInfo, path: Path, n: nat) {
    && RestMatches(cfg, w, fi, path)
    && var size := w.stat(path).value.size;
       && size % TWO32 == n % TWO32
       && if cfg.fileStatMatches && TimesMatch(cfg, fi, w.stat(path).value) then size != n
          else w.hash(path).size % TWO32 == n % TWO32 && (size != n || w.hash(path).size != n)
  }

  /** The code's answer for an entry is the true one exactly when no size is aliased. */
  lemma EntryExact(cfg: Config, w: World, fi: FileInfo, path: Path, n: nat)
    requires fi.size == n % TWO32
    ensures (InfoMatches(cfg, w, fi, path) <==> TrueMatch(cfg, w, fi, path, n)) <==> !Aliased(cfg, w, fi, path, n)
    ensures TrueMatch(cfg, w, fi, path, n) ==> InfoMatches(cfg, w, fi, path)
  {
  }

  /** Hashing reads all of the file. */
  predicate ReadWhole(w: World, path: Path) {
    w.stat(path).Some? && w.hash(path).Hashed? ==> w.hash(path).size == w.stat(path).value.size
  }

  /** Then it is so exactly when the rest does not match, or the sizes are the same, or they differ
      in 32 bits as well. */
  lemma EntryExactWhole(cfg: Config, w: World, fi: FileInfo, path: Path, n: nat)
    requires fi.size == n % TWO32 && ReadWhole(w, path)
    ensures (InfoMatches(cfg, w, fi, path) <==> TrueMatch(cfg, w, fi, path, n))
            <==> (RestMatches(cfg, w, fi, path) ==>
                    var size := w.stat(path).value.size; n == size || n % TWO32 != size % TWO32)
    ensures Aliased(cfg, w, fi, path, n)
            <==> RestMatches(cfg, w, fi, path) && (var size := w.stat(path).value.size; n != size && n % TWO32 == size % TWO32)
  {
  }

  /** The file and what is read of it are below 2^32 bytes. */
  predicate Small(w: World, path: Path) {
    && (w.stat(path).Some? ==> w.stat(path).value.size < TWO32)
    && (w.hash(path).Hashed? ==> w.hash(path).size < TWO32)
  }

  lemma SmallIsNotAliased(cfg: Config, w: World, fi: FileInfo, path: Path, n: nat)
    requires n < TWO32 && Small(w, path)
    ensures !Aliased(cfg, w, fi, path, n)
  {
  }

  // ---- objects and lookups ----

  /** The entries of a manifest were recorded for files of these sizes. */
  predicate Recorded(m: Manifest, sizes: seq<nat>) {
    |sizes| == |m.infos| && forall i :: 0 <= i < |m.infos| ==> m.infos[i].size == sizes[i] % TWO32
  }

  predicate IndexAliased(cfg: Config, w: World, m: Manifest, sizes: seq<nat>, index: nat)
    requires InRange(m) && Recorded(m, sizes) && index < |m.infos|
  {
    Aliased(cfg, w, m.infos[index], m.files[m.infos[index].index], sizes[index])
  }

  predicate IndexTrue(cfg: Config, w: World, m: Manifest, sizes: seq<nat>, index: nat)
    requires InRange(m) && Recorded(m, sizes) && index < |m.infos|
  {
    TrueMatch(cfg, w, m.infos[index], m.files[m.infos[index].index], sizes[index])
  }

  predicate ObjectTrue(cfg: Config, w: World, m: Manifest, sizes: seq<nat>, i: nat)
    requires InRange(m) && Recorded(m, sizes) && i < |m.objects|
  {
    forall j :: 0 <= j < |m.objects[i].indexes| ==> IndexTrue(cfg, w, m, sizes, m.objects[i].indexes[j])
  }

  predicate ObjectAliased(cfg: Config, w: World, m: Manifest, sizes: seq<nat>, i: nat)
    requires InRange(m) && Recorded(m, sizes) && i < |m.objects|
  {
    exists j :: 0 <= j < |m.objects[i].indexes| && IndexAliased(cfg, w, m, sizes, m.objects[i].indexes[j])
  }

  lemma IndexExact(cfg: Config, w: World, m: Manifest, sizes: seq<nat>, index: nat)
    requires InRange(m) && Recorded(m, sizes) && index < |m.infos|
    ensures IndexTrue(cfg, w, m, sizes, index) ==> IndexMatches(cfg, w, m, index)
    ensures IndexMatches(cfg, w, m, index) ==> (IndexTrue(cfg, w, m, sizes, index) <==> !IndexAliased(cfg, w, m, sizes, index))
  {
    EntryExact(cfg, w, m.infos[index], m.files[m.infos[index].index], sizes[index]);
  }

  /** The code's answer for an object is the true one exactly when some entry does not match even
      in 32 bits, or none is aliased. */
  lemma ObjectExact(cfg: Config, w: World, m: Manifest, sizes: seq<nat>, i: nat)
    requires InRange(m) && Recorded(m, sizes) && i < |m.objects|
    ensures ObjectTrue(cfg, w, m, sizes, i) ==> ObjectMatches(cfg, w, m, i)
    ensures (ObjectMatches(cfg, w, m, i) <==> ObjectTrue(cfg, w, m, sizes, i))
            <==> (exists j :: 0 <= j < |m.objects[i].indexes| && !IndexMatches(cfg, w, m, m.objects[i].indexes[j]))
                 || !ObjectAliased(cfg, w, m, sizes, i)
  {
    hide IndexMatches, IndexTrue, IndexAliased;
    forall j | 0 <= j < |m.objects[i].indexes|
      ensures IndexTrue(cfg, w, m, sizes, m.objects[i].indexes[j]) ==> IndexMatches(cfg, w, m, m.objects[i].indexes[j])
      ensures IndexMatches(cfg, w, m, m.objects[i].indexes[j]) ==>
                (IndexTrue(cfg, w, m, sizes, m.objects[i].indexes[j]) <==> !IndexAliased(cfg, w, m, sizes, m.objects[i].indexes[j]))
    {
      IndexExact(cfg, w, m, sizes, m.objects[i].indexes[j]);
    }
  }

  /** The newest object by true sizes. */
  predicate NewestTrue(cfg: Config, w: World, m: Manifest, sizes: seq<nat>, r: Option<FileHash>)
    requires InRange(m) && Recorded(m, sizes)
  {
    if r == None then forall i :: 0 <= i < |m.objects| ==> !ObjectTrue(cfg, w, m, sizes, i)
    else exists i :: 0 <= i < |m.objects| && ObjectTrue(cfg, w, m, sizes, i)
                     && (forall j :: i < j < |m.objects| ==> !ObjectTrue(cfg, w, m, sizes, j))
                     && r.value == FileHash(m.objects[i].hash, m.objects[i].size)
  }

  /** While nothing is as large as 2^32 bytes, a lookup answers by true sizes. */
  lemma SmallLookupIsTrue(cfg: Config, w: World, m: Manifest, sizes: seq<nat>, r: Option<FileHash>)
    requires InRange(m) && Recorded(m, sizes) && NewestMatch(cfg, w, m, r)
    requires forall i :: 0 <= i < |sizes| ==> sizes[i] < TWO32
    requires forall path :: path in m.files ==> Small(w, path)
    ensures NewestTrue(cfg, w, m, sizes, r)
  {
    forall i | 0 <= i < |m.objects| ensures ObjectMatches(cfg, w, m, i) <==> ObjectTrue(cfg, w, m, sizes, i) {
      forall j | 0 <= j < |m.objects[i].indexes| ensures !IndexAliased(cfg, w, m, sizes, m.objects[i].indexes[j]) {
        var index := m.objects[i].indexes[j];
        SmallIsNotAliased(cfg, w, m.infos[index], m.files[m.infos[index].index], sizes[index]);
      }
      ObjectExact(cfg, w, m, sizes, i);
    }
  }

  // ---- a size that is aliased ----

  /** A file that was of 5 bytes, is of 2^32 more, and has the times it had. */
  function GrownWorld(): World {
    World(_ => Some(Stats(TWO32 + 5, 1, 1)), _ => HashOutcome.Failed)
  }

  /** The manifest with one object that was made from it. */
  function GrownManifest(): Manifest {
    var h := seq(16, _ => 0);
    Manifest([[97]], [FileInfo(0, h, 5, 1, 1)], [Object([0], h, 5)])
  }

  /** The lookup finds the object, and should not. */
  method FindGrown() returns (r: Option<FileHash>)
    ensures InRange(GrownManifest()) && Recorded(GrownManifest(), [5])
    ensures r.Some? && !NewestTrue(Config(true, false, false), GrownWorld(), GrownManifest(), [5], r)
    ensures IndexAliased(Config(true, false, false), GrownWorld(), GrownManifest(), [5], 0)
  {
    var cfg, w, m := Config(true, false, false), GrownWorld(), GrownManifest();
    assert w.stat(m.files[0]) == Some(Stats(TWO32 + 5, 1, 1));
    assert IndexMatches(cfg, w, m, 0) && !IndexTrue(cfg, w, m, [5], m.objects[0].indexes[0]);
    assert ObjectMatches(cfg, w, m, 0) && !ObjectTrue(cfg, w, m, [5], 0);
    r := Find(m, cfg, w);
  }
}
