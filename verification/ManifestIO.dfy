/**
 Reading and writing the manifest file, byte by byte from a stream and to a stream.
 */
module ManifestIO {
  import opened Bytes
  import opened ManifestFormat

  // ---- writing ----

  /** A number without its last bytes. */
  function Shift(u: nat, bytes: nat): nat {
    if bytes == 0 then u else Shift(u, bytes - 1) / 256
  }

  class Out {
    var data: seq<byte>

    constructor ()
      ensures data == []
    {
      data := [];
    }

    /** WRITE_INT: the bytes of a number from the highest down. */
    method WriteInt(size: nat, u: nat)
      modifies this
      ensures data == old(data) + Int(size, u)
    {
      var i := 0;
      while i < size
        invariant i <= size
        invariant data == old(data) + Int(i, Shift(u, size - i))
      {
        var ch := Shift(u, size - i - 1) % 256;
        assert Int(i + 1, Shift(u, size - i - 1)) == Int(i, Shift(u, size - i)) + [ch];
        data := data + [ch];
        i := i + 1;
      }
    }

    /** WRITE_BYTES. */
    method WriteBytes(bytes: seq<byte>)
      modifies this
      ensures data == old(data) + bytes
    {
      var i := 0;
      while i < |bytes|
        invariant i <= |bytes| && data == old(data) + bytes[..i]
      {
        data := data + [bytes[i]];
        i := i + 1;
      }
      assert bytes[..i] == bytes;
    }

    /** WRITE_STR. */
    method WriteStr(path: Path)
      modifies this
      ensures data == old(data) + EncPath(path)
    {
      data := data + path;
      data := data + [0];
    }

    method WriteFiles(files: seq<Path>)
      modifies this
      ensures data == old(data) + EncList(EncPath, files)
    {
      WriteInt(4, |files|);
      ghost var before := data;
      var i := 0;
      while i < |files|
        invariant i <= |files| && data == before + EncAll(EncPath, files[..i])
      {
        AllNext(EncPath, files, i);
        Assoc(before, EncAll(EncPath, files[..i]), EncPath(files[i]));
        WriteStr(files[i]);
        i := i + 1;
      }
      assert files[..i] == files;
    }

    method WriteInfo(fi: FileInfo)
      modifies this
      ensures data == old(data) + EncInfo(fi)
    {
      WriteInt(4, fi.index);
      WriteBytes(fi.hash);
      WriteInt(4, fi.size);
      WriteInt(8, Unsigned(fi.mtime));
      WriteInt(8, Unsigned(fi.ctime));
      Gather5(old(data), Int(4, fi.index), fi.hash, Int(4, fi.size), Int(8, Unsigned(fi.mtime)), Int(8, Unsigned(fi.ctime)));
    }

    method WriteInfos(infos: seq<FileInfo>)
      modifies this
      ensures data == old(data) + EncList(EncInfo, infos)
    {
      WriteInt(4, |infos|);
      ghost var before := data;
      var i := 0;
      while i < |infos|
        invariant i <= |infos| && data == before + EncAll(EncInfo, infos[..i])
      {
        WriteNext(infos, i, before);
        i := i + 1;
      }
      assert infos[..i] == infos;
    }

    method WriteNext(infos: seq<FileInfo>, i: nat, ghost before: seq<byte>)
      requires i < |infos| && data == before + EncAll(EncInfo, infos[..i])
      modifies this
      ensures data == before + EncAll(EncInfo, infos[..i + 1])
    {
      AllNext(EncInfo, infos, i);
      WriteInfo(infos[i]);
      Assoc(before, EncAll(EncInfo, infos[..i]), EncInfo(infos[i]));
    }

    method WriteObject(o: Object)
      modifies this
      ensures data == old(data) + EncObject(o)
    {
      WriteInt(4, |o.indexes|);
      ghost var before := data;
      var j := 0;
      while j < |o.indexes|
        invariant j <= |o.indexes| && data == before + EncAll(EncIndex, o.indexes[..j])
      {
        AllNext(EncIndex, o.indexes, j);
        WriteInt(4, o.indexes[j]);
        j := j + 1;
      }
      assert o.indexes[..j] == o.indexes;
      WriteBytes(o.hash);
      WriteInt(4, o.size);
      Gather4(old(data), Int(4, |o.indexes|), EncAll(EncIndex, o.indexes), o.hash, Int(4, o.size));
    }

    lemma NoneEncoded<T>(enc: T -> seq<byte>)
      ensures EncAll(enc, []) == []
    {
    }

    method WriteObjects(objects: seq<Object>)
      modifies this
      ensures data == old(data) + EncList(EncObject, objects)
    {
      hide EncAll, EncObject, Int;
      NoneEncoded(EncObject);
      WriteInt(4, |objects|);
      ghost var before := data;
      var i := 0;
      while i < |objects|
        invariant i <= |objects| && data == before + EncAll(EncObject, objects[..i])
      {
        AllNext(EncObject, objects, i);
        Assoc(before, EncAll(EncObject, objects[..i]), EncObject(objects[i]));
        WriteObject(objects[i]);
        i := i + 1;
      }
      assert objects[..i] == objects;
    }

    /** write_manifest. */
    method WriteManifest(m: Manifest)
      modifies this
      ensures data == old(data) + Encode(m)
    {
      WriteInt(4, MAGIC);
      WriteInt(1, VERSION);
      WriteInt(1, HASH_SIZE);
      WriteInt(2, 0);
      Gather4(old(data), Int(4, MAGIC), Int(1, VERSION), Int(1, HASH_SIZE), Int(2, 0));
      WriteFiles(m.files);
      WriteInfos(m.infos);
      WriteObjects(m.objects);
      Gather4(old(data), EncHead(0), EncList(EncPath, m.files), EncList(EncInfo, m.infos), EncList(EncObject, m.objects));
    }
  }

  // ---- reading ----

  lemma IntNext(size: nat, u: nat, ch: byte)
    requires u < Power(size)
    ensures Int(size + 1, u * 256 + ch) == Int(size, u) + [ch] && u * 256 + ch < Power(size + 1)
  {
    var c: int := ch;
    assert (u * 256 + c) / 256 == u && (u * 256 + c) % 256 == c;
  }

  /** Three things at a place, one behind the other. */
  lemma Holds3(data: seq<byte>, p: nat, a: seq<byte>, b: seq<byte>, c: seq<byte>)
    ensures Holds(data, p, a + b + c)
            <==> Holds(data, p, a) && Holds(data, p + |a|, b) && Holds(data, p + |a| + |b|, c)
  {
    HoldsSplit(data, p, a + b, c);
    HoldsSplit(data, p, a, b);
  }

  class In {
    const data: seq<byte>
    var pos: nat

    constructor (data: seq<byte>)
      ensures this.data == data && pos == 0
    {
      this.data := data;
      pos := 0;
    }

    /** gzgetc: -1 at the end. */
    method GetByte() returns (ch: int)
      requires pos <= |data|
      modifies this`pos
      ensures pos <= |data|
      ensures old(pos) == |data| ==> ch == -1 && pos == old(pos)
      ensures old(pos) < |data| ==> ch == data[old(pos)] && pos == old(pos) + 1
    {
      if pos == |data| {
        return -1;
      }
      ch := data[pos];
      pos := pos + 1;
    }

    /** READ_INT: fails only at the end of the file. */
    method ReadInt(size: nat) returns (r: Option<nat>)
      requires pos <= |data|
      modifies this`pos
      ensures pos <= |data|
      ensures r.Some? <==> old(pos) + size <= |data|
      ensures r.Some? ==> r.value < Power(size) && Holds(data, old(pos), Int(size, r.value)) && pos == old(pos) + size
    {
      var u: nat := 0;
      var i := 0;
      while i < size
        invariant i <= size && pos == old(pos) + i <= |data|
        invariant u < Power(i) && data[old(pos)..pos] == Int(i, u)
      {
        var ch := GetByte();
        if ch == -1 {
          return None;
        }
        IntNext(i, u, ch);
        assert data[old(pos)..pos] == data[old(pos)..pos - 1] + [ch];
        u := u * 256 + ch;
        i := i + 1;
      }
      HoldsSlice(data, old(pos), Int(size, u));
      r := Some(u);
    }

    /** READ_BYTES. */
    method ReadBytes(n: nat) returns (r: Option<seq<byte>>)
      requires pos <= |data|
      modifies this`pos
      ensures pos <= |data|
      ensures r.Some? <==> old(pos) + n <= |data|
      ensures r.Some? ==> |r.value| == n && Holds(data, old(pos), r.value) && pos == old(pos) + n
    {
      var bytes := [];
      var i := 0;
      while i < n
        invariant i <= n && pos == old(pos) + i <= |data|
        invariant bytes == data[old(pos)..pos]
      {
        var ch := GetByte();
        if ch == -1 {
          return None;
        }
        bytes := bytes + [ch];
        i := i + 1;
      }
      HoldsSlice(data, old(pos), bytes);
      r := Some(bytes);
    }

    /** READ_STR: a path that ends within the buffer. */
    method ReadStr() returns (r: Option<Path>)
      requires pos <= |data|
      modifies this`pos
      ensures pos <= |data|
      ensures r.Some? ==> |r.value| < PATH_ROOM && Holds(data, old(pos), EncPath(r.value)) && pos == old(pos) + |r.value| + 1
      ensures r.None? ==> forall x: Path :: |x| < PATH_ROOM ==> !Holds(data, old(pos), EncPath(x))
    {
      var buf: seq<byte> := [];
      var i := 0;
      while i < PATH_ROOM
        invariant i <= PATH_ROOM && pos == old(pos) + i <= |data|
        invariant buf == data[old(pos)..pos] && 0 !in buf
      {
        ghost var p := pos;
        var ch := GetByte();
        if ch == -1 {
          HoldsSlice(data, old(pos), buf);
          NoPathHere(data, old(pos), buf);
          return None;
        }
        SliceSnoc(data, old(pos), p);
        if ch == 0 {
          HoldsSlice(data, old(pos), EncPath(buf));
          return Some(buf);
        }
        buf := buf + [ch];
        i := i + 1;
      }
      HoldsSlice(data, old(pos), buf);
      NoPathHere(data, old(pos), buf);
      r := None;
    }

    /** A count and as many paths. */
    method ReadFiles() returns (r: Option<seq<Path>>)
      requires pos <= |data|
      modifies this`pos
      ensures pos <= |data|
      ensures r.Some? ==> |r.value| < TWO32 && AllShort(r.value)
                          && Holds(data, old(pos), EncList(EncPath, r.value)) && pos == old(pos) + |EncList(EncPath, r.value)|
      ensures r.None? ==> forall ys :: |ys| < TWO32 && AllShort(ys) ==> !Holds(data, old(pos), EncList(EncPath, ys))
    {
      ghost var p := pos;
      var n := ReadInt(4);
      if n == None {
        return None;
      }
      Bounds();
      var xs: seq<Path> := [];
      while |xs| < n.value
        invariant |xs| <= n.value && pos == p + 4 + |EncAll(EncPath, xs)| <= |data|
        invariant AllShort(xs) && Holds(data, p + 4, EncAll(EncPath, xs))
      {
        ghost var here := pos;
        var x := ReadStr();
        if x == None {
          NoFilesHere(data, p, n.value, xs, here);
          return None;
        }
        OneMorePath(data, p + 4, xs, x.value);
        xs := xs + [x.value];
      }
      HoldsSplit(data, p, Int(4, n.value), EncAll(EncPath, xs));
      r := Some(xs);
    }

    /** One entry: always the same length. */
    method ReadInfo() returns (r: Option<FileInfo>)
      requires pos <= |data|
      modifies this`pos
      ensures pos <= |data|
      ensures r.Some? ==> Holds(data, old(pos), EncInfo(r.value)) && pos == old(pos) + 40
      ensures r.None? ==> old(pos) + 40 > |data|
    {
      Bounds();
      ghost var p := pos;
      var index := ReadInt(4);
      if index == None { return None; }
      var hash := ReadBytes(HASH_SIZE);
      if hash == None { return None; }
      var size := ReadInt(4);
      if size == None { return None; }
      var mtime := ReadInt(8);
      if mtime == None { return None; }
      var ctime := ReadInt(8);
      if ctime == None { return None; }
      InfoHolds(data, p, index.value, hash.value, size.value, mtime.value, ctime.value);
      r := Some(FileInfo(index.value, hash.value, size.value, Signed(mtime.value), Signed(ctime.value)));
    }

    method ReadInfos() returns (r: Option<seq<FileInfo>>)
      requires pos <= |data|
      modifies this`pos
      ensures pos <= |data|
      ensures r.Some? ==> |r.value| < TWO32
                          && Holds(data, old(pos), EncList(EncInfo, r.value)) && pos == old(pos) + |EncList(EncInfo, r.value)|
      ensures r.None? ==> forall ys :: |ys| < TWO32 ==> !Holds(data, old(pos), EncList(EncInfo, ys))
    {
      ghost var p := pos;
      var n := ReadInt(4);
      if n == None {
        return None;
      }
      Bounds();
      var xs: seq<FileInfo> := [];
      while |xs| < n.value
        invariant |xs| <= n.value && pos == p + 4 + |EncAll(EncInfo, xs)| <= |data|
        invariant Holds(data, p + 4, EncAll(EncInfo, xs))
      {
        ghost var here := pos;
        var x := ReadInfo();
        if x == None {
          NoInfosHere(data, p, n.value, xs, here);
          return None;
        }
        OneMore(EncInfo, data, p + 4, xs, x.value);
        xs := xs + [x.value];
      }
      HoldsSplit(data, p, Int(4, n.value), EncAll(EncInfo, xs));
      r := Some(xs);
    }

    /** A count and as many indexes. */
    method ReadIndexes() returns (r: Option<seq<u32>>)
      requires pos <= |data|
      modifies this`pos
      ensures pos <= |data|
      ensures r.Some? ==> |r.value| < TWO32
                          && Holds(data, old(pos), EncList(EncIndex, r.value)) && pos == old(pos) + |EncList(EncIndex, r.value)|
      ensures r.None? ==> forall ys :: |ys| < TWO32 ==> !Holds(data, old(pos), EncList(EncIndex, ys))
    {
      ghost var p := pos;
      var n := ReadInt(4);
      if n == None {
        return None;
      }
      Bounds();
      var xs: seq<u32> := [];
      while |xs| < n.value
        invariant |xs| <= n.value && pos == p + 4 + |EncAll(EncIndex, xs)| <= |data|
        invariant Holds(data, p + 4, EncAll(EncIndex, xs))
      {
        ghost var here := pos;
        var x := ReadInt(4);
        if x == None {
          NoIndexesHere(data, p, n.value, xs, here);
          return None;
        }
        var index: u32 := x.value;
        OneMore<u32>(EncIndex, data, p + 4, xs, index);
        xs := xs + [index];
      }
      HoldsSplit(data, p, Int(4, n.value), EncAll(EncIndex, xs));
      r := Some(xs);
    }

    method ReadObject() returns (r: Option<Object>)
      requires pos <= |data|
      modifies this`pos
      ensures pos <= |data|
      ensures r.Some? ==> Holds(data, old(pos), EncObject(r.value)) && pos == old(pos) + |EncObject(r.value)|
      ensures r.None? ==> forall o: Object :: !Holds(data, old(pos), EncObject(o))
    {
      ghost var p := pos;
      Bounds();
      var indexes := ReadIndexes();
      if indexes == None {
        forall o: Object ensures !Holds(data, p, EncObject(o)) {
          HoldsSplit(data, p, EncList(EncIndex, o.indexes), o.hash + Int(4, o.size));
        }
        return None;
      }
      ghost var q := pos;
      var hash := ReadBytes(HASH_SIZE);
      var size: Option<nat> := None;
      if hash != None {
        size := ReadInt(4);
      }
      if size == None {
        ObjectCut(data, p, indexes.value, q);
        return None;
      }
      HoldsSplit(data, q, hash.value, Int(4, size.value));
      HoldsSplit(data, p, EncList(EncIndex, indexes.value), hash.value + Int(4, size.value));
      r := Some(AnyObject.Object(indexes.value, hash.value, size.value));
    }

    method ReadObjects() returns (r: Option<seq<Object>>)
      requires pos <= |data|
      modifies this`pos
      ensures pos <= |data|
      ensures r.Some? ==> |r.value| < TWO32
                          && Holds(data, old(pos), EncList(EncObject, r.value)) && pos == old(pos) + |EncList(EncObject, r.value)|
      ensures r.None? ==> forall ys :: |ys| < TWO32 ==> !Holds(data, old(pos), EncList(EncObject, ys))
    {
      ghost var p := pos;
      var n := ReadInt(4);
      if n == None {
        return None;
      }
      Bounds();
      var xs: seq<Object> := [];
      while |xs| < n.value
        invariant |xs| <= n.value && pos == p + 4 + |EncAll(EncObject, xs)| <= |data|
        invariant Holds(data, p + 4, EncAll(EncObject, xs))
      {
        ghost var here := pos;
        var x := ReadObject();
        if x == None {
          NoObjectsHere(data, p, n.value, xs, here);
          return None;
        }
        OneMore(EncObject, data, p + 4, xs, x.value);
        xs := xs + [x.value];
      }
      HoldsSplit(data, p, Int(4, n.value), EncAll(EncObject, xs));
      r := Some(xs);
    }

    /** A number that must be the one expected. */
    method Expect(size: nat, u: nat) returns (ok: bool)
      requires pos <= |data| && u < Power(size)
      modifies this`pos
      ensures pos <= |data|
      ensures ok <==> Holds(data, old(pos), Int(size, u))
      ensures ok ==> pos == old(pos) + size
    {
      var r := ReadInt(size);
      if r != None && Holds(data, old(pos), Int(size, u)) {
        IntHere(data, old(pos), size, r.value, u);
      }
      ok := r != None && r.value == u;
    }

    /** The magic number, the version, the hash size and the reserved field. */
    method ReadHead() returns (ok: bool, reserved: nat)
      requires pos <= |data|
      modifies this`pos
      ensures pos <= |data|
      ensures ok ==> reserved < 65536 && Holds(data, old(pos), EncHead(reserved)) && pos == old(pos) + 8
      ensures !ok ==> forall r: nat :: r < 65536 ==> !Holds(data, old(pos), EncHead(r))
    {
      Bounds();
      ghost var p := pos;
      ok, reserved := false, 0;
      forall r: nat | r < 65536
        ensures Holds(data, p, EncHead(r)) ==> Holds(data, p, Int(4, MAGIC)) && Holds(data, p + 4, Int(1, VERSION))
                                               && Holds(data, p + 5, Int(1, HASH_SIZE)) && p + 8 <= |data|
      {
        HeadHolds(data, p, r);
      }
      var good := Expect(4, MAGIC);
      if !good {
        return;
      }
      good := Expect(1, VERSION);
      if !good {
        return;
      }
      good := Expect(1, HASH_SIZE);
      if !good {
        return;
      }
      var rest := ReadInt(2);
      if rest == None {
        return;
      }
      HeadHolds(data, p, rest.value);
      ok, reserved := true, rest.value;
    }

    /** read_manifest: the manifest whose bytes the file begins with, and nothing exactly when
        there is none. */
    method ReadManifest() returns (r: Option<Manifest>)
      requires pos == 0
      modifies this`pos
      ensures r.Some? ==> Sized(r.value) && ShortPaths(r.value) && Begins(data, r.value)
      ensures r.None? ==> forall m :: Sized(m) && ShortPaths(m) ==> !Begins(data, m)
    {
      var ok, reserved := ReadHead();
      if !ok {
        forall m ensures !Begins(data, m) {
          NoHead(data, m);
        }
        return None;
      }
      var files := ReadFiles();
      if files == None {
        forall m | Sized(m) && ShortPaths(m) && Begins(data, m) ensures Holds(data, 8, EncList(EncPath, m.files)) {
          var r := BeginsParts(data, m);
        }
        return None;
      }
      r := ReadTail(files.value, reserved);
    }

    /** The entries and the objects, behind the paths. */
    method ReadTail(files: seq<Path>, ghost reserved: nat) returns (r: Option<Manifest>)
      requires pos <= |data| && |files| < TWO32 && AllShort(files) && reserved < 65536
      requires Holds(data, 0, EncHead(reserved)) && Holds(data, 8, EncList(EncPath, files))
      requires pos == 8 + |EncList(EncPath, files)|
      modifies this`pos
      ensures r.Some? ==> Sized(r.value) && ShortPaths(r.value) && Begins(data, r.value)
      ensures r.None? ==> forall m :: Sized(m) && ShortPaths(m) ==> !Begins(data, m)
    {
      ghost var p := pos;
      var infos := ReadInfos();
      if infos == None {
        NoneBeginsInfos(data, files, p);
        return None;
      }
      ghost var q := pos;
      var objects := ReadObjects();
      if objects == None {
        NoneBeginsObjects(data, files, p, infos.value, q);
        return None;
      }
      r := Some(Manifest(files, infos.value, objects.value));
      PartsBegin(data, reserved, r.value, p, q);
    }
  }

  lemma PartsBegin(data: seq<byte>, reserved: nat, m: Manifest, p: nat, q: nat)
    requires reserved < 65536 && Holds(data, 0, EncHead(reserved))
    requires p == 8 + |EncList(EncPath, m.files)| && q == p + |EncList(EncInfo, m.infos)|
    requires Holds(data, 8, EncList(EncPath, m.files))
    requires Holds(data, p, EncList(EncInfo, m.infos))
    requires Holds(data, q, EncList(EncObject, m.objects))
    ensures Begins(data, m)
  {
    Holds3(data, 8, EncList(EncPath, m.files), EncList(EncInfo, m.infos), EncList(EncObject, m.objects));
    HoldsSplit(data, 0, EncHead(reserved), EncBody(m));
    assert BeginsWith(data, reserved, m);
  }

  ghost predicate BeginsWith(data: seq<byte>, reserved: nat, m: Manifest) {
    reserved < 65536 && Holds(data, 0, EncHead(reserved) + EncBody(m))
  }

  /** The file begins with a manifest's bytes. The reserved field may be anything. */
  ghost predicate Begins(data: seq<byte>, m: Manifest) {
    exists reserved: nat :: BeginsWith(data, reserved, m)
  }

  /** What stands where, in a file that begins with a manifest. */
  lemma BeginsParts(data: seq<byte>, m: Manifest) returns (reserved: nat)
    requires Begins(data, m)
    ensures reserved < 65536 && Holds(data, 0, EncHead(reserved))
    ensures Holds(data, 8, EncList(EncPath, m.files))
    ensures Holds(data, 8 + |EncList(EncPath, m.files)|, EncList(EncInfo, m.infos))
    ensures Holds(data, 8 + |EncList(EncPath, m.files)| + |EncList(EncInfo, m.infos)|, EncList(EncObject, m.objects))
  {
    reserved :| BeginsWith(data, reserved, m);
    HoldsSplit(data, 0, EncHead(reserved), EncBody(m));
    Holds3(data, 8, EncList(EncPath, m.files), EncList(EncInfo, m.infos), EncList(EncObject, m.objects));
  }

  lemma NoHead(data: seq<byte>, m: Manifest)
    requires forall r: nat :: r < 65536 ==> !Holds(data, 0, EncHead(r))
    ensures !Begins(data, m)
  {
    forall r: nat ensures !BeginsWith(data, r, m) {
      HoldsSplit(data, 0, EncHead(r), EncBody(m));
    }
  }

  lemma SamePaths(data: seq<byte>, p: nat, xs: seq<Path>, ys: seq<Path>)
    requires |xs| < TWO32 && |ys| < TWO32
    requires Holds(data, p, EncList(EncPath, xs)) && Holds(data, p, EncList(EncPath, ys))
    ensures xs == ys
  {
    PathsUnique();
    SameList(EncPath, data, p, xs, ys);
  }

  lemma SameInfos(data: seq<byte>, p: nat, xs: seq<FileInfo>, ys: seq<FileInfo>)
    requires |xs| < TWO32 && |ys| < TWO32
    requires Holds(data, p, EncList(EncInfo, xs)) && Holds(data, p, EncList(EncInfo, ys))
    ensures xs == ys
  {
    InfosUnique();
    SameList(EncInfo, data, p, xs, ys);
  }

  /** Behind the paths that have been read stand the entries. */
  lemma InfosThere(data: seq<byte>, m: Manifest, files: seq<Path>, p: nat)
    requires Sized(m) && |files| < TWO32 && Begins(data, m)
    requires Holds(data, 8, EncList(EncPath, files)) && p == 8 + |EncList(EncPath, files)|
    ensures files == m.files && Holds(data, p, EncList(EncInfo, m.infos))
  {
    var r := BeginsParts(data, m);
    SamePaths(data, 8, files, m.files);
  }

  /** Behind the entries stand the objects. */
  lemma ObjectsThere(data: seq<byte>, m: Manifest, files: seq<Path>, p: nat, infos: seq<FileInfo>, q: nat)
    requires Sized(m) && |files| < TWO32 && |infos| < TWO32 && Begins(data, m)
    requires Holds(data, 8, EncList(EncPath, files)) && p == 8 + |EncList(EncPath, files)|
    requires Holds(data, p, EncList(EncInfo, infos)) && q == p + |EncList(EncInfo, infos)|
    ensures Holds(data, q, EncList(EncObject, m.objects))
  {
    InfosThere(data, m, files, p);
    SameInfos(data, p, infos, m.infos);
    var r := BeginsParts(data, m);
  }

  lemma NoneBeginsInfos(data: seq<byte>, files: seq<Path>, p: nat)
    requires |files| < TWO32 && Holds(data, 8, EncList(EncPath, files)) && p == 8 + |EncList(EncPath, files)|
    requires forall ys :: |ys| < TWO32 ==> !Holds(data, p, EncList(EncInfo, ys))
    ensures forall m :: Sized(m) ==> !Begins(data, m)
  {
    forall m | Sized(m) ensures !Begins(data, m) {
      if Begins(data, m) {
        InfosThere(data, m, files, p);
      }
    }
  }

  lemma NoneBeginsObjects(data: seq<byte>, files: seq<Path>, p: nat, infos: seq<FileInfo>, q: nat)
    requires |files| < TWO32 && |infos| < TWO32
    requires Holds(data, 8, EncList(EncPath, files)) && p == 8 + |EncList(EncPath, files)|
    requires Holds(data, p, EncList(EncInfo, infos)) && q == p + |EncList(EncInfo, infos)|
    requires forall ys :: |ys| < TWO32 ==> !Holds(data, q, EncList(EncObject, ys))
    ensures forall m :: Sized(m) ==> !Begins(data, m)
  {
    forall m | Sized(m) ensures !Begins(data, m) {
      if Begins(data, m) {
        ObjectsThere(data, m, files, p, infos, q);
      }
    }
  }

  // ---- what is written is what is read ----

  lemma WrittenBegins(m: Manifest)
    ensures Begins(Encode(m), m)
  {
    HoldsSlice(Encode(m), 0, Encode(m));
    assert BeginsWith(Encode(m), 0, m);
  }

  /** A file begins with at most one manifest. */
  lemma BeginsOnce(data: seq<byte>, m: Manifest, n: Manifest)
    requires Sized(m) && Sized(n) && Begins(data, m) && Begins(data, n)
    ensures m == n
  {
    var r, s :| BeginsWith(data, r, m) && BeginsWith(data, s, n);
    HoldsRest(data, 0, EncHead(r) + EncBody(m));
    HoldsRest(data, 0, EncHead(s) + EncBody(n));
    var t, u := data[|EncHead(r) + EncBody(m)|..], data[|EncHead(s) + EncBody(n)|..];
    Assoc(EncHead(r), EncBody(m), t);
    Assoc(EncHead(s), EncBody(n), u);
    SplitSame(EncHead(r), EncBody(m) + t, EncHead(s), EncBody(n) + u);
    BodyUnique(m, n, t, u);
  }

  /** A proper beginning of a manifest file begins with no manifest. */
  lemma TruncatedIsNone(m: Manifest, n: Manifest, size: nat)
    requires Sized(m) && Sized(n) && size < |Encode(m)|
    ensures !Begins(Encode(m)[..size], n)
  {
    if Begins(Encode(m)[..size], n) {
      var r :| BeginsWith(Encode(m)[..size], r, n);
      var x := EncHead(r) + EncBody(n);
      HoldsSlice(Encode(m)[..size], 0, x);
      HoldsSlice(Encode(m), 0, x);
      assert Encode(m)[..|x|] == Encode(m)[..size][..|x|];
      assert BeginsWith(Encode(m), r, n);
      WrittenBegins(m);
      BeginsOnce(Encode(m), m, n);
    }
  }

  /** Writing and reading back restores the manifest exactly when all its paths are shorter than
      the buffer they are read into; otherwise it is rejected. */
  method WriteThenRead(m: Manifest) returns (r: Option<Manifest>)
    requires Sized(m)
    ensures r == if ShortPaths(m) then Some(m) else None
  {
    var f := new Out();
    f.WriteManifest(m);
    assert f.data == Encode(m);
    var g := new In(f.data);
    r := g.ReadManifest();
    WrittenBegins(m);
    if r != None {
      BeginsOnce(f.data, m, r.value);
    }
  }

  /** A path of 1024 bytes: what is written is taken for corrupt. */
  method WriteLongPath() returns (m: Manifest, r: Option<Manifest>)
    ensures Sized(m) && |m.files| == 1 && |m.files[0]| == PATH_ROOM && r == None
  {
    var path: Path := seq(PATH_ROOM, _ => 97);
    m := Manifest([path], [], []);
    assert |m.files[0]| == PATH_ROOM;
    r := WriteThenRead(m);
  }

  /** Every proper truncation of what is written is rejected. */
  method WriteTruncateRead(m: Manifest, size: nat) returns (r: Option<Manifest>)
    requires Sized(m) && size < |Encode(m)|
    ensures r == None
  {
    var f := new Out();
    f.WriteManifest(m);
    assert f.data == Encode(m);
    var g := new In(f.data[..size]);
    r := g.ReadManifest();
    if r != None {
      TruncatedIsNone(m, r.value, size);
    }
  }

  lemma HeadHolds(data: seq<byte>, p: nat, r: nat)
    ensures Holds(data, p, EncHead(r))
            <==> Holds(data, p, Int(4, MAGIC)) && Holds(data, p + 4, Int(1, VERSION))
                 && Holds(data, p + 5, Int(1, HASH_SIZE)) && Holds(data, p + 6, Int(2, r))
  {
    Holds3(data, p, Int(4, MAGIC), Int(1, VERSION), Int(1, HASH_SIZE));
    HoldsSplit(data, p, Int(4, MAGIC) + Int(1, VERSION) + Int(1, HASH_SIZE), Int(2, r));
  }

  /** Without room for a hash and a size behind the indexes there is no object. */
  lemma ObjectCut(data: seq<byte>, p: nat, indexes: seq<u32>, q: nat)
    requires |indexes| < TWO32 && Holds(data, p, EncList(EncIndex, indexes))
    requires q == p + |EncList(EncIndex, indexes)| && q + 20 > |data|
    ensures forall o: Object :: !Holds(data, p, EncObject(o))
  {
    IndexesUnique();
    forall o: Object ensures !Holds(data, p, EncObject(o)) {
      HoldsSplit(data, p, EncList(EncIndex, o.indexes), o.hash + Int(4, o.size));
      if Holds(data, p, EncList(EncIndex, o.indexes)) {
        SameList(EncIndex, data, p, indexes, o.indexes);
      }
    }
  }

  lemma SameList<T(!new)>(enc: T -> seq<byte>, data: seq<byte>, p: nat, xs: seq<T>, ys: seq<T>)
    requires forall x, y, s, t :: Unique(enc, x, y, s, t)
    requires |xs| < TWO32 && |ys| < TWO32
    requires Holds(data, p, EncList(enc, xs)) && Holds(data, p, EncList(enc, ys))
    ensures xs == ys
  {
    HoldsRest(data, p, EncList(enc, xs));
    HoldsRest(data, p, EncList(enc, ys));
    ListUnique(enc, xs, ys, data[p + |EncList(enc, xs)|..], data[p + |EncList(enc, ys)|..]);
  }

  lemma NoFilesHere(data: seq<byte>, p: nat, n: nat, xs: seq<Path>, q: nat)
    requires |xs| < n < TWO32 && Holds(data, p, Int(4, n)) && Holds(data, p + 4, EncAll(EncPath, xs))
    requires q == p + 4 + |EncAll(EncPath, xs)|
    requires forall x: Path :: |x| < PATH_ROOM ==> !Holds(data, q, EncPath(x))
    ensures forall ys :: |ys| < TWO32 && AllShort(ys) ==> !Holds(data, p, EncList(EncPath, ys))
  {
    forall ys | |ys| < TWO32 && AllShort(ys) ensures !Holds(data, p, EncList(EncPath, ys)) {
      PathsUnique();
      WhatElse(EncPath, data, p, n, xs, ys);
    }
  }

  lemma NoInfosHere(data: seq<byte>, p: nat, n: nat, xs: seq<FileInfo>, q: nat)
    requires |xs| < n < TWO32 && Holds(data, p, Int(4, n)) && Holds(data, p + 4, EncAll(EncInfo, xs))
    requires q == p + 4 + |EncAll(EncInfo, xs)|
    requires q + 40 > |data|
    ensures forall ys :: |ys| < TWO32 ==> !Holds(data, p, EncList(EncInfo, ys))
  {
    forall ys | |ys| < TWO32 ensures !Holds(data, p, EncList(EncInfo, ys)) {
      InfosUnique();
      WhatElse(EncInfo, data, p, n, xs, ys);
    }
  }

  lemma NoIndexesHere(data: seq<byte>, p: nat, n: nat, xs: seq<u32>, q: nat)
    requires |xs| < n < TWO32 && Holds(data, p, Int(4, n)) && Holds(data, p + 4, EncAll(EncIndex, xs))
    requires q == p + 4 + |EncAll(EncIndex, xs)|
    requires q + 4 > |data|
    ensures forall ys :: |ys| < TWO32 ==> !Holds(data, p, EncList(EncIndex, ys))
  {
    forall ys | |ys| < TWO32 ensures !Holds(data, p, EncList(EncIndex, ys)) {
      IndexesUnique();
      WhatElse(EncIndex, data, p, n, xs, ys);
    }
  }

  lemma NoObjectsHere(data: seq<byte>, p: nat, n: nat, xs: seq<Object>, q: nat)
    requires |xs| < n < TWO32 && Holds(data, p, Int(4, n)) && Holds(data, p + 4, EncAll(EncObject, xs))
    requires q == p + 4 + |EncAll(EncObject, xs)|
    requires forall o: Object :: !Holds(data, q, EncObject(o))
    ensures forall ys :: |ys| < TWO32 ==> !Holds(data, p, EncList(EncObject, ys))
  {
    forall ys | |ys| < TWO32 ensures !Holds(data, p, EncList(EncObject, ys)) {
      ObjectsUnique();
      WhatElse(EncObject, data, p, n, xs, ys);
    }
  }

  ghost predicate AllShort(paths: seq<Path>) {
    forall i :: 0 <= i < |paths| ==> |paths[i]| < PATH_ROOM
  }

  lemma InfoHolds(data: seq<byte>, p: nat, index: u32, hash: Hash16, size: u32, mtime: nat, ctime: nat)
    requires mtime < 0x1_0000_0000_0000_0000 && ctime < 0x1_0000_0000_0000_0000
    requires Holds(data, p, Int(4, index)) && Holds(data, p + 4, hash) && Holds(data, p + 20, Int(4, size))
    requires Holds(data, p + 24, Int(8, mtime)) && Holds(data, p + 32, Int(8, ctime))
    ensures Holds(data, p, EncInfo(FileInfo(index, hash, size, Signed(mtime), Signed(ctime))))
  {
    Holds3(data, p, Int(4, index), hash, Int(4, size));
    Holds3(data, p, Int(4, index) + hash + Int(4, size), Int(8, mtime), Int(8, ctime));
  }

  lemma OneMore<T>(enc: T -> seq<byte>, data: seq<byte>, p: nat, xs: seq<T>, x: T)
    requires Holds(data, p, EncAll(enc, xs)) && Holds(data, p + |EncAll(enc, xs)|, enc(x))
    ensures Holds(data, p, EncAll(enc, xs + [x]))
    ensures |EncAll(enc, xs + [x])| == |EncAll(enc, xs)| + |enc(x)|
  {
    assert (xs + [x])[..|xs|] == xs;
    HoldsSplit(data, p, EncAll(enc, xs), enc(x));
  }

  lemma OneMorePath(data: seq<byte>, p: nat, xs: seq<Path>, x: Path)
    requires Holds(data, p, EncAll(EncPath, xs)) && Holds(data, p + |EncAll(EncPath, xs)|, EncPath(x))
    requires AllShort(xs) && |x| < PATH_ROOM
    ensures Holds(data, p, EncAll(EncPath, xs + [x])) && AllShort(xs + [x])
    ensures |EncAll(EncPath, xs + [x])| == |EncAll(EncPath, xs)| + |x| + 1
  {
    OneMore(EncPath, data, p, xs, x);
  }

  /** If a list stood where another has been read in part, its next item would stand at the
      stream's place. */
  lemma WhatElse<T(!new)>(enc: T -> seq<byte>, data: seq<byte>, p: nat, n: nat, xs: seq<T>, ys: seq<T>)
    requires forall x, y, s, t :: Unique(enc, x, y, s, t)
    requires |xs| < n < TWO32 && |ys| < TWO32
    requires Holds(data, p, Int(4, n)) && Holds(data, p + 4, EncAll(enc, xs))
    ensures Holds(data, p, EncList(enc, ys)) ==>
              |ys| == n && ys[..|xs|] == xs && Holds(data, p + 4 + |EncAll(enc, xs)|, enc(ys[|xs|]))
  {
    hide Holds, Int, EncAll, Unique;
    if Holds(data, p, EncList(enc, ys)) {
      HoldsSplit(data, p, Int(4, |ys|), EncAll(enc, ys));
      Bounds();
      IntHere(data, p, 4, n, |ys|);
      NextStands(enc, data, p + 4, xs, ys);
    }
  }

  /** Where there is no NUL in reach, no path that short stands. */
  lemma NoPathHere(data: seq<byte>, p: nat, buf: seq<byte>)
    requires Holds(data, p, buf) && 0 !in buf
    requires |buf| == PATH_ROOM || p + |buf| == |data|
    ensures forall x: Path :: |x| < PATH_ROOM ==> !Holds(data, p, EncPath(x))
  {
    forall x: Path | |x| < PATH_ROOM ensures !Holds(data, p, EncPath(x)) {
      if |x| < |buf| {
        HoldsSlice(data, p, buf);
        assert data[p + |x|] == buf[|x|];
        EndsInNul(data, p, x);
      }
    }
  }

  lemma EndsInNul(data: seq<byte>, p: nat, x: Path)
    ensures Holds(data, p, EncPath(x)) ==> data[p + |x|] == 0
  {
    if Holds(data, p, EncPath(x)) {
      HoldsSlice(data, p, EncPath(x));
      assert data[p + |x|] == data[p..p + |EncPath(x)|][|x|];
    }
  }

  lemma Gather4(x: seq<byte>, a: seq<byte>, b: seq<byte>, c: seq<byte>, d: seq<byte>)
    ensures x + a + b + c + d == x + (a + b + c + d) == x + (a + b + (c + d)) == x + (a + (b + c + d))
  {
  }

  lemma Gather5(x: seq<byte>, a: seq<byte>, b: seq<byte>, c: seq<byte>, d: seq<byte>, e: seq<byte>)
    ensures x + a + b + c + d + e == x + (a + b + c + d + e)
  {
  }
}
