/**
 The manifest file: its bytes, and why they can be read in one way only.
 */
module ManifestFormat {
  import opened Bytes

  // ---- what a manifest holds ----

  type i64 = n: int | -0x8000_0000_0000_0000 <= n < 0x8000_0000_0000_0000

  /** A C string: no byte of it is NUL. */
  type Path = s: seq<byte> | 0 !in s
  type Hash16 = s: seq<byte> | |s| == 16 witness [0, 0, 0, 0, 0, 0, 0, 0, 0, 0, 0, 0, 0, 0, 0, 0]

  datatype FileInfo = FileInfo(index: u32, hash: Hash16, size: u32, mtime: i64, ctime: i64)
  datatype AnyObject = Object(indexes: seq<u32>, hash: Hash16, size: u32)
  /** An object's count of indexes fits the 32 bits it is stored in. */
  type Object = o: AnyObject | |o.indexes| < TWO32
    witness AnyObject.Object([], [0, 0, 0, 0, 0, 0, 0, 0, 0, 0, 0, 0, 0, 0, 0, 0], 0)
  datatype Manifest = Manifest(files: seq<Path>, infos: seq<FileInfo>, objects: seq<Object>)

  const EMPTY: Manifest := Manifest([], [], [])

  const MAGIC: nat := 0x63436d46
  const VERSION: nat := 1
  const HASH_SIZE: nat := 16
  /** The room for a path and its NUL when it is read. */
  const PATH_ROOM: nat := 1024

  /** The counts fit the 32 bits they are stored in. */
  predicate Sized(m: Manifest) {
    |m.files| < TWO32 && |m.infos| < TWO32 && |m.objects| < TWO32
  }

  /** Every path can be read back. */
  predicate ShortPaths(m: Manifest) {
    forall i :: 0 <= i < |m.files| ==> |m.files[i]| < PATH_ROOM
  }

  // ---- its bytes ----

  /** An integer in some bytes, high-order byte first. */
  function Int(size: nat, u: nat): (r: seq<byte>)
    ensures |r| == size
  {
    if size == 0 then [] else Int(size - 1, u / 256) + [u % 256]
  }

  /** A signed 64-bit number as the unsigned one with the same bits. */
  function Unsigned(n: i64): (u: nat)
    ensures u < 0x1_0000_0000_0000_0000
  {
    if n < 0 then n + 0x1_0000_0000_0000_0000 else n
  }

  function Signed(u: nat): (n: i64)
    requires u < 0x1_0000_0000_0000_0000
    ensures Unsigned(n) == u
  {
    if u < 0x8000_0000_0000_0000 then u else u - 0x1_0000_0000_0000_0000
  }

  function EncPath(path: Path): seq<byte> { path + [0] }

  function EncIndex(index: u32): seq<byte> { Int(4, index) }

  function EncInfo(fi: FileInfo): (r: seq<byte>)
    ensures |r| == 40
  {
    Int(4, fi.index) + fi.hash + Int(4, fi.size) + Int(8, Unsigned(fi.mtime)) + Int(8, Unsigned(fi.ctime))
  }

  function EncObject(o: Object): seq<byte> {
    EncList(EncIndex, o.indexes) + (o.hash + Int(4, o.size))
  }

  /** A list, one behind the other. */
  function EncAll<T>(enc: T -> seq<byte>, xs: seq<T>): seq<byte> {
    if xs == [] then [] else EncAll(enc, xs[..|xs| - 1]) + enc(xs[|xs| - 1])
  }

  /** A count and a list. */
  function EncList<T>(enc: T -> seq<byte>, xs: seq<T>): seq<byte> {
    Int(4, |xs|) + EncAll(enc, xs)
  }

  lemma AllNext<T>(enc: T -> seq<byte>, xs: seq<T>, i: nat)
    requires i < |xs|
    ensures EncAll(enc, xs[..i + 1]) == EncAll(enc, xs[..i]) + enc(xs[i])
  {
    assert xs[..i + 1][..i] == xs[..i];
  }

  function EncHead(reserved: nat): seq<byte> {
    Int(4, MAGIC) + Int(1, VERSION) + Int(1, HASH_SIZE) + Int(2, reserved)
  }

  function EncBody(m: Manifest): seq<byte> {
    EncList(EncPath, m.files) + EncList(EncInfo, m.infos) + EncList(EncObject, m.objects)
  }

  /** The whole file. */
  function Encode(m: Manifest): seq<byte> { EncHead(0) + EncBody(m) }

  /** Numbers known by heart: the high-order byte comes first, and -1 is all ones. */
  lemma KnownInts()
    ensures Int(4, 0x0102_0304) == [1, 2, 3, 4] && Int(4, 0) == [0, 0, 0, 0] && Int(2, 0) == [0, 0]
    ensures Int(1, 1) == [1] && Int(1, 16) == [16]
    ensures Int(8, Unsigned(-1)) == [255, 255, 255, 255, 255, 255, 255, 255]
  {
    KnownInt4(1, 2, 3, 4);
    KnownInt4(0, 0, 0, 0);
    KnownInt4(255, 255, 255, 255);
    assert Int(5, 0xFF_FFFF_FFFF) == Int(4, 0xFFFF_FFFF) + [255];
    assert Int(6, 0xFFFF_FFFF_FFFF) == Int(5, 0xFF_FFFF_FFFF) + [255];
    assert Int(7, 0xFF_FFFF_FFFF_FFFF) == Int(6, 0xFFFF_FFFF_FFFF) + [255];
    assert Int(8, 0xFFFF_FFFF_FFFF_FFFF) == Int(7, 0xFF_FFFF_FFFF_FFFF) + [255];
    assert Int(0, 0) == [] && Int(1, 0) == [0] && Int(1, 16) == Int(0, 0) + [16] && Int(1, 1) == Int(0, 0) + [1];
  }

  lemma KnownInt4(a: byte, b: byte, c: byte, d: byte)
    ensures Int(4, a as nat * 0x100_0000 + b as nat * 0x1_0000 + c as nat * 0x100 + d as nat) == [a, b, c, d]
  {
    var n1 := a as nat;
    var n2 := n1 * 0x100 + b as nat;
    var n3 := n2 * 0x100 + c as nat;
    assert Int(0, 0) == [] && Int(1, n1) == Int(0, n1 / 256) + [a];
    assert Int(2, n2) == Int(1, n1) + [b];
    assert Int(3, n3) == Int(2, n2) + [c];
    assert Int(4, n3 * 0x100 + d as nat) == Int(3, n3) + [d];
  }

  /** The file with nothing in it: the letters "cCmF", version 1, hashes of 16 bytes, two reserved
      bytes, and three counts of 0. */
  lemma KnownEmpty()
    ensures Encode(EMPTY) == [0x63, 0x43, 0x6d, 0x46, 1, 16, 0, 0] + ([0, 0, 0, 0] + [0, 0, 0, 0] + [0, 0, 0, 0])
  {
    hide Int;
    KnownInts();
    KnownHead();
    assert EncAll(EncPath, []) == [] && EncAll(EncInfo, []) == [] && EncAll(EncObject, []) == [];
  }

  lemma KnownHead()
    ensures EncHead(0) == [0x63, 0x43, 0x6d, 0x46, 1, 16, 0, 0]
  {
    hide Int;
    KnownInts();
    KnownInt4(0x63, 0x43, 0x6d, 0x46);
  }

  /** The forty bytes of an entry. */
  lemma EntryBytes(fi: FileInfo)
    ensures var e := EncInfo(fi);
      && e[..4] == Int(4, fi.index) && e[4..20] == fi.hash && e[20..24] == Int(4, fi.size)
      && e[24..32] == Int(8, Unsigned(fi.mtime)) && e[32..] == Int(8, Unsigned(fi.ctime))
  {
    hide Int;
  }

  /** An object with one index. */
  lemma ObjectBytes(index: u32, h: Hash16, size: u32)
    ensures EncObject(AnyObject.Object([index], h, size)) == Int(4, 1) + Int(4, index) + h + Int(4, size)
  {
    hide Int;
    assert [index][..0] == [];
    assert EncAll(EncIndex, [index]) == [] + Int(4, index);
  }

  // ---- there is one way to read it ----

  lemma {:induction false} IntUnique(size: nat, u: nat, v: nat)
    requires u < Power(size) && v < Power(size) && Int(size, u) == Int(size, v)
    ensures u == v
    decreases size
  {
    if size > 0 {
      var x, y := Int(size, u), Int(size, v);
      assert x[size - 1] == u % 256 && y[size - 1] == v % 256;
      assert x[..size - 1] == Int(size - 1, u / 256) && y[..size - 1] == Int(size - 1, v / 256);
      IntUnique(size - 1, u / 256, v / 256);
    }
  }

  lemma Bounds()
    ensures Power(1) == 256 && Power(2) == 65536 && Power(4) == TWO32 && Power(8) == 0x1_0000_0000_0000_0000
  {
    assert Power(2) == 256 * Power(1) && Power(3) == 256 * Power(2) && Power(4) == 256 * Power(3);
    assert Power(5) == 256 * Power(4) && Power(6) == 256 * Power(5) && Power(7) == 256 * Power(6);
  }

  /** What two encodings with something behind them being equal comes to. */
  ghost predicate Unique<T>(enc: T -> seq<byte>, x: T, y: T, s: seq<byte>, t: seq<byte>) {
    enc(x) + s == enc(y) + t ==> x == y && s == t
  }

  lemma IntCut(size: nat, u: nat, v: nat, s: seq<byte>, t: seq<byte>)
    requires u < Power(size) && v < Power(size) && Int(size, u) + s == Int(size, v) + t
    ensures u == v && s == t
  {
    SplitSame(Int(size, u), s, Int(size, v), t);
    IntUnique(size, u, v);
  }

  lemma {:induction false} PathUnique(x: Path, y: Path, s: seq<byte>, t: seq<byte>)
    ensures Unique(EncPath, x, y, s, t)
    decreases |x|
  {
    if EncPath(x) + s == EncPath(y) + t {
      var a, b := EncPath(x) + s, EncPath(y) + t;
      assert a[0] == (if x == [] then 0 else x[0]) && b[0] == (if y == [] then 0 else y[0]);
      if x == [] || y == [] {
        assert s == a[1..] && t == b[1..];
      } else {
        PathUnique(x[1..], y[1..], s, t);
        assert a[1..] == EncPath(x[1..]) + s && b[1..] == EncPath(y[1..]) + t;
        assert x == [x[0]] + x[1..] && y == [y[0]] + y[1..];
      }
    }
  }

  lemma IndexUnique(x: u32, y: u32, s: seq<byte>, t: seq<byte>)
    ensures Unique(EncIndex, x, y, s, t)
  {
    Bounds();
    if EncIndex(x) + s == EncIndex(y) + t {
      IntCut(4, x, y, s, t);
    }
  }

  lemma InfoUnique(x: FileInfo, y: FileInfo, s: seq<byte>, t: seq<byte>)
    ensures Unique(EncInfo, x, y, s, t)
  {
    if EncInfo(x) + s == EncInfo(y) + t {
      SplitSame(EncInfo(x), s, EncInfo(y), t);
      InfoFields(x, y);
    }
  }

  lemma InfoFields(x: FileInfo, y: FileInfo)
    requires EncInfo(x) == EncInfo(y)
    ensures x == y
  {
    Bounds();
    var a, b := Int(4, x.index) + x.hash + Int(4, x.size), Int(4, y.index) + y.hash + Int(4, y.size);
    var c, d := Int(8, Unsigned(x.mtime)), Int(8, Unsigned(y.mtime));
    SplitSame(a + c, Int(8, Unsigned(x.ctime)), b + d, Int(8, Unsigned(y.ctime)));
    IntUnique(8, Unsigned(x.ctime), Unsigned(y.ctime));
    SplitSame(a, c, b, d);
    IntUnique(8, Unsigned(x.mtime), Unsigned(y.mtime));
    SplitSame(Int(4, x.index) + x.hash, Int(4, x.size), Int(4, y.index) + y.hash, Int(4, y.size));
    IntUnique(4, x.size, y.size);
    SplitSame(Int(4, x.index), x.hash, Int(4, y.index), y.hash);
    IntUnique(4, x.index, y.index);
  }

  lemma {:induction false} AllUnique<T(!new)>(enc: T -> seq<byte>, xs: seq<T>, ys: seq<T>, s: seq<byte>, t: seq<byte>)
    requires forall x, y, s, t :: Unique(enc, x, y, s, t)
    requires |xs| == |ys| && EncAll(enc, xs) + s == EncAll(enc, ys) + t
    ensures xs == ys && s == t
    decreases |xs|
  {
    if xs != [] {
      var n := |xs| - 1;
      var x, y := xs[n], ys[n];
      assert EncAll(enc, xs[..n]) + (enc(x) + s) == EncAll(enc, xs) + s;
      assert EncAll(enc, ys[..n]) + (enc(y) + t) == EncAll(enc, ys) + t;
      AllUnique(enc, xs[..n], ys[..n], enc(x) + s, enc(y) + t);
      assert Unique(enc, x, y, s, t);
      assert xs == xs[..n] + [x] && ys == ys[..n] + [y];
    } else {
      assert [] + s == s && [] + t == t;
    }
  }

  lemma ListUnique<T(!new)>(enc: T -> seq<byte>, xs: seq<T>, ys: seq<T>, s: seq<byte>, t: seq<byte>)
    requires forall x, y, s, t :: Unique(enc, x, y, s, t)
    requires |xs| < TWO32 && |ys| < TWO32 && EncList(enc, xs) + s == EncList(enc, ys) + t
    ensures xs == ys && s == t
  {
    Bounds();
    Assoc(Int(4, |xs|), EncAll(enc, xs), s);
    Assoc(Int(4, |ys|), EncAll(enc, ys), t);
    IntCut(4, |xs|, |ys|, EncAll(enc, xs) + s, EncAll(enc, ys) + t);
    AllUnique(enc, xs, ys, s, t);
  }

  lemma IndexesUnique()
    ensures forall x, y, s, t :: Unique(EncIndex, x, y, s, t)
  {
    forall x, y, s, t ensures Unique(EncIndex, x, y, s, t) {
      IndexUnique(x, y, s, t);
    }
  }

  lemma PathsUnique()
    ensures forall x, y, s, t :: Unique(EncPath, x, y, s, t)
  {
    forall x, y, s, t ensures Unique(EncPath, x, y, s, t) {
      PathUnique(x, y, s, t);
    }
  }

  lemma InfosUnique()
    ensures forall x, y, s, t :: Unique(EncInfo, x, y, s, t)
  {
    forall x, y, s, t ensures Unique(EncInfo, x, y, s, t) {
      InfoUnique(x, y, s, t);
    }
  }

  lemma ObjectUnique(x: Object, y: Object, s: seq<byte>, t: seq<byte>)
    ensures Unique(EncObject, x, y, s, t)
  {
    if EncObject(x) + s == EncObject(y) + t {
      Bounds();
      var c, d := x.hash + Int(4, x.size), y.hash + Int(4, y.size);
      Assoc(EncList(EncIndex, x.indexes), c, s);
      Assoc(EncList(EncIndex, y.indexes), d, t);
      IndexesUnique();
      ListUnique(EncIndex, x.indexes, y.indexes, c + s, d + t);
      SplitSame(c, s, d, t);
      SplitSame(x.hash, Int(4, x.size), y.hash, Int(4, y.size));
      IntUnique(4, x.size, y.size);
    }
  }

  lemma ObjectsUnique()
    ensures forall x, y, s, t :: Unique(EncObject, x, y, s, t)
  {
    forall x, y, s, t ensures Unique(EncObject, x, y, s, t) {
      ObjectUnique(x, y, s, t);
    }
  }

  lemma BodyParts(m: Manifest, s: seq<byte>)
    ensures EncBody(m) + s
            == EncList(EncPath, m.files) + (EncList(EncInfo, m.infos) + (EncList(EncObject, m.objects) + s))
  {
  }

  /** No manifest's bytes are the beginning of another's. */
  lemma BodyUnique(m: Manifest, n: Manifest, s: seq<byte>, t: seq<byte>)
    requires Sized(m) && Sized(n) && EncBody(m) + s == EncBody(n) + t
    ensures m == n && s == t
  {
    BodyParts(m, s);
    BodyParts(n, t);
    var c, d := EncList(EncObject, m.objects) + s, EncList(EncObject, n.objects) + t;
    PathsUnique();
    ListUnique(EncPath, m.files, n.files, EncList(EncInfo, m.infos) + c, EncList(EncInfo, n.infos) + d);
    InfosUnique();
    ListUnique(EncInfo, m.infos, n.infos, c, d);
    ObjectsUnique();
    ListUnique(EncObject, m.objects, n.objects, s, t);
  }

  // ---- in a longer string ----

  lemma SliceSnoc(data: seq<byte>, a: nat, b: nat)
    requires a <= b < |data|
    ensures data[a..b + 1] == data[a..b] + [data[b]]
  {
  }

  lemma HoldsRest(data: seq<byte>, p: nat, a: seq<byte>)
    requires Holds(data, p, a)
    ensures data[p..] == a + data[p + |a|..]
  {
    HoldsSlice(data, p, a);
  }

  lemma IntHere(data: seq<byte>, p: nat, size: nat, u: nat, v: nat)
    requires u < Power(size) && v < Power(size) && Holds(data, p, Int(size, u)) && Holds(data, p, Int(size, v))
    ensures u == v
  {
    HoldsSlice(data, p, Int(size, u));
    HoldsSlice(data, p, Int(size, v));
    IntUnique(size, u, v);
  }

  /** Two lists at the same place, one read so far and one to be found: the next item of the
      second stands where the first ends. */
  lemma NextStands<T(!new)>(enc: T -> seq<byte>, data: seq<byte>, p: nat, xs: seq<T>, ys: seq<T>)
    requires forall x, y, s, t :: Unique(enc, x, y, s, t)
    requires |xs| < |ys| && Holds(data, p, EncAll(enc, xs)) && Holds(data, p, EncAll(enc, ys))
    ensures ys[..|xs|] == xs && Holds(data, p + |EncAll(enc, xs)|, enc(ys[|xs|]))
  {
    var n := |xs|;
    AllPrefix(enc, data, p, ys, n + 1);
    assert ys[..n + 1][..n] == ys[..n];
    HoldsSplit(data, p, EncAll(enc, ys[..n]), enc(ys[n]));
    HoldsRest(data, p, EncAll(enc, xs));
    HoldsRest(data, p, EncAll(enc, ys[..n]));
    AllUnique(enc, xs, ys[..n], data[p + |EncAll(enc, xs)|..], data[p + |EncAll(enc, ys[..n])|..]);
  }

  lemma {:induction false} AllPrefix<T>(enc: T -> seq<byte>, data: seq<byte>, p: nat, ys: seq<T>, n: nat)
    requires n <= |ys| && Holds(data, p, EncAll(enc, ys))
    ensures Holds(data, p, EncAll(enc, ys[..n]))
    decreases |ys|
  {
    if n < |ys| {
      var init := ys[..|ys| - 1];
      HoldsSplit(data, p, EncAll(enc, init), enc(ys[|ys| - 1]));
      AllPrefix(enc, data, p, init, n);
      assert init[..n] == ys[..n];
    } else {
      assert ys[..n] == ys;
    }
  }
}
