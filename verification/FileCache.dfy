/** Cached items, the snapshot of a version directory, and the published map of snapshots. */
module Caching {
  import opened Prelude
  import opened Paths
  import opened Keys
  import opened Disk

  datatype CacheConfig = CacheConfig(maxSize: nat, compression: bool, expire: map<string, nat>)

  datatype FileRef = FileRef(slot: Slot, path: Path)

  datatype DataBlock =
    | CacheBlock(bytes: Bytes, compressed: bool, path: FileRef)
    | FileBlock(path: FileRef)

  datatype CacheItem = CacheItem(len: nat, data: DataBlock, mime: string, expire: Option<nat>)

  type Snapshot = map<string, CacheItem>

  /** What the cache is configured with; compression and mime guessing are given functions. */
  datatype Env = Env(prefix: string, conf: string -> CacheConfig, gzip: Bytes -> Bytes, mime: Path -> string)

  const COMPRESSED_TYPES: set<string> := {"html", "js", "icon", "json", "css"}

  /** What follows the last dot, or the whole key when it has none. */
  function Extension(key: string): string {
    if '.' !in key then key else Extension(key[1..])
  }

  /** The extension is what follows the last dot; a name without one counts as a whole. */
  lemma {:induction false} ExtensionAfterLastDot(stem: string, ext: string)
    requires '.' !in ext
    ensures Extension(stem + "." + ext) == ext && Extension(ext) == ext
  {
    var key := stem + "." + ext;
    assert key[|stem|] == '.';
    if stem == "" {
      assert key[1..] == ext;
    } else {
      assert key[1..] == stem[1..] + "." + ext;
      ExtensionAfterLastDot(stem[1..], ext);
    }
  }

  function KeyOf(env: Env, slot: Slot, p: Path): string {
    ServerKey(VersionPath(env.prefix, slot), p)
  }

  function MakeItem(env: Env, slot: Slot, p: Path, bytes: Bytes): CacheItem {
    var conf := env.conf(slot.domain);
    var ext := Extension(KeyOf(env, slot, p));
    var ref := FileRef(slot, p);
    var data :=
      if conf.maxSize < |bytes| then FileBlock(ref)
      else if conf.compression && ext in COMPRESSED_TYPES then CacheBlock(env.gzip(bytes), true, ref)
      else CacheBlock(bytes, false, ref);
    CacheItem(|bytes|, data, env.mime(p), if ext in conf.expire then Some(conf.expire[ext]) else None)
  }

  ghost predicate Owned(env: Env, m: Snapshot, slot: Slot, files: map<Path, Bytes>, seen: set<Path>, k: string)
    requires k in m && seen <= files.Keys
  {
    exists p :: p in seen && KeyOf(env, slot, p) == k && m[k] == MakeItem(env, slot, p, files[p])
  }

  /**
   What an item says of its file: large files stay on disk, files of the five compressible types are held compressed
   if the domain is configured so, all others as they are; the extension decides about the expiry.
   */
  lemma ItemOfFile(env: Env, slot: Slot, p: Path, bytes: Bytes, stem: string, ext: string)
    requires '.' !in ext && (KeyOf(env, slot, p) == ext || KeyOf(env, slot, p) == stem + "." + ext)
    ensures var item, conf := MakeItem(env, slot, p, bytes), env.conf(slot.domain);
            && item.len == |bytes| && item.mime == env.mime(p) && item.data.path == FileRef(slot, p)
            && (item.data.FileBlock? <==> |bytes| > conf.maxSize)
            && (item.data.CacheBlock? ==>
                  && (item.data.compressed <==>
                        conf.compression && ext in ["html", "js", "icon", "json", "css"])
                  && item.data.bytes == if item.data.compressed then env.gzip(bytes) else bytes)
            && (item.expire.Some? <==> ext in conf.expire)
            && (item.expire.Some? ==> item.expire.value == conf.expire[ext])
  {
    hide KeyOf;
    ExtensionAfterLastDot(stem, ext);
    hide Extension;
  }

  /**
   `m` holds exactly the files `seen`: each has an entry under its key, and each entry is made
   from a file with that key. (Files whose keys collide share an entry; any of them may own it.)
   */
  ghost predicate IsSnapshot(env: Env, m: Snapshot, slot: Slot, files: map<Path, Bytes>, seen: set<Path>) {
    && seen <= files.Keys
    && (forall p :: p in seen ==> KeyOf(env, slot, p) in m)
    && (forall k :: k in m ==> Owned(env, m, slot, files, seen, k))
  }

  /** The snapshot of a whole directory. */
  ghost predicate IsFullSnapshot(env: Env, m: Snapshot, slot: Slot, dir: Dir) {
    IsSnapshot(env, m, slot, dir.files, dir.files.Keys)
  }

  /** One file visited: its entry is put under its key, over whatever was there. */
  function Visit(env: Env, m: Snapshot, slot: Slot, p: Path, bytes: Bytes): Snapshot {
    m[KeyOf(env, slot, p) := MakeItem(env, slot, p, bytes)]
  }

  function Collect(env: Env, slot: Slot, files: map<Path, Bytes>, walk: seq<Path>): Snapshot
    requires forall p :: p in walk ==> p in files
  {
    if walk == [] then map[]
    else
      var n := |walk| - 1;
      Visit(env, Collect(env, slot, files, walk[..n]), slot, walk[n], files[walk[n]])
  }

  /** Where keys collide, the file walked last has the entry. */
  lemma LastWalkedWins(env: Env, slot: Slot, files: map<Path, Bytes>, walk: seq<Path>, p: Path, key: string)
    requires p in files && forall q :: q in walk ==> q in files
    ensures var before, after := Collect(env, slot, files, walk), Collect(env, slot, files, walk + [p]);
            && (key in after <==> key in before || key == KeyOf(env, slot, p))
            && after[KeyOf(env, slot, p)] == MakeItem(env, slot, p, files[p])
            && (key in before && key != KeyOf(env, slot, p) ==> after[key] == before[key])
  {
    hide KeyOf, MakeItem;
    assert (walk + [p])[..|walk|] == walk;
  }

  lemma VisitExtends(env: Env, m: Snapshot, slot: Slot, files: map<Path, Bytes>, seen: set<Path>, p: Path)
    requires IsSnapshot(env, m, slot, files, seen) && p in files
    ensures IsSnapshot(env, Visit(env, m, slot, p, files[p]), slot, files, seen + {p})
  {
  }

  function Elements(walk: seq<Path>): set<Path> {
    set p | p in walk
  }

  lemma {:induction false} CollectIsSnapshot(env: Env, slot: Slot, files: map<Path, Bytes>, walk: seq<Path>)
    requires forall p :: p in walk ==> p in files
    ensures IsSnapshot(env, Collect(env, slot, files, walk), slot, files, Elements(walk))
  {
    hide KeyOf, MakeItem;
    if walk == [] {
      assert Elements(walk) == {};
    } else {
      hide IsSnapshot, Owned;
      var n := |walk| - 1;
      assert walk == walk[..n] + [walk[n]];
      assert Elements(walk) == Elements(walk[..n]) + {walk[n]};
      CollectIsSnapshot(env, slot, files, walk[..n]);
      VisitExtends(env, Collect(env, slot, files, walk[..n]), slot, files, Elements(walk[..n]), walk[n]);
    }
  }

  lemma CollectIsFull(env: Env, slot: Slot, dir: Dir, walk: seq<Path>)
    requires IsListing(walk, dir.files.Keys)
    ensures IsFullSnapshot(env, Collect(env, slot, dir.files, walk), slot, dir)
  {
    CollectIsSnapshot(env, slot, dir.files, walk);
    assert Elements(walk) == dir.files.Keys;
  }

  /** Where no relative path contains the version path, a snapshot is determined by the directory. */
  ghost predicate CleanNames(env: Env, slot: Slot, files: map<Path, Bytes>) {
    forall p :: p in files ==> !Contains(Join(p), VersionPath(env.prefix, slot) + "/")
  }

  /** Then each file's entry is its own, under its relative path. */
  lemma SnapshotIsExact(env: Env, m: Snapshot, slot: Slot, dir: Dir, p: Path)
    requires IsFullSnapshot(env, m, slot, dir) && CleanNames(env, slot, dir.files) && p in dir.files
    ensures Join(p) in m && m[Join(p)] == MakeItem(env, slot, p, dir.files[p])
  {
    var base := VersionPath(env.prefix, slot);
    ServerKeyIsRelativePath(base, p);
    var k := KeyOf(env, slot, p);
    assert Owned(env, m, slot, dir.files, dir.files.Keys, k);
    var q :| q in dir.files.Keys && KeyOf(env, slot, q) == k && m[k] == MakeItem(env, slot, q, dir.files[q]);
    ServerKeysInjective(base, p, q);
  }

  /** In particular in what a walk collects, in whatever order it goes. */
  lemma CollectIsExact(env: Env, slot: Slot, dir: Dir, walk: seq<Path>, p: Path)
    requires IsListing(walk, dir.files.Keys) && CleanNames(env, slot, dir.files) && p in dir.files
    ensures var m := Collect(env, slot, dir.files, walk);
            Join(p) in m && m[Join(p)] == MakeItem(env, slot, p, dir.files[p])
  {
    hide KeyOf, MakeItem, CleanNames, Collect;
    CollectIsFull(env, slot, dir, walk);
    SnapshotIsExact(env, Collect(env, slot, dir.files, walk), slot, dir, p);
  }

  lemma SnapshotCovered(env: Env, m: Snapshot, m': Snapshot, slot: Slot, dir: Dir)
    requires IsFullSnapshot(env, m, slot, dir) && IsFullSnapshot(env, m', slot, dir)
    requires CleanNames(env, slot, dir.files)
    ensures forall k :: k in m ==> k in m' && m'[k] == m[k]
  {
    forall k | k in m ensures k in m' && m'[k] == m[k] {
      assert Owned(env, m, slot, dir.files, dir.files.Keys, k);
      var p :| p in dir.files.Keys && KeyOf(env, slot, p) == k;
      ServerKeyIsRelativePath(VersionPath(env.prefix, slot), p);
      SnapshotIsExact(env, m, slot, dir, p);
      SnapshotIsExact(env, m', slot, dir, p);
    }
  }

  /** Two snapshots of one directory with clean names are equal, whatever order they were walked in. */
  lemma SnapshotsAgree(env: Env, m: Snapshot, m': Snapshot, slot: Slot, dir: Dir)
    requires IsFullSnapshot(env, m, slot, dir) && IsFullSnapshot(env, m', slot, dir)
    requires CleanNames(env, slot, dir.files)
    ensures m == m'
  {
    SnapshotCovered(env, m, m', slot, dir);
    SnapshotCovered(env, m', m, slot, dir);
  }

  class FileCache {
    const env: Env
    var data: map<string, Snapshot>

    constructor (env: Env)
      ensures this.env == env && data == map[]
    {
      this.env := env;
      data := map[];
    }

    method Update(domain: string, snapshot: Snapshot)
      modifies this
      ensures data == old(data)[domain := snapshot]
    {
      data := data[domain := snapshot];
    }

    /** Walks a version directory; `walk` is the order the operating system happened to list it in. */
    method CacheDir(slot: Slot, dir: Dir) returns (snapshot: Snapshot, ghost walk: seq<Path>)
      ensures IsListing(walk, dir.files.Keys)
      ensures snapshot == Collect(env, slot, dir.files, walk)
      ensures IsFullSnapshot(env, snapshot, slot, dir)
    {
      hide KeyOf, MakeItem;
      var order := Listing(dir.files.Keys);
      snapshot := map[];
      var i := 0;
      while i < |order|
        invariant 0 <= i <= |order|
        invariant snapshot == Collect(env, slot, dir.files, order[..i])
      {
        assert order[..i + 1][..i] == order[..i];
        snapshot := Visit(env, snapshot, slot, order[i], dir.files[order[i]]);
        i := i + 1;
      }
      assert order[..i] == order;
      walk := order;
      CollectIsFull(env, slot, dir, walk);
    }

    function GetItem(domain: string, key: string): Option<CacheItem>
      reads this
    {
      if domain in data && key in data[domain] then Some(data[domain][key]) else None
    }
  }
}
