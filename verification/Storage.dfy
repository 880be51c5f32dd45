/** The versioned site store: what each operation does to the disk and to the three maps in memory. */
module Storage {
  import opened Prelude
  import opened Paths
  import opened Disk
  import opened Caching

  datatype UploadingStatus = Uploading | Finish

  datatype Fault =
    | OtherVersionUploading(version: U32)
    | InServing
    | NotUploading
    | IsUploading
    | BadPath
    | NoVersion
    | Missing
    | Io

  /** `meta` names the version each domain serves, `uploading` its open upload session. */
  datatype State = State(
    disk: Disk,
    meta: map<string, U32>,
    uploading: map<string, U32>,
    cache: map<string, Snapshot>)

  datatype DomainInfo = DomainInfo(domain: string, current: Option<U32>, versions: set<U32>)

  datatype PositionStatus = NewDomain | NewVersion | InUploading

  datatype UploadPosition = UploadPosition(version: U32, status: PositionStatus)

  datatype ShortMetaData = ShortMetaData(path: string, md5: string, length: nat)

  function VersionsOf(disk: Disk, domain: string): (versions: set<U32>)
    ensures forall v :: v in versions <==> Slot(domain, v) in disk
  {
    var versions := set slot | slot in disk && slot.domain == domain :: slot.version;
    assert forall v: U32 :: Slot(domain, v) in disk ==> Slot(domain, v).version in versions;
    versions
  }

  predicate InSession(s: State, slot: Slot) {
    slot.domain in s.uploading && s.uploading[slot.domain] == slot.version
  }

  predicate Serves(s: State, slot: Slot) {
    slot.domain in s.meta && s.meta[slot.domain] == slot.version
  }

  // What the operations do

  function CloseSession(s: State, slot: Slot): (State, Result<(), Fault>) {
    if slot in s.disk && MARKER in s.disk[slot].files then
      var closed := if InSession(s, slot) then s.uploading - {slot.domain} else s.uploading;
      (s.(disk := s.disk[slot := WithoutFile(s.disk[slot], MARKER)], uploading := closed), Ok(()))
    else
      (s, Err(Io))
  }

  function OpenSession(s: State, slot: Slot): (State, Result<(), Fault>) {
    if Serves(s, slot) then (s, Err(InServing))
    else
      var dir := At(s.disk, slot);
      if MARKER in dir.dirs then (s, Err(Io))
      else
        MarkerNotBlocked(dir);
        (s.(disk := s.disk[slot := WithFile(dir, MARKER, [])],
            uploading := s.uploading[slot.domain := slot.version]), Ok(()))
  }

  /** `update_uploading_status`. */
  function StatusStep(s: State, slot: Slot, status: UploadingStatus): (State, Result<(), Fault>) {
    if slot.domain in s.uploading then
      if s.uploading[slot.domain] != slot.version then (s, Err(OtherVersionUploading(s.uploading[slot.domain])))
      else if status == Finish then CloseSession(s, slot)
      else (s, Ok(()))
    else if status == Uploading then OpenSession(s, slot)
    else CloseSession(s, slot)
  }

  function TreeAt(disk: Disk, slot: Slot): Option<Dir> {
    if slot in disk then Some(disk[slot]) else None
  }

  function PutTree(disk: Disk, slot: Slot, tree: Option<Dir>): Disk {
    if tree.Some? then disk[slot := tree.value] else disk
  }

  /** `save_file`, aimed at an already decoded target. */
  function SaveStep(s: State, slot: Slot, target: Option<Target>, data: Bytes): (State, Result<(), Fault>) {
    if !InSession(s, slot) then (s, Err(NotUploading))
    else if target.None? then (s, Err(BadPath))
    else
      var (tree, ok) := WriteFile(TreeAt(s.disk, slot), target.value, data);
      (s.(disk := PutTree(s.disk, slot, tree)), if ok then Ok(()) else Err(Io))
  }

  /** The version a release request resolves to. */
  ghost function ReleaseTarget(s: State, domain: string, version: Option<U32>): Result<U32, Fault> {
    if version.None? && VersionsOf(s.disk, domain) == {} then Err(NoVersion)
    else
      var v := if version.Some? then version.value else Max(VersionsOf(s.disk, domain));
      if InSession(s, Slot(domain, v)) then Err(IsUploading)
      else if Slot(domain, v) in s.disk then Ok(v)
      else Err(Missing)
  }

  /** A release that walked the directory in the given order. */
  function Released(env: Env, s: State, slot: Slot, walk: seq<Path>): State
    requires slot in s.disk && forall p :: p in walk ==> p in s.disk[slot].files
  {
    s.(meta := s.meta[slot.domain := slot.version],
       cache := s.cache[slot.domain := Collect(env, slot, s.disk[slot].files, walk)])
  }

  /** `get_upload_position`: `max_version + 1u32` wraps when overflow checks are off. */
  ghost function PositionOf(s: State, domain: string): UploadPosition {
    if domain in s.uploading then UploadPosition(s.uploading[domain], InUploading)
    else if VersionsOf(s.disk, domain) == {} then UploadPosition(1, NewDomain)
    else UploadPosition(WrappingAdd32(Max(VersionsOf(s.disk, domain)), 1), NewVersion)
  }

  // What the operations answer

  /** A given version can be released if and only if it exists and is not itself being uploaded. */
  lemma ReleaseSucceedsExactlyWhen(s: State, d: string, v: U32)
    ensures ReleaseTarget(s, d, Some(v)) == Ok(v) <==>
              Slot(d, v) in s.disk && (d in s.uploading ==> s.uploading[d] != v)
    ensures ReleaseTarget(s, d, Some(v)) == Err(IsUploading) <==> d in s.uploading && s.uploading[d] == v
    ensures ReleaseTarget(s, d, Some(v)).Ok? ==> ReleaseTarget(s, d, Some(v)) == Ok(v)
  {
  }

  /** Without a version the greatest is meant, and it can be released if and only if it is not being uploaded. */
  lemma ReleaseOfLatestExactlyWhen(s: State, d: string, w: U32)
    ensures ReleaseTarget(s, d, None) == Ok(w) <==>
              && Slot(d, w) in s.disk && (forall x: U32 :: Slot(d, x) in s.disk ==> x <= w)
              && (d in s.uploading ==> s.uploading[d] != w)
    ensures ReleaseTarget(s, d, None) == Err(NoVersion) <==> forall x: U32 :: Slot(d, x) !in s.disk
    ensures Slot(d, w) in s.disk && (forall x: U32 :: Slot(d, x) in s.disk ==> x <= w) ==>
              (ReleaseTarget(s, d, None) == Err(IsUploading) <==> d in s.uploading && s.uploading[d] == w)
  {
    var vs := VersionsOf(s.disk, d);
    if vs != {} {
      assert Slot(d, Max(vs)) in s.disk;
      assert forall x: U32 :: Slot(d, x) in s.disk ==> x in vs;
    } else {
      assert forall x: U32 :: Slot(d, x) in s.disk ==> x in vs;
    }
  }

  /** What a change of status refuses and why; a refusal changes nothing. */
  lemma StatusRefusals(s: State, slot: Slot, status: UploadingStatus)
    ensures var (s', r) := StatusStep(s, slot, status);
            var d, v, files := slot.domain, slot.version, At(s.disk, slot).files;
            && (r.Err? ==> s' == s)
            && (forall w :: r == Err(OtherVersionUploading(w)) <==>
                  d in s.uploading && s.uploading[d] == w && w != v)
            && (r == Err(InServing) <==> status == Uploading && d !in s.uploading && d in s.meta && s.meta[d] == v)
            && (r == Err(Io) <==>
                  && (d in s.uploading ==> s.uploading[d] == v)
                  && if status == Finish then MARKER !in files
                     else d !in s.uploading && !(d in s.meta && s.meta[d] == v) && MARKER in At(s.disk, slot).dirs)
            && (r.Err? ==> r.error.Io? || r.error.InServing? || r.error.OtherVersionUploading?)
  {
  }

  /** What an accepted change does; a marked version can be finished without being in session. */
  lemma StatusEffects(s: State, slot: Slot, status: UploadingStatus)
    requires StatusStep(s, slot, status).1.Ok?
    ensures var s', d, v := StatusStep(s, slot, status).0, slot.domain, slot.version;
            && s'.meta == s.meta && s'.cache == s.cache
            && (status == Uploading ==> s'.uploading == s.uploading[d := v])
            && (status == Finish ==> s'.uploading == s.uploading - {d})
            && (status == Finish ==> slot in s'.disk && s'.disk[slot].files == At(s.disk, slot).files - {MARKER})
            && (status == Uploading && d !in s.uploading ==>
                  slot in s'.disk && s'.disk[slot].files == At(s.disk, slot).files[MARKER := []])
            && (status == Uploading && d in s.uploading ==> s' == s)
  {
    MarkerNotBlocked(At(s.disk, slot));
  }

  /** Why a save is refused. */
  lemma SaveRefusals(s: State, slot: Slot, target: Option<Target>, data: Bytes)
    ensures var r := SaveStep(s, slot, target, data).1;
            && (r == Err(NotUploading) <==> !(slot.domain in s.uploading && s.uploading[slot.domain] == slot.version))
            && (r == Err(BadPath) <==>
                  slot.domain in s.uploading && s.uploading[slot.domain] == slot.version && target.None?)
            && (r.Err? ==> r.error.NotUploading? || r.error.BadPath? || r.error.Io?)
  {
  }

  // What a start finds

  /**
   What `init` leaves for one domain: a session on a marked version if there is one, and the
   greatest unmarked version served from a fresh snapshot if it is not version 0.
   */
  ghost predicate BootDomain(env: Env, s: State, d: string) {
    && (d in s.uploading ==>
          && IsHost(d) && Slot(d, s.uploading[d]) in s.disk
          && Marked(s.disk[Slot(d, s.uploading[d])]))
    && (d in s.meta ==>
          && IsHost(d) && Slot(d, s.meta[d]) in s.disk && 0 < s.meta[d]
          && !Marked(s.disk[Slot(d, s.meta[d])])
          && d in s.cache
          && IsFullSnapshot(env, s.cache[d], Slot(d, s.meta[d]), s.disk[Slot(d, s.meta[d])]))
    && (d in s.cache ==> d in s.meta)
    && (forall v: U32 :: IsHost(d) && Slot(d, v) in s.disk ==>
          if Marked(s.disk[Slot(d, v)]) then d in s.uploading
          else 0 < v ==> d in s.meta && v <= s.meta[d])
  }

  ghost predicate IsBoot(env: Env, disk: Disk, s: State) {
    s.disk == disk && forall d :: BootDomain(env, s, d)
  }

  /** Nothing about domain `d` differs in memory. */
  ghost predicate SameDomain(s: State, s': State, d: string) {
    && (d in s.meta <==> d in s'.meta) && (d in s.meta ==> s'.meta[d] == s.meta[d])
    && (d in s.uploading <==> d in s'.uploading) && (d in s.uploading ==> s'.uploading[d] == s.uploading[d])
    && (d in s.cache <==> d in s'.cache) && (d in s.cache ==> s'.cache[d] == s.cache[d])
  }

  lemma BootDomainFrame(env: Env, s: State, s': State, d: string)
    requires s.disk == s'.disk && SameDomain(s, s', d)
    ensures BootDomain(env, s, d) <==> BootDomain(env, s', d)
  {
  }

  // What the metadata listing contains

  predicate Named(p: Path) {
    p != [] && p[|p| - 1] != MARKER[0]
  }

  function MetaDataOf(env: Env, slot: Slot, md5: Bytes -> string, p: Path, bytes: Bytes): ShortMetaData {
    ShortMetaData(KeyOf(env, slot, p), md5(bytes), |bytes|)
  }

  /** `files` has one entry for each file of the version that is not named like a marker, in the order of `walk`. */
  ghost predicate IsMetadata(
    env: Env, disk: Disk, slot: Slot, md5: Bytes -> string, files: seq<ShortMetaData>, walk: seq<Path>)
  {
    var dir := At(disk, slot);
    && IsListing(walk, set p | p in dir.files && Named(p))
    && |files| == |walk|
    && forall i :: 0 <= i < |walk| ==>
         walk[i] in dir.files && files[i] == MetaDataOf(env, slot, md5, walk[i], dir.files[walk[i]])
  }

  /** Exactly the files that are not called ".SPA-Processing", at whatever depth, are listed. */
  lemma ListedExactlyWhen(
    env: Env, disk: Disk, slot: Slot, md5: Bytes -> string, files: seq<ShortMetaData>, walk: seq<Path>, p: Path)
    requires IsMetadata(env, disk, slot, md5, files, walk) && p != []
    ensures p in walk <==> p in At(disk, slot).files && p[|p| - 1] != ".SPA-Processing"
  {
  }

  method MaxVersion(versions: set<U32>) returns (m: Option<U32>)
    ensures m.None? <==> versions == {}
    ensures m.Some? ==> IsMax(m.value, versions)
  {
    var order := Listing(versions);
    m := None;
    var i := 0;
    while i < |order|
      invariant 0 <= i <= |order|
      invariant m.None? <==> i == 0
      invariant m.Some? ==> m.value in order[..i] && forall x :: x in order[..i] ==> x <= m.value
    {
      assert order[..i + 1] == order[..i] + [order[i]];
      if m.None? || m.value < order[i] {
        m := Some(order[i]);
      }
      i := i + 1;
    }
    assert order[..i] == order;
    if m.None? {
      assert forall x :: x in versions ==> x in order;
    }
  }

  class DomainStorage {
    var disk: Disk
    var meta: map<string, U32>
    var uploading: map<string, U32>
    const cache: FileCache

    ghost function View(): State
      reads this, cache
    {
      State(disk, meta, uploading, cache.data)
    }

    constructor (disk: Disk, meta: map<string, U32>, uploading: map<string, U32>, cache: FileCache)
      ensures this.disk == disk && this.meta == meta && this.uploading == uploading && this.cache == cache
    {
      this.disk := disk;
      this.meta := meta;
      this.uploading := uploading;
      this.cache := cache;
    }

    /** The inner loop of `init`: note marked versions as sessions and find the greatest unmarked one. */
    static method ScanDomain(disk: Disk, domain: string, uploading: map<string, U32>)
      returns (maxVersion: U32, uploading': map<string, U32>)
      requires domain !in uploading
      ensures forall d :: d != domain ==> (d in uploading' <==> d in uploading)
      ensures forall d :: d in uploading ==> uploading'[d] == uploading[d]
      ensures domain in uploading' ==>
                Slot(domain, uploading'[domain]) in disk && Marked(disk[Slot(domain, uploading'[domain])])
      ensures 0 < maxVersion ==> Slot(domain, maxVersion) in disk && !Marked(disk[Slot(domain, maxVersion)])
      ensures forall v: U32 :: Slot(domain, v) in disk ==>
                if Marked(disk[Slot(domain, v)]) then domain in uploading' else v <= maxVersion
    {
      var versions := Listing(VersionsOf(disk, domain));
      maxVersion := 0;
      uploading' := uploading;
      var i := 0;
      while i < |versions|
        invariant 0 <= i <= |versions|
        invariant forall d :: d != domain ==> (d in uploading' <==> d in uploading)
        invariant forall d :: d in uploading ==> d in uploading' && uploading'[d] == uploading[d]
        invariant domain in uploading' ==>
                    Slot(domain, uploading'[domain]) in disk && Marked(disk[Slot(domain, uploading'[domain])])
        invariant 0 < maxVersion ==> Slot(domain, maxVersion) in disk && !Marked(disk[Slot(domain, maxVersion)])
        invariant forall j :: 0 <= j < i ==> Slot(domain, versions[j]) in disk
        invariant forall j :: 0 <= j < i ==>
                    if Marked(disk[Slot(domain, versions[j])]) then domain in uploading' else versions[j] <= maxVersion
      {
        assert versions[i] in VersionsOf(disk, domain);
        if Marked(disk[Slot(domain, versions[i])]) {
          uploading' := uploading'[domain := versions[i]];
        } else if maxVersion < versions[i] {
          maxVersion := versions[i];
        }
        i := i + 1;
      }
      forall v: U32 | Slot(domain, v) in disk
        ensures if Marked(disk[Slot(domain, v)]) then domain in uploading' else v <= maxVersion
      {
        assert v in versions;
      }
    }

    /** The body of the outer loop of `init`. */
    static method InitDomain(
      disk: Disk, domain: string, meta: map<string, U32>, uploading: map<string, U32>, cache: FileCache)
      returns (meta': map<string, U32>, uploading': map<string, U32>)
      requires domain !in meta && domain !in uploading && domain !in cache.data
      modifies cache
      ensures BootDomain(cache.env, State(disk, meta', uploading', cache.data), domain)
      ensures forall d :: d != domain ==> SameDomain(
                  State(disk, meta, uploading, old(cache.data)), State(disk, meta', uploading', cache.data), d)
    {
      meta', uploading' := meta, uploading;
      if IsHost(domain) {
        var maxVersion;
        maxVersion, uploading' := ScanDomain(disk, domain, uploading);
        if maxVersion > 0 {
          var snapshot, _ := cache.CacheDir(Slot(domain, maxVersion), disk[Slot(domain, maxVersion)]);
          cache.Update(domain, snapshot);
          meta' := meta[domain := maxVersion];
        }
      }
    }

    /** `init`: `found` is the content of the configured directory, or `None` when it does not exist. */
    static method Init(found: Option<Disk>, env: Env) returns (r: Result<DomainStorage, Fault>)
      ensures r.Err? <==> found.None?
      ensures r.Ok? ==> fresh(r.value) && fresh(r.value.cache) && r.value.cache.env == env
      ensures r.Ok? ==> IsBoot(env, found.value, r.value.View())
    {
      if found.None? {
        return Err(Missing);
      }
      var disk := found.value;
      var cache := new FileCache(env);
      var meta: map<string, U32>, uploading: map<string, U32> := map[], map[];
      var domains := Listing(set slot | slot in disk :: slot.domain);
      var i := 0;
      while i < |domains|
        invariant 0 <= i <= |domains|
        invariant fresh(cache) && cache.env == env
        invariant forall d :: d in meta || d in uploading || d in cache.data ==> d in domains[..i]
        invariant forall d :: d in domains[..i] ==> BootDomain(env, State(disk, meta, uploading, cache.data), d)
      {
        hide BootDomain;
        ghost var before := State(disk, meta, uploading, cache.data);
        assert domains[i] !in domains[..i];
        meta, uploading := InitDomain(disk, domains[i], meta, uploading, cache);
        forall d | d in domains[..i] ensures BootDomain(env, State(disk, meta, uploading, cache.data), d) {
          BootDomainFrame(env, before, State(disk, meta, uploading, cache.data), d);
        }
        assert domains[..i + 1] == domains[..i] + [domains[i]];
        ghost var after := State(disk, meta, uploading, cache.data);
        forall d | d in meta || d in uploading || d in cache.data ensures d in domains[..i + 1] {
          assert d != domains[i] ==> SameDomain(before, after, d);
        }
        i := i + 1;
      }
      assert domains[..i] == domains;
      forall d | d !in domains ensures BootDomain(env, State(disk, meta, uploading, cache.data), d) {
        forall v: U32 ensures Slot(d, v) !in disk {
          assert Slot(d, v) in disk ==> Slot(d, v).domain in domains;
        }
      }
      var storage := new DomainStorage(disk, meta, uploading, cache);
      r := Ok(storage);
    }

    function GetFile(host: string, key: string): Option<CacheItem>
      reads this, cache
    {
      cache.GetItem(host, key)
    }

    function InfoOf(domain: string): DomainInfo
      reads this
    {
      DomainInfo(domain, if domain in meta then Some(meta[domain]) else None, VersionsOf(disk, domain))
    }

    function GetDomainInfoByDomain(domain: string): Option<DomainInfo>
      reads this
    {
      if VersionsOf(disk, domain) == {} then None else Some(InfoOf(domain))
    }

    /** `get_upload_position`: where the next upload of a domain goes, and the directory it fills. */
    method GetUploadPosition(domain: string) returns (position: UploadPosition, path: string)
      ensures position == PositionOf(View(), domain)
      ensures path == VersionPath(cache.env.prefix, Slot(domain, position.version))
    {
      if domain in uploading {
        position := UploadPosition(uploading[domain], InUploading);
        return position, VersionPath(cache.env.prefix, Slot(domain, uploading[domain]));
      }
      var info := GetDomainInfoByDomain(domain);
      if info.Some? {
        var max := MaxVersion(info.value.versions);
        position := UploadPosition(WrappingAdd32(if max.Some? then max.value else 0, 1), NewVersion);
      } else {
        position := UploadPosition(1, NewDomain);
      }
      path := VersionPath(cache.env.prefix, Slot(domain, position.version));
    }

    /** `upload_domain_with_version`: put a version online. */
    method UploadDomainWithVersion(domain: string, version: Option<U32>)
      returns (r: Result<U32, Fault>, ghost walk: seq<Path>)
      modifies this, cache
      ensures disk == old(disk) && uploading == old(uploading)
      ensures r == ReleaseTarget(old(View()), domain, version)
      ensures r.Err? ==> View() == old(View())
      ensures r.Ok? ==> IsListing(walk, disk[Slot(domain, r.value)].files.Keys)
      ensures r.Ok? ==> View() == Released(cache.env, old(View()), Slot(domain, r.value), walk)
    {
      walk := [];
      var v: U32;
      if version.Some? {
        v := version.value;
      } else {
        var info := GetDomainInfoByDomain(domain);
        var max := MaxVersion(if info.Some? then info.value.versions else {});
        if max.None? {
          return Err(NoVersion), walk;
        }
        v := max.value;
      }
      var slot := Slot(domain, v);
      if domain in uploading && uploading[domain] == v {
        r := Err(IsUploading);
      } else if slot in disk {
        meta := meta[domain := v];
        var snapshot;
        snapshot, walk := cache.CacheDir(slot, disk[slot]);
        cache.Update(domain, snapshot);
        r := Ok(v);
      } else {
        r := Err(Missing);
      }
    }

    /** `save_file`: create what encloses the file, create or open it, write to what was created. */
    method SaveFile(coding: PercentCoding, domain: string, version: U32, path: string, data: Bytes)
      returns (r: Result<(), Fault>)
      modifies this
      ensures (View(), r) == SaveStep(old(View()), Slot(domain, version), SaveTarget(coding, path), data)
    {
      hide SaveTarget;
      var slot := Slot(domain, version);
      if !(domain in uploading && uploading[domain] == version) {
        return Err(NotUploading);
      }
      var target := SaveTarget(coding, path);
      if target.None? {
        return Err(BadPath);
      }
      var Target(p, dirOnly) := target.value;
      if slot in disk && IsDirectory(disk[slot], p) {
        // the target is a directory: it opens, and only an empty write succeeds
        assert disk[slot := disk[slot]] == disk;
        return if data == [] then Ok(()) else Err(Io);
      }
      if p == [] {
        // the version directory itself, which is missing and cannot be created as a file
        return Err(Io);
      }
      if Blocked(At(disk, slot), p) {
        // something that should enclose the target is a file
        assert slot in disk ==> disk[slot := disk[slot]] == disk;
        return Err(Io);
      }
      ghost var before := disk;
      disk := disk[slot := WithParents(At(disk, slot), p)];
      if dirOnly {
        return Err(Io);
      }
      if p in disk[slot].files {
        assert disk[slot] == before[slot];
        assert disk == before[slot := before[slot]] == before;
        return if data == [] then Ok(()) else Err(Io);
      }
      disk := disk[slot := WithFile(disk[slot], p, data)];
      assert disk[slot] == WithFile(At(before, slot), p, data);
      assert disk == before[slot := disk[slot]];
      r := Ok(());
    }

    /** `fs::remove_file` on the marker, then `remove_if` on the session. */
    method RemoveMarker(slot: Slot) returns (r: Result<(), Fault>)
      modifies this
      ensures (View(), r) == CloseSession(old(View()), slot)
    {
      if !(slot in disk && MARKER in disk[slot].files) {
        return Err(Io);
      }
      disk := disk[slot := WithoutFile(disk[slot], MARKER)];
      if slot.domain in uploading && uploading[slot.domain] == slot.version {
        uploading := uploading - {slot.domain};
      }
      r := Ok(());
    }

    /** `update_uploading_status`. */
    method UpdateUploadingStatus(domain: string, version: U32, status: UploadingStatus)
      returns (r: Result<(), Fault>)
      modifies this
      ensures (View(), r) == StatusStep(old(View()), Slot(domain, version), status)
    {
      var slot := Slot(domain, version);
      if domain in uploading {
        var uploadingVersion := uploading[domain];
        if uploadingVersion != version {
          return Err(OtherVersionUploading(uploadingVersion));
        } else if status == Finish {
          r := RemoveMarker(slot);
          return;
        }
      } else if status == Uploading {
        if domain in meta && meta[domain] == version {
          return Err(InServing);
        }
        var dir := At(disk, slot);
        if MARKER in dir.dirs {
          // a directory of that name cannot be opened as a file
          return Err(Io);
        }
        MarkerNotBlocked(dir);
        ghost var before := disk;
        disk := disk[slot := dir];
        disk := disk[slot := WithFile(dir, MARKER, [])];
        assert disk == before[slot := WithFile(dir, MARKER, [])];
        uploading := uploading[domain := version];
      } else {
        r := RemoveMarker(slot);
        return;
      }
      r := Ok(());
    }

    /** `remove_domain_version`: one version, or all of a domain; sessions and what is served are not touched. */
    method RemoveDomainVersion(domain: string, version: Option<U32>) returns (removed: bool)
      modifies this
      ensures View() == old(View()).(disk := disk)
      ensures version.Some? ==> disk == old(disk) - {Slot(domain, version.value)}
      ensures version.Some? ==> (removed <==> Slot(domain, version.value) in old(disk))
      ensures version.None? ==> forall slot :: slot in disk <==> slot in old(disk) && slot.domain != domain
      ensures version.None? ==> (removed <==> exists slot :: slot in old(disk) && slot.domain == domain)
      ensures forall slot :: slot in disk ==> disk[slot] == old(disk)[slot]
    {
      if version.Some? {
        var slot := Slot(domain, version.value);
        removed := slot in disk;
        disk := disk - {slot};
      } else {
        var gone := set slot | slot in disk && slot.domain == domain;
        removed := gone != {};
        assert removed ==> exists slot :: slot in gone;
        disk := disk - gone;
      }
    }

    /** `get_files_metadata`: every file but those named as a marker, at any depth, in the order they are walked. */
    method GetFilesMetadata(md5: Bytes -> string, domain: string, version: U32)
      returns (files: seq<ShortMetaData>)
      ensures exists walk :: IsMetadata(cache.env, View().disk, Slot(domain, version), md5, files, walk)
    {
      hide MetaDataOf;
      files := [];
      ghost var walk: seq<Path> := [];
      var slot := Slot(domain, version);
      if slot !in disk {
        assert IsMetadata(cache.env, View().disk, slot, md5, files, walk);
        return;
      }
      var dir := disk[slot];
      var order := Listing(dir.files.Keys);
      var i := 0;
      while i < |order|
        invariant 0 <= i <= |order| && |files| == |walk|
        invariant forall p :: p in walk <==> p in order[..i] && Named(p)
        invariant forall j, k :: 0 <= j < k < |walk| ==> walk[j] != walk[k]
        invariant forall j :: 0 <= j < |walk| ==>
                    walk[j] in dir.files && files[j] == MetaDataOf(cache.env, slot, md5, walk[j], dir.files[walk[j]])
      {
        assert order[..i + 1] == order[..i] + [order[i]];
        assert order[i] in order && order[i] !in order[..i];
        if Named(order[i]) {
          files := files + [MetaDataOf(cache.env, slot, md5, order[i], dir.files[order[i]])];
          walk := walk + [order[i]];
        }
        i := i + 1;
      }
      assert order[..i] == order;
      assert IsMetadata(cache.env, View().disk, slot, md5, files, walk);
    }
  }
}
