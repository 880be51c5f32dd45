/**
 From the local directory to the jobs of an upload: the client leaves out every file that the server's
 metadata lists under the same key with the same length and digest.
 */
module LocalFiles {
  import opened Prelude
  import opened Paths
  import opened Keys
  import opened Disk
  import opened Caching
  import opened Storage
  import opened Recovery
  import opened UploadFiles
  import opened UploadExactly
  import opened Completion

  /** The listing collected into a map: of entries with the same path the last counts. */
  function ByPath(listing: seq<ShortMetaData>): map<string, ShortMetaData> {
    if listing == [] then map[]
    else
      var n := |listing| - 1;
      ByPath(listing[..n])[listing[n].path := listing[n]]
  }

  lemma LastEntryCounts(listing: seq<ShortMetaData>, entry: ShortMetaData, key: string)
    ensures var entries := ByPath(listing + [entry]);
            && key in entries <==> key == entry.path || key in ByPath(listing)
    ensures ByPath(listing + [entry])[entry.path] == entry
    ensures key != entry.path && key in ByPath(listing) ==> ByPath(listing + [entry])[key] == ByPath(listing)[key]
  {
    assert (listing + [entry])[..|listing|] == listing;
  }

  /** The server has a file of that key, length and digest. */
  predicate UpToDate(md5: Bytes -> string, listing: seq<ShortMetaData>, key: string, data: Bytes) {
    var entries := ByPath(listing);
    key in entries && entries[key].length == |data| && entries[key].md5 == md5(data)
  }

  /** The files below `base` that are sent, in the order they were walked. */
  function Outdated(
    md5: Bytes -> string, listing: seq<ShortMetaData>, base: string, files: map<Path, Bytes>, walk: seq<Path>)
    : seq<Path>
    requires base != "" && forall p :: p in walk ==> p in files
  {
    if walk == [] then []
    else
      var n := |walk| - 1;
      var before := Outdated(md5, listing, base, files, walk[..n]);
      if UpToDate(md5, listing, ClientKey(base, walk[n]), files[walk[n]]) then before else before + [walk[n]]
  }

  lemma {:induction false} OutdatedExactly(
    md5: Bytes -> string, listing: seq<ShortMetaData>, base: string, files: map<Path, Bytes>, walk: seq<Path>)
    requires base != "" && (forall p :: p in walk ==> p in files)
    ensures forall p :: p in Outdated(md5, listing, base, files, walk) <==>
              p in walk && !UpToDate(md5, listing, ClientKey(base, p), files[p])
  {
    hide UpToDate, ClientKey;
    if walk != [] {
      var n := |walk| - 1;
      OutdatedExactly(md5, listing, base, files, walk[..n]);
      assert walk == walk[..n] + [walk[n]];
    }
  }

  /** The jobs for the files walked. */
  function JobsFor(base: string, files: map<Path, Bytes>, walk: seq<Path>): (jobs: seq<Job>)
    requires base != "" && forall p :: p in walk ==> p in files
    ensures |jobs| == |walk|
    ensures forall j :: 0 <= j < |walk| ==> jobs[j] == Job(ClientKey(base, walk[j]), files[walk[j]])
  {
    seq(|walk|, j requires 0 <= j < |walk| => Job(ClientKey(base, walk[j]), files[walk[j]]))
  }

  /** What `upload_files` sets out to send. */
  function JobsToSend(
    md5: Bytes -> string, listing: seq<ShortMetaData>, base: string, files: map<Path, Bytes>, walk: seq<Path>): seq<Job>
    requires base != "" && IsListing(walk, files.Keys)
  {
    OutdatedExactly(md5, listing, base, files, walk);
    JobsFor(base, files, Outdated(md5, listing, base, files, walk))
  }

  // What the comparison leaves out

  lemma {:induction false} ByPathIsListed(listing: seq<ShortMetaData>, key: string)
    requires key in ByPath(listing)
    ensures exists i :: 0 <= i < |listing| && listing[i].path == key && listing[i] == ByPath(listing)[key]
  {
    var n := |listing| - 1;
    if listing[n].path != key {
      ByPathIsListed(listing[..n], key);
      var i :| 0 <= i < n && listing[..n][i].path == key && listing[..n][i] == ByPath(listing[..n])[key];
      assert listing[i] == listing[..n][i];
    }
  }

  /** A file that is left out is on the server under its key, with its length and digest. */
  lemma SkippedIsListed(
    env: Env, md5: Bytes -> string, disk: Disk, slot: Slot, listing: seq<ShortMetaData>, order: seq<Path>,
    key: string, data: Bytes)
    returns (p: Path)
    requires IsMetadata(env, disk, slot, md5, listing, order) && UpToDate(md5, listing, key, data)
    ensures slot in disk && p in disk[slot].files && Named(p) && KeyOf(env, slot, p) == key
    ensures |disk[slot].files[p]| == |data| && md5(disk[slot].files[p]) == md5(data)
  {
    hide KeyOf;
    ByPathIsListed(listing, key);
    var i :| 0 <= i < |listing| && listing[i].path == key && listing[i] == ByPath(listing)[key];
    p := order[i];
    assert p in order;
  }

  lemma SkippedIsListable(
    env: Env, md5: Bytes -> string, disk: Disk, slot: Slot, listing: seq<ShortMetaData>, order: seq<Path>,
    key: string, data: Bytes)
    requires IsMetadata(env, disk, slot, md5, listing, order) && UpToDate(md5, listing, key, data)
    ensures Listable(VersionPath(env.prefix, slot), key)
  {
    hide UpToDate, IsMetadata, ServerKey;
    var p := SkippedIsListed(env, md5, disk, slot, listing, order, key, data);
  }

  /** Whatever the server lists, a file whose key keeps its "/" is sent. */
  lemma NeverSkipped(
    env: Env, md5: Bytes -> string, disk: Disk, slot: Slot, listing: seq<ShortMetaData>, order: seq<Path>,
    base: string, q: Path, data: Bytes)
    requires base != "" && base[0] == '/' && q != [] && !LosesItsSlash(base, q)
    requires IsMetadata(env, disk, slot, md5, listing, order)
    ensures !UpToDate(md5, listing, ClientKey(base, q), data)
  {
    hide UpToDate, LosesItsSlash, ClientKey, IsMetadata, Listable;
    ListableExactlyWhen(base, q);
    if UpToDate(md5, listing, ClientKey(base, q), data) {
      SkippedIsListable(env, md5, disk, slot, listing, order, ClientKey(base, q), data);
    }
  }

  ghost predicate SkippedBySome(md5: Bytes -> string, base: string, q: Path, data: Bytes)
    requires base != ""
  {
    exists env, disk, slot, listing, order ::
      IsMetadata(env, disk, slot, md5, listing, order) && UpToDate(md5, listing, ClientKey(base, q), data)
  }

  /** A server that holds the file at a path with that key makes the client leave it out. */
  lemma SkippedByHolder(md5: Bytes -> string, base: string, q: Path, data: Bytes, env: Env, slot: Slot, p: Path)
    requires base != "" && p != [] && KeyOf(env, slot, p) == ClientKey(base, q) && Named(p)
    ensures SkippedBySome(md5, base, q, data)
  {
    hide ClientKey, KeyOf;
    MarkerNotBlocked(EMPTY_DIR);
    assert !Blocked(EMPTY_DIR, p);
    var disk: Disk := map[slot := WithFile(EMPTY_DIR, p, data)];
    var listing := [MetaDataOf(env, slot, md5, p, data)];
    assert listing[..0] == [];
    assert IsListing([p], set r | r in disk[slot].files && Named(r));
    assert IsMetadata(env, disk, slot, md5, listing, [p]);
    assert UpToDate(md5, listing, ClientKey(base, q), data);
  }

  lemma VersionPathOfZero(prefix: string)
    ensures VersionPath(prefix, Slot("h", 0)) == prefix + "h/0"
  {
    assert Decimal(0) == "0";
    assert prefix + "h" + "/" + "0" == prefix + "h/0";
  }

  /**
   Some state of some server makes the client leave a file out if and only if the directory takes the "/" of its key,
   even where the key ends in the marker's name: another file can have that key.
   */
  lemma SkippedExactlyWhen(md5: Bytes -> string, base: string, q: Path, data: Bytes)
    requires base != "" && base[0] == '/' && q != []
    ensures SkippedBySome(md5, base, q, data) <==> LosesItsSlash(base, q)
  {
    hide UpToDate, LosesItsSlash, ClientKey, IsMetadata, ServerKey, IsName;
    if LosesItsSlash(base, q) {
      ClientKeyStripped(base, q);
      var p := DisguisedKey(ClientKey(base, q));
      var run := Repeat('z', |ClientKey(base, q)|);
      var env := Env(run + "/", _ => CacheConfig(0, false, map[]), b => b, _ => "");
      VersionPathOfZero(env.prefix);
      assert run + "/" + "h/0" == run + "/h/0";
      SkippedByHolder(md5, base, q, data, env, Slot("h", 0), p);
    } else {
      forall env, disk, slot, listing, order | IsMetadata(env, disk, slot, md5, listing, order)
        ensures !UpToDate(md5, listing, ClientKey(base, q), data)
      {
        NeverSkipped(env, md5, disk, slot, listing, order, base, q, data);
      }
    }
  }

  lemma {:induction false} NothingSkipped(
    md5: Bytes -> string, listing: seq<ShortMetaData>, base: string, files: map<Path, Bytes>, walk: seq<Path>)
    requires base != "" && forall p :: p in walk ==> p in files
    requires forall p :: p in walk ==> !UpToDate(md5, listing, ClientKey(base, p), files[p])
    ensures Outdated(md5, listing, base, files, walk) == walk
  {
    hide UpToDate, ClientKey;
    if walk != [] {
      var n := |walk| - 1;
      NothingSkipped(md5, listing, base, files, walk[..n]);
      assert walk == walk[..n] + [walk[n]];
    }
  }

  // From local files to jobs

  /** A local name that survives both key derivation and the server's percent-decoding. */
  ghost predicate Survives(coding: PercentCoding, base: string, p: Path) {
    && IsPlain(p) && !Contains("/" + Join(p), base)
    && coding.decode("/" + Join(p)) == Some("/" + Join(p))
  }

  /** Such a file is stored under its relative path. */
  lemma KeyNamesThePath(coding: PercentCoding, base: string, p: Path)
    requires base != "" && Survives(coding, base, p)
    ensures SaveTarget(coding, ClientKey(base, p)) == Some(Target(p, false))
  {
    ClientKeyIsAbsolutePath(base, p);
    PlainNotRefused(p);
    SplitAbsolute(p);
    PlainAbsolute(p, [""] + p);
    assert ([""] + p)[|p|] == p[|p| - 1];
  }

  lemma ClientKeyIsNoLonger(base: string, p: Path)
    requires base != ""
    ensures |ClientKey(base, p)| <= |Join(p)| + 1
    ensures Contains("/" + Join(p), base) ==> |ClientKey(base, p)| + |base| <= |Join(p)| + 1
  {
    var name := "/" + Join(p);
    assert base + "/" + Join(p) == base + name;
    RemoveLeading(base, name);
    RemoveAllIdentity(name, base);
    hide RemoveAll, Join, Contains;
    if Contains(name, base) {
      RemovalShortens(name, base);
    }
  }

  lemma TargetMeansSurvival(coding: PercentCoding, base: string, p: Path)
    requires coding.Shrinks() && |base| > 1 && p != []
    requires SaveTarget(coding, ClientKey(base, p)) == Some(Target(p, false))
    ensures Survives(coding, base, p)
  {
    hide ClientKey, Plain, Split, Join, Contains;
    var name, key := "/" + Join(p), ClientKey(base, p);
    var decoded := coding.decode(key).value;
    PlainIsNoLonger(decoded);
    ClientKeyIsAbsolutePath(base, p);
    ClientKeyIsNoLonger(base, p);
    assert key == name && decoded == name;
    SplitAbsolute(p);
    forall i | 0 <= i < |p| ensures p[i] != "." && !BadSegment(p[i]) {
      PlainHasNoDot(Split(name), i);
      assert Split(name)[i + 1] == p[i];
    }
  }

  /**
   And no other file is, unless it is the root of the file system that is uploaded: the client sends keys as they
   are, and the server decodes them.
   */
  lemma KeyNamesThePathExactlyWhen(coding: PercentCoding, base: string, p: Path)
    requires coding.Shrinks() && |base| > 1 && p != []
    ensures SaveTarget(coding, ClientKey(base, p)) == Some(Target(p, false)) <==> Survives(coding, base, p)
  {
    if Survives(coding, base, p) {
      KeyNamesThePath(coding, base, p);
    } else if SaveTarget(coding, ClientKey(base, p)) == Some(Target(p, false)) {
      TargetMeansSurvival(coding, base, p);
    }
  }

  lemma NoDirectoryInside()
    ensures !Contains("/a%41", "/d")
  {
    assert "/a%41"[1] != "/d"[1];
    assert "/a%41"[1..] == "a%41" && "a%41"[1..] == "%41" && "%41"[1..] == "41" && "41"[1..] == "1";
  }

  /** So "a%41" goes to "aA". */
  lemma EncodedNameMoves(coding: PercentCoding)
    requires coding.decode("/a%41") == Some("/aA")
    ensures SaveTarget(coding, ClientKey("/d", ["a%41"])) == Some(Target(["aA"], false))
  {
    var p: Path := ["aA"];
    assert Join(["a%41"]) == "a%41" && Join(p) == "aA";
    assert ClientKey("/d", ["a%41"]) == "/a%41" by {
      ClientKeyIsAbsolutePath("/d", ["a%41"]);
      NoDirectoryInside();
      assert "/" + "a%41" == "/a%41";
    }
    hide ClientKey;
    assert "/" + Join(p) == "/aA";
    assert "aA"[0] != ".."[0] && '\\' !in "aA";
    PlainNotRefused(p);
    SplitAbsolute(p);
    PlainAbsolute(p, [""] + p);
    assert ([""] + p)[1] == "aA";
  }

  lemma SurvivingIsPlain(coding: PercentCoding, base: string, p: Path)
    requires Survives(coding, base, p)
    ensures p != []
  {
  }

  /**
   The plan of a client that walked the local directory at the absolute path `base` and compared it with what
   the server listed when its disk was `seen`.
   */
  ghost predicate Prepared(
    env: Env, md5: Bytes -> string, seen: Disk, base: string, local: map<Path, Bytes>, walk: seq<Path>, plan: Plan)
  {
    && base != "" && base[0] == '/' && IsListing(walk, local.Keys) && [] !in local
    && exists listing, order ::
         && IsMetadata(env, seen, plan.slot, md5, listing, order)
         && plan.jobs == JobsToSend(md5, listing, base, local, walk)
  }

  /** Files with surviving names are all sent. */
  lemma SurvivorsAreSent(
    env: Env, coding: PercentCoding, md5: Bytes -> string, seen: Disk, base: string, local: map<Path, Bytes>,
    walk: seq<Path>, plan: Plan)
    requires Prepared(env, md5, seen, base, local, walk, plan)
    requires forall p :: p in local ==> Survives(coding, base, p)
    ensures plan.jobs == JobsFor(base, local, walk)
  {
    hide UpToDate, ClientKey, IsMetadata, LosesItsSlash, Outdated;
    var listing, order :|
      && IsMetadata(env, seen, plan.slot, md5, listing, order)
      && plan.jobs == JobsToSend(md5, listing, base, local, walk);
    forall p | p in walk ensures !UpToDate(md5, listing, ClientKey(base, p), local[p]) {
      assert Survives(coding, base, p);
      WholeKeyIsNotListable(base, p, "");
      NeverSkipped(env, md5, seen, plan.slot, listing, order, base, p, local[p]);
    }
    NothingSkipped(md5, listing, base, local, walk);
  }

  /** A local directory of such files makes a well-named plan. */
  lemma LocalFilesAreWellNamed(
    coding: PercentCoding, base: string, files: map<Path, Bytes>, walk: seq<Path>, plan: Plan)
    requires base != "" && IsListing(walk, files.Keys) && plan.jobs == JobsFor(base, files, walk)
    requires forall p :: p in files ==> Survives(coding, base, p) && p[0] != MARKER[0]
    requires forall p, q :: p in files && q in files ==> p !in Ancestors(q)
    ensures WellNamed(coding, plan)
    ensures forall j :: 0 <= j < |walk| ==> TargetOf(coding, plan, j) == Some(Target(walk[j], false))
  {
    hide Survives, ClientKey, SaveTarget;
    forall j | 0 <= j < |walk| ensures TargetOf(coding, plan, j) == Some(Target(walk[j], false)) && walk[j] in files {
      assert walk[j] in walk;
      KeyNamesThePath(coding, base, walk[j]);
    }
    forall j | 0 <= j < |walk| ensures walk[j] != [] {
      SurvivingIsPlain(coding, base, walk[j]);
    }
  }

  lemma SameFiles(local: map<Path, Bytes>, files: map<Path, Bytes>, walk: seq<Path>)
    requires IsListing(walk, local.Keys)
    requires forall j :: 0 <= j < |walk| ==> walk[j] in files && files[walk[j]] == local[walk[j]]
    requires forall p :: p in files ==> exists j :: 0 <= j < |walk| && walk[j] == p
    ensures files == local
  {
  }

  /** So a successful upload of a local directory into an empty version makes the version equal to the directory. */
  lemma UploadIsACopy(
    env: Env, coding: PercentCoding, md5: Bytes -> string, seen: Disk, base: string, local: map<Path, Bytes>,
    walk: seq<Path>, plan: Plan, ws: seq<World>, steps: seq<Step>, i: nat)
    requires Prepared(env, md5, seen, base, local, walk, plan)
    requires forall p :: p in local ==> Survives(coding, base, p) && p[0] != MARKER[0]
    requires forall p, q :: p in local && q in local ==> p !in Ancestors(q)
    requires Upload(env, coding, plan, ws, steps) && i < |steps| && steps[i].Close? && steps[i].ok
    requires OnlyOurs(coding, plan, ws[0].sys.st.disk)
    requires forall k :: 0 <= k <= i ==> VersionSpared(plan, ws[k], steps[k]) && NoOtherWriter(coding, plan, steps[k])
    ensures plan.slot in ws[i + 1].sys.st.disk && ws[i + 1].sys.st.disk[plan.slot].files == local
  {
    hide IsMetadata, UpToDate;
    SurvivorsAreSent(env, coding, md5, seen, base, local, walk, plan);
    LocalFilesAreWellNamed(coding, base, local, walk, plan);
    SuccessMeansExactly(env, coding, plan, ws, steps, i);
    hide Upload, VersionSpared, NoOtherWriter, WellNamed, OnlyOurs, Survives, ClientKey, TargetOf, JobsToSend;
    SameFiles(local, ws[i + 1].sys.st.disk[plan.slot].files, walk);
  }

  // Every local file, sent or left out

  /** Among `files`, length and digest tell `data` from everything else. */
  ghost predicate Identifies(md5: Bytes -> string, files: map<Path, Bytes>, data: Bytes) {
    forall p :: p in files && |files[p]| == |data| && md5(files[p]) == md5(data) ==> files[p] == data
  }

  /** The version holds `data` where a save of `key` is aimed, or in a file that the server lists as `key`. */
  ghost predicate HeldAs(env: Env, coding: PercentCoding, disk: Disk, slot: Slot, key: string, data: Bytes) {
    exists p ::
      && HasFile(disk, slot, p, data)
      && (KeyOf(env, slot, p) == key || (SaveTarget(coding, key).Some? && SaveTarget(coding, key).value.path == p))
  }

  /**
   Commit safety for the whole directory, whatever the version held before: if the client succeeds, the content of
   every local file that is not empty is on the server under the file's key, whether it was sent or left out.
   */
  lemma EveryLocalFileIsHeld(
    env: Env, coding: PercentCoding, md5: Bytes -> string, base: string, local: map<Path, Bytes>, walk: seq<Path>,
    plan: Plan, ws: seq<World>, steps: seq<Step>, i: nat, p: Path)
    requires Upload(env, coding, plan, ws, steps) && i < |ws| && ws[i].cl.phase == Succeeded
    requires Prepared(env, md5, ws[0].sys.st.disk, base, local, walk, plan)
    requires forall k :: 0 <= k < i ==> VersionSpared(plan, ws[k], steps[k])
    requires p in local && local[p] != [] && Identifies(md5, At(ws[0].sys.st.disk, plan.slot).files, local[p])
    requires var target := SaveTarget(coding, ClientKey(base, p)); target.Some? ==> target.value.path != MARKER
    ensures HeldAs(env, coding, ws[i].sys.st.disk, plan.slot, ClientKey(base, p), local[p])
  {
    hide Goes, VersionSpared, IsMetadata, UpToDate, ClientKey, KeyOf, SaveTarget, Outdated;
    var listing, order :|
      && IsMetadata(env, ws[0].sys.st.disk, plan.slot, md5, listing, order)
      && plan.jobs == JobsToSend(md5, listing, base, local, walk);
    OutdatedExactly(md5, listing, base, local, walk);
    var sent := Outdated(md5, listing, base, local, walk);
    if p in sent {
      var j :| 0 <= j < |sent| && sent[j] == p;
      SuccessMeansArrived(env, coding, plan, ws, steps, i, j);
    } else {
      var q := SkippedIsListed(
        env, md5, ws[0].sys.st.disk, plan.slot, listing, order, ClientKey(base, p), local[p]);
      StoredStays(env, coding, plan, ws, steps, 0, i, q, local[p]);
    }
  }

  // Running the client again

  /** A client run on a version that already has one of its files, whole or in part, never succeeds. */
  lemma SecondRunFails(
    env: Env, coding: PercentCoding, md5: Bytes -> string, seen: Disk, base: string, local: map<Path, Bytes>,
    walk: seq<Path>, plan: Plan, ws: seq<World>, steps: seq<Step>, i: nat, p: Path, bytes: Bytes)
    requires Upload(env, coding, plan, ws, steps) && i < |ws|
    requires Prepared(env, md5, seen, base, local, walk, plan)
    requires forall k :: 0 <= k < i ==> VersionSpared(plan, ws[k], steps[k])
    requires p in local && local[p] != [] && Survives(coding, base, p) && p != MARKER
    requires HasFile(ws[0].sys.st.disk, plan.slot, p, bytes)
    ensures ws[i].cl.phase != Succeeded
  {
    hide Goes, VersionSpared, IsMetadata, UpToDate, ClientKey, SaveTarget, Outdated, LosesItsSlash, Ancestors;
    var listing, order :|
      && IsMetadata(env, seen, plan.slot, md5, listing, order)
      && plan.jobs == JobsToSend(md5, listing, base, local, walk);
    WholeKeyIsNotListable(base, p, "");
    NeverSkipped(env, md5, seen, plan.slot, listing, order, base, p, local[p]);
    OutdatedExactly(md5, listing, base, local, walk);
    var sent := Outdated(md5, listing, base, local, walk);
    var j :| 0 <= j < |sent| && sent[j] == p;
    KeyNamesThePath(coding, base, p);
    StartIsAccounted(plan, ws[0].cl);
    HopelessNeverSucceeds(env, coding, plan, ws, steps, 0, i, j);
  }

  /**
   Exactly: a client with surviving names, run on whatever version it may open, can succeed if and only if each of its
   files can be created there, or is empty and there already. What is left of an earlier run cannot be resumed,
   unless the earlier run left only directories and empty files.
   */
  lemma RunSucceedsExactlyWhen(
    env: Env, coding: PercentCoding, md5: Bytes -> string, seen: Disk, base: string, local: map<Path, Bytes>,
    walk: seq<Path>, plan: Plan, w: World)
    requires Prepared(env, md5, seen, base, local, walk, plan)
    requires forall p :: p in local ==> Survives(coding, base, p) && p[0] != MARKER[0]
    requires forall p, q :: p in local && q in local ==> p !in Ancestors(q)
    requires local != map[] && 0 < plan.parallel && ClientStart(plan, w.cl)
    requires StatusStep(w.sys.st, plan.slot, Uploading).1.Ok?
    requires InSession(w.sys.st, plan.slot) ==>
               plan.slot in w.sys.st.disk && MARKER in w.sys.st.disk[plan.slot].files
    ensures CanSucceedAlone(env, coding, plan, w) <==> CanSucceed(env, coding, plan, w)
    ensures CanSucceed(env, coding, plan, w) <==>
              forall p :: p in local ==> Storable(w.sys.st.disk, plan.slot, Some(Target(p, false)), local[p])
  {
    hide IsMetadata, UpToDate;
    SurvivorsAreSent(env, coding, md5, seen, base, local, walk, plan);
    LocalFilesAreWellNamed(coding, base, local, walk, plan);
    hide Survives, ClientKey, TargetOf, JobsToSend, WellNamed, Storable, StatusStep, ClientStart;
    hide CanSucceed, CanSucceedAlone;
    assert exists p :: p in local.Keys;
    assert plan.jobs != [] && CanBegin(coding, plan, w);
    CanSucceedExactlyWhen(env, coding, plan, w);
    assert forall j :: 0 <= j < |walk| ==> walk[j] in local;
    if EveryFileStorable(coding, plan, w.sys.st.disk) {
      forall p | p in local ensures Storable(w.sys.st.disk, plan.slot, Some(Target(p, false)), local[p]) {
        assert p in walk;
        var j :| 0 <= j < |walk| && walk[j] == p;
      }
    }
  }
}
