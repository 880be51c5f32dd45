/**
 Two races the step relation leaves out because they break coherence: a save that passed its session check
 before a Finish, and releases of one domain that overlap. Here is when they do harm.
 */
module Races {
  import opened Prelude
  import opened Paths
  import opened Keys
  import opened Disk
  import opened Caching
  import opened Storage
  import opened System
  import opened Recovery

  // A save that is late

  /** A save from its session check on. */
  function LateSave(s: State, slot: Slot, target: Target, data: Bytes): State {
    s.(disk := PutTree(s.disk, slot, WriteFile(TreeAt(s.disk, slot), target, data).0))
  }

  lemma LateSaveLeaves(s: State, slot: Slot, target: Target, data: Bytes)
    requires slot in s.disk
    ensures var s' := LateSave(s, slot, target, data);
            && s' == s.(disk := s'.disk) && slot in s'.disk
            && (forall other :: other != slot ==> TreeAt(s'.disk, other) == TreeAt(s.disk, other))
            && s'.disk[slot].files ==
                 if Free(s.disk, slot, target) then s.disk[slot].files[target.path := data] else s.disk[slot].files
  {
  }

  /** A file more, and a key more than the snapshot has. */
  lemma NewFileIsMissing(env: Env, m: Snapshot, slot: Slot, dir: Dir, grown: Dir, p: Path)
    requires IsFullSnapshot(env, m, slot, dir) && p !in dir.files && grown.files.Keys == dir.files.Keys + {p}
    requires CleanNames(env, slot, grown.files)
    ensures !IsFullSnapshot(env, m, slot, grown)
  {
    var key := KeyOf(env, slot, p);
    assert p in grown.files;
    if key in m {
      assert Owned(env, m, slot, dir.files, dir.files.Keys, key);
      var q :| q in dir.files.Keys && KeyOf(env, slot, q) == key;
      ServerKeysInjective(VersionPath(env.prefix, slot), p, q);
    }
  }

  lemma FreeIsNew(disk: Disk, slot: Slot, target: Target)
    requires slot in disk && Free(disk, slot, target)
    ensures target.path !in disk[slot].files
  {
  }

  /**
   A late save leaves a coherent domain coherent unless it creates a file in the very version that is served (where
   names are clean; otherwise the new file may hide behind the key of another).
   */
  lemma LateSaveBreaksExactlyWhen(env: Env, s: System, slot: Slot, target: Target, data: Bytes, d: string)
    requires slot in s.st.disk && d in s.st.meta && d !in s.walks && Slot(d, s.st.meta[d]) in s.st.disk
    requires CoherentAt(env, s, d)
    requires var served := Slot(d, s.st.meta[d]);
             CleanNames(env, served, At(LateSave(s.st, slot, target, data).disk, served).files)
    ensures var s' := s.(st := LateSave(s.st, slot, target, data));
            && d in s'.st.meta && Slot(d, s'.st.meta[d]) in s'.st.disk
            && (CoherentAt(env, s', d) <==> !(Serves(s.st, slot) && slot.domain == d && Free(s.st.disk, slot, target)))
  {
    hide KeyOf, MakeItem, Free, LateSave, CleanNames;
    LateSaveLeaves(s.st, slot, target, data);
    var s', served := s.(st := LateSave(s.st, slot, target, data)), Slot(d, s.st.meta[d]);
    assert TreeAt(s'.st.disk, served) == TreeAt(s.st.disk, served) || served == slot;
    if served == slot && Free(s.st.disk, slot, target) {
      assert target.path !in s.st.disk[slot].files by {
        FreeIsNew(s.st.disk, slot, target);
      }
      hide IsFullSnapshot;
      NewFileIsMissing(env, s.st.cache[d], slot, s.st.disk[slot], s'.st.disk[slot], target.path);
    }
  }

  /** So this happens: a save passes its check, the session is finished and the version released, the save writes. */
  lemma LateSaveRun(
    env: Env, s: System, slot: Slot, walk: seq<Path>, target: Target, data: Bytes)
    requires InSession(s.st, slot) && slot in s.st.disk && MARKER in s.st.disk[slot].files && slot.domain !in s.walks
    requires var finished := StatusStep(s.st, slot, Finish).0;
             && IsListing(walk, (s.st.disk[slot].files - {MARKER}).Keys)
             && Free(finished.disk, slot, target)
             && CleanNames(env, slot, s.st.disk[slot].files[target.path := data])
    ensures var finished := StatusStep(s.st, slot, Finish).0;
            && slot in finished.disk && finished.disk[slot].files == s.st.disk[slot].files - {MARKER}
            && ReleaseTarget(finished, slot.domain, Some(slot.version)) == Ok(slot.version)
            && var late := LateSave(Released(env, finished, slot, walk), slot, target, data);
               slot in late.disk && !CoherentAt(env, s.(st := late), slot.domain)
  {
    hide Free, KeyOf, MakeItem, Collect, LateSave, IsFullSnapshot, WriteFile;
    var finished := StatusStep(s.st, slot, Finish).0;
    var online := Released(env, finished, slot, walk);
    var late := LateSave(online, slot, target, data);
    CollectIsFull(env, slot, finished.disk[slot], walk);
    LateSaveLeaves(online, slot, target, data);
    assert forall p :: p in late.disk[slot].files ==> p in s.st.disk[slot].files[target.path := data];
    LateSaveBreaksExactlyWhen(env, s.(st := online), slot, target, data, slot.domain);
  }

  /** A walk has its version's snapshot once it has read every file, and not before. */
  lemma WalkIsFullExactlyWhen(env: Env, m: Snapshot, slot: Slot, dir: Dir, seen: set<Path>)
    requires IsSnapshot(env, m, slot, dir.files, seen) && CleanNames(env, slot, dir.files)
    ensures IsFullSnapshot(env, m, slot, dir) <==> seen == dir.files.Keys
  {
    hide MakeItem;
    forall p | p in dir.files && KeyOf(env, slot, p) in m ensures p in seen {
      assert Owned(env, m, slot, dir.files, seen, KeyOf(env, slot, p));
      var q :| q in seen && KeyOf(env, slot, q) == KeyOf(env, slot, p);
      ServerKeysInjective(VersionPath(env.prefix, slot), p, q);
    }
  }

  /**
   A late save while a release of the domain still walks does no harm by itself; but if the walk ends without having
   read the new file, what it publishes is not the snapshot of the version.
   */
  lemma LateSaveInWalkExactlyWhen(env: Env, s: System, slot: Slot, target: Target, data: Bytes)
    requires slot in s.st.disk && Serves(s.st, slot) && slot.domain in s.walks && CoherentAt(env, s, slot.domain)
    requires CleanNames(env, slot, At(LateSave(s.st, slot, target, data).disk, slot).files)
    ensures var s', w := s.(st := LateSave(s.st, slot, target, data)), s.walks[slot.domain];
            && slot in s'.st.disk && CoherentAt(env, s', slot.domain)
            && (IsFullSnapshot(env, w.acc, slot, s'.st.disk[slot]) <==>
                  && s.st.disk[slot].files.Keys <= w.seen
                  && !Free(s.st.disk, slot, target))
  {
    hide KeyOf, MakeItem, Free, LateSave, CleanNames;
    LateSaveLeaves(s.st, slot, target, data);
    var s', w := s.(st := LateSave(s.st, slot, target, data)), s.walks[slot.domain];
    var before, after := s.st.disk[slot].files, s'.st.disk[slot].files;
    assert Free(s.st.disk, slot, target) ==> target.path !in before by {
      if Free(s.st.disk, slot, target) { FreeIsNew(s.st.disk, slot, target); }
    }
    assert IsSnapshot(env, w.acc, slot, after, w.seen) by {
      forall k | k in w.acc ensures Owned(env, w.acc, slot, after, w.seen, k) {
        assert Owned(env, w.acc, slot, before, w.seen, k);
      }
    }
    hide IsSnapshot;
    WalkIsFullExactlyWhen(env, w.acc, slot, s'.st.disk[slot], w.seen);
  }

  // Releases that overlap

  /** The items of a snapshot name their version. */
  ghost predicate NamesOnly(m: Snapshot, slot: Slot) {
    forall k :: k in m ==> m[k].data.path.slot == slot
  }

  lemma SnapshotNamesVersion(env: Env, m: Snapshot, slot: Slot, dir: Dir)
    requires IsFullSnapshot(env, m, slot, dir)
    ensures NamesOnly(m, slot)
  {
  }

  /** So what was read of one version is the snapshot of another only if both are empty. */
  lemma SnapshotOfAnother(env: Env, m: Snapshot, a: Slot, b: Slot, dir: Dir)
    requires a != b && NamesOnly(m, a)
    ensures IsFullSnapshot(env, m, b, dir) <==> m == map[] && dir.files == map[]
  {
  }

  /** A release: its version, and whether that version's directory has stayed as it is since. */
  datatype Release = Release(version: U32, intact: bool)

  /** Releases of one domain under way, and (history) the one that published last. */
  datatype Race = Race(st: State, calls: map<nat, Release>, published: Release)

  datatype RaceEvent =
    | Enter(call: nat, version: Option<U32>)                 // guard and `meta` insert
    | Leave(call: nat, snapshot: Snapshot)                   // walked meanwhile, now published
    | Change(disk: Disk, uploading: map<string, U32>)        // whatever else happens; the served version is frozen

  function StillIntact(d: string, release: Release, before: Disk, after: Disk): Release {
    var slot := Slot(d, release.version);
    release.(intact := release.intact && TreeAt(after, slot) == TreeAt(before, slot))
  }

  /** What a walk reads: the whole directory if that stayed as it was, and something of that version anyway. */
  ghost predicate Reads(env: Env, d: string, disk: Disk, release: Release, snapshot: Snapshot) {
    var slot := Slot(d, release.version);
    && NamesOnly(snapshot, slot)
    && (release.intact ==> slot in disk && IsFullSnapshot(env, snapshot, slot, disk[slot]))
  }

  ghost predicate RaceNext(env: Env, d: string, r: Race, e: RaceEvent, r': Race) {
    match e
    case Enter(call, version) =>
      var v := ReleaseTarget(r.st, d, version);
      && call !in r.calls && v.Ok?
      && r' == r.(st := r.st.(meta := r.st.meta[d := v.value]), calls := r.calls[call := Release(v.value, true)])
    case Leave(call, snapshot) =>
      && call in r.calls && Reads(env, d, r.st.disk, r.calls[call], snapshot)
      && r' == Race(r.st.(cache := r.st.cache[d := snapshot]), r.calls - {call}, r.calls[call])
    case Change(disk, uploading) =>
      && d in r.st.meta && TreeAt(disk, Slot(d, r.st.meta[d])) == TreeAt(r.st.disk, Slot(d, r.st.meta[d]))
      && r' == Race(r.st.(disk := disk, uploading := uploading),
                    map call | call in r.calls :: StillIntact(d, r.calls[call], r.st.disk, disk),
                    StillIntact(d, r.published, r.st.disk, disk))
  }

  /** What domain `d` publishes is the snapshot of the version it serves. */
  ghost predicate PublishesServed(env: Env, d: string, r: Race) {
    && d in r.st.meta && d in r.st.cache && Slot(d, r.st.meta[d]) in r.st.disk
    && IsFullSnapshot(env, r.st.cache[d], Slot(d, r.st.meta[d]), r.st.disk[Slot(d, r.st.meta[d])])
  }

  ghost predicate RaceStart(env: Env, d: string, r: Race) {
    r.calls == map[] && PublishesServed(env, d, r) && r.published == Release(r.st.meta[d], true)
  }

  ghost predicate RaceRun(env: Env, d: string, run: seq<Race>, events: seq<RaceEvent>) {
    && |run| == |events| + 1
    && RaceStart(env, d, run[0])
    && forall i :: 0 <= i < |events| ==> RaceNext(env, d, run[i], events[i], run[i + 1])
  }

  ghost predicate Tracks(env: Env, d: string, r: Race) {
    && d in r.st.meta && d in r.st.cache && Slot(d, r.st.meta[d]) in r.st.disk
    && Reads(env, d, r.st.disk, r.published, r.st.cache[d])
    && (forall call :: call in r.calls && r.calls[call].intact ==> Slot(d, r.calls[call].version) in r.st.disk)
  }

  /** Only releases of the version that is served, whose directory is as it was. */
  ghost predicate Steady(d: string, r: Race) {
    d in r.st.meta &&
    if r.calls == map[] then r.published == Release(r.st.meta[d], true)
    else forall call :: call in r.calls ==> r.calls[call] == Release(r.st.meta[d], true)
  }

  lemma StartIsTracked(env: Env, d: string, r: Race)
    requires RaceStart(env, d, r)
    ensures Tracks(env, d, r) && Steady(d, r)
  {
    SnapshotNamesVersion(env, r.st.cache[d], Slot(d, r.st.meta[d]), r.st.disk[Slot(d, r.st.meta[d])]);
  }

  lemma StepKeepsTracked(env: Env, d: string, r: Race, e: RaceEvent, r': Race)
    requires RaceNext(env, d, r, e, r') && Tracks(env, d, r)
    ensures Tracks(env, d, r')
  {
    hide IsFullSnapshot, NamesOnly;
  }

  lemma {:induction false} RaceIsTracked(env: Env, d: string, run: seq<Race>, events: seq<RaceEvent>, i: nat)
    requires RaceRun(env, d, run, events) && i < |run|
    ensures Tracks(env, d, run[i])
  {
    hide RaceNext, Tracks, RaceStart;
    if i == 0 {
      StartIsTracked(env, d, run[0]);
    } else {
      RaceIsTracked(env, d, run, events, i - 1);
      assert RaceNext(env, d, run[i - 1], events[i - 1], run[i]);
      StepKeepsTracked(env, d, run[i - 1], events[i - 1], run[i]);
    }
  }

  /**
   However releases overlap, and whatever happens to versions that are not served meanwhile: while the directory that
   was published last has stayed as it was, or is not the one served, what is published is what is served exactly if
   the last to publish has the version of the last to enter (or nothing was published and nothing is served).
   */
  lemma OverlapIsCoherentExactlyWhen(env: Env, d: string, run: seq<Race>, events: seq<RaceEvent>, i: nat)
    requires RaceRun(env, d, run, events) && i < |run|
    ensures d in run[i].st.meta && Slot(d, run[i].st.meta[d]) in run[i].st.disk && d in run[i].st.cache
    ensures var r := run[i];
            r.published.intact || r.published.version != r.st.meta[d] ==>
              (PublishesServed(env, d, r) <==>
                 || r.published.version == r.st.meta[d]
                 || (r.st.cache[d] == map[] && r.st.disk[Slot(d, r.st.meta[d])].files == map[]))
  {
    hide IsFullSnapshot, RaceNext, RaceStart, NamesOnly;
    RaceIsTracked(env, d, run, events, i);
    var r := run[i];
    if r.published.version != r.st.meta[d] {
      var a, b := Slot(d, r.published.version), Slot(d, r.st.meta[d]);
      SnapshotOfAnother(env, r.st.cache[d], a, b, r.st.disk[b]);
    }
  }

  lemma StepKeepsSteady(env: Env, d: string, r: Race, e: RaceEvent, r': Race)
    requires RaceNext(env, d, r, e, r') && Steady(d, r) && |r.calls| <= 1 && |r'.calls| <= 1
    ensures Steady(d, r')
  {
  }

  lemma SteadyPublishes(env: Env, d: string, r: Race)
    requires Tracks(env, d, r) && Steady(d, r)
    ensures r.calls == map[] ==> PublishesServed(env, d, r)
  {
  }

  /** With one release at a time, the published snapshot is the served version whenever none is under way. */
  lemma {:induction false} OneAtATimeIsCoherent(env: Env, d: string, run: seq<Race>, events: seq<RaceEvent>, i: nat)
    requires RaceRun(env, d, run, events) && i < |run|
    requires forall j :: 0 <= j <= i ==> |run[j].calls| <= 1
    ensures Steady(d, run[i])
    ensures run[i].calls == map[] ==> PublishesServed(env, d, run[i])
  {
    hide RaceNext, RaceStart, Tracks, PublishesServed, Steady;
    RaceIsTracked(env, d, run, events, i);
    if i == 0 {
      StartIsTracked(env, d, run[0]);
    } else {
      OneAtATimeIsCoherent(env, d, run, events, i - 1);
      assert RaceNext(env, d, run[i - 1], events[i - 1], run[i]);
      StepKeepsSteady(env, d, run[i - 1], events[i - 1], run[i]);
    }
    SteadyPublishes(env, d, run[i]);
  }

  lemma RaceOfFour(env: Env, d: string, run: seq<Race>, events: seq<RaceEvent>)
    requires |run| == 5 && |events| == 4 && RaceStart(env, d, run[0])
    requires RaceNext(env, d, run[0], events[0], run[1]) && RaceNext(env, d, run[1], events[1], run[2])
    requires RaceNext(env, d, run[2], events[2], run[3]) && RaceNext(env, d, run[3], events[3], run[4])
    ensures RaceRun(env, d, run, events)
  {
    hide RaceNext, RaceStart;
  }

  lemma TargetIgnoresMeta(s: State, d: string, v: U32, w: U32)
    ensures ReleaseTarget(s.(meta := s.meta[d := v]), d, Some(w)) == ReleaseTarget(s, d, Some(w))
  {
  }

  lemma EnterNext(env: Env, d: string, r: Race, call: nat, v: U32) returns (r': Race)
    requires call !in r.calls && ReleaseTarget(r.st, d, Some(v)) == Ok(v)
    ensures RaceNext(env, d, r, Enter(call, Some(v)), r')
    ensures r'.calls == r.calls[call := Release(v, true)] && r'.st.disk == r.st.disk
    ensures forall w :: ReleaseTarget(r'.st, d, Some(w)) == ReleaseTarget(r.st, d, Some(w))
    ensures d in r'.st.meta && r'.st.meta[d] == v
  {
    r' := r.(st := r.st.(meta := r.st.meta[d := v]), calls := r.calls[call := Release(v, true)]);
    forall w ensures ReleaseTarget(r'.st, d, Some(w)) == ReleaseTarget(r.st, d, Some(w)) {
      TargetIgnoresMeta(r.st, d, v, w);
    }
    hide ReleaseTarget;
  }

  lemma LeaveNext(env: Env, d: string, r: Race, call: nat, m: Snapshot) returns (r': Race)
    requires call in r.calls && r.calls[call].intact
    requires var slot := Slot(d, r.calls[call].version);
             slot in r.st.disk && IsFullSnapshot(env, m, slot, r.st.disk[slot])
    ensures RaceNext(env, d, r, Leave(call, m), r')
    ensures r'.calls == r.calls - {call} && r'.st == r.st.(cache := r.st.cache[d := m])
    ensures r'.published == r.calls[call]
  {
    var slot := Slot(d, r.calls[call].version);
    SnapshotNamesVersion(env, m, slot, r.st.disk[slot]);
    hide IsFullSnapshot, NamesOnly;
    r' := Race(r.st.(cache := r.st.cache[d := m]), r.calls - {call}, r.calls[call]);
  }

  lemma StartHasNoCalls(env: Env, d: string, r: Race)
    requires RaceStart(env, d, r)
    ensures r.calls == map[]
  {
  }

  lemma OverlapSteps(env: Env, d: string, r: Race, v: U32, w: U32, first: Snapshot, second: Snapshot)
    returns (r1: Race, r2: Race, r3: Race, r4: Race)
    requires RaceStart(env, d, r)
    requires ReleaseTarget(r.st, d, Some(v)) == Ok(v) && ReleaseTarget(r.st, d, Some(w)) == Ok(w)
    requires Slot(d, v) in r.st.disk && IsFullSnapshot(env, first, Slot(d, v), r.st.disk[Slot(d, v)])
    requires Slot(d, w) in r.st.disk && IsFullSnapshot(env, second, Slot(d, w), r.st.disk[Slot(d, w)])
    ensures RaceNext(env, d, r, Enter(0, Some(v)), r1) && RaceNext(env, d, r1, Enter(1, Some(w)), r2)
    ensures RaceNext(env, d, r2, Leave(1, second), r3) && RaceNext(env, d, r3, Leave(0, first), r4)
    ensures r4.calls == map[] && r4.published.version == v
    ensures d in r4.st.meta && r4.st.meta[d] == w && d in r4.st.cache && r4.st.cache[d] == first
  {
    StartHasNoCalls(env, d, r);
    hide IsFullSnapshot, RaceStart, ReleaseTarget, RaceNext, PublishesServed;
    r1 := EnterNext(env, d, r, 0, v);
    r2 := EnterNext(env, d, r1, 1, w);
    r3 := LeaveNext(env, d, r2, 1, second);
    r4 := LeaveNext(env, d, r3, 0, first);
  }

  /** Two that overlap break it: the first to enter is the last to publish. */
  lemma OverlapRun(env: Env, d: string, r: Race, v: U32, w: U32, first: Snapshot, second: Snapshot)
    returns (run: seq<Race>, events: seq<RaceEvent>)
    requires RaceStart(env, d, r)
    requires ReleaseTarget(r.st, d, Some(v)) == Ok(v) && ReleaseTarget(r.st, d, Some(w)) == Ok(w) && v != w
    requires Slot(d, v) in r.st.disk && IsFullSnapshot(env, first, Slot(d, v), r.st.disk[Slot(d, v)])
    requires Slot(d, w) in r.st.disk && IsFullSnapshot(env, second, Slot(d, w), r.st.disk[Slot(d, w)])
    requires first != map[]
    ensures RaceRun(env, d, run, events) && run[0] == r && run[|events|].calls == map[]
    ensures !PublishesServed(env, d, run[|events|])
  {
    hide IsFullSnapshot, RaceStart, ReleaseTarget, RaceNext, PublishesServed, RaceRun;
    var r1, r2, r3, r4 := OverlapSteps(env, d, r, v, w, first, second);
    run := [r, r1, r2, r3, r4];
    events := [Enter(0, Some(v)), Enter(1, Some(w)), Leave(1, second), Leave(0, first)];
    RaceOfFour(env, d, run, events);
    OverlapIsCoherentExactlyWhen(env, d, run, events, 4);
  }
}
