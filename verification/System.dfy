/**
 The store as a transition system. Every operation but release is one step; a release is a step that
 puts the version in `meta`, a step per file walked, and a step that publishes the snapshot. The process
 can die in the middle of any operation and start again, and an operation can break off with an I/O error.
 */
module System {
  import opened Prelude
  import opened Paths
  import opened Disk
  import opened Caching
  import opened Storage
  import opened Retention

  datatype Op =
    | Status(slot: Slot, status: UploadingStatus)
    | Save(slot: Slot, target: Option<Target>, data: Bytes)
    | Delete(domain: Option<string>, reserve: Option<U32>)
    | Idle

  datatype Event =
    | Call(op: Op)                                // completes, whether it succeeds or is refused
    | Begin(domain: string, version: Option<U32>) // release: guard and `meta` insert
    | Walked(domain: string, path: Path)          // release: one more file read
    | Publish(domain: string)                     // release: the snapshot replaces the published one
    | Broken(op: Op)                              // I/O error half-way; the process lives on
    | Crash(op: Op)                               // the process dies during `op`, and `init` runs

  /** A release under way: the version, the files read so far and the snapshot being built. */
  datatype Walk = Walk(version: U32, seen: set<Path>, acc: Snapshot)

  /** `dirty` is history: the versions written to since their marker was last removed. */
  datatype System = System(st: State, walks: map<string, Walk>, dirty: set<Slot>)

  ghost function Apply(s: State, op: Op): State {
    match op
    case Status(slot, status) => StatusStep(s, slot, status).0
    case Save(slot, target, data) => SaveStep(s, slot, target, data).0
    case Delete(domain, reserve) => DeleteStep(s, domain, reserve)
    case Idle => s
  }

  /** Same files except that versions in `doomed` may have lost some or all of theirs. */
  ghost predicate TornDelete(disk: Disk, doomed: set<Slot>, left: Disk) {
    && (forall slot :: slot in left ==> slot in disk)
    && (forall slot :: slot in disk && slot !in doomed ==> slot in left && left[slot] == disk[slot])
    && (forall slot :: slot in doomed && slot in left ==>
          && (forall p :: p in left[slot].files ==> p in disk[slot].files && left[slot].files[p] == disk[slot].files[p])
          && left[slot].dirs <= disk[slot].dirs)
  }

  /** What an operation may leave on disk when it stops before its last effect there. */
  ghost predicate Torn(s: State, op: Op, left: Disk) {
    match op
    case Status(slot, status) =>
      left == s.disk ||
      (status == Uploading && slot.domain !in s.uploading && !Serves(s, slot) &&
       left == s.disk[slot := At(s.disk, slot)])
    case Save(slot, target, data) =>
      left == s.disk ||
      (InSession(s, slot) && target.Some? &&
       exists tree :: TornWrite(TreeAt(s.disk, slot), target.value, data, tree) && left == PutTree(s.disk, slot, tree))
    case Delete(domain, reserve) => TornDelete(s.disk, Doomed(s, domain, reserve), left)
    case Idle => left == s.disk
  }

  /** History: a save that changed anything makes its version dirty, removing the marker makes it clean. */
  ghost function Dirtied(s: System, op: Op, left: Disk): set<Slot> {
    match op
    case Save(slot, _, _) => if left == s.st.disk then s.dirty else s.dirty + {slot}
    case Status(slot, Finish) => if left == s.st.disk then s.dirty else s.dirty - {slot}
    case _ => s.dirty
  }

  // An operation can stop anywhere

  /** A save can stop with some of the enclosing directories made, or after any number of bytes. */
  lemma SaveStopsAnywhere(s: State, slot: Slot, p: Path, data: Bytes, n: nat, dirs: Dir)
    requires InSession(s, slot) && p != [] && !Blocked(At(s.disk, slot), p)
    requires p !in At(s.disk, slot).dirs && p !in At(s.disk, slot).files && n <= |data|
    requires dirs.files == At(s.disk, slot).files
    requires At(s.disk, slot).dirs <= dirs.dirs <= At(s.disk, slot).dirs + Ancestors(p)
    ensures Torn(s, Save(slot, Some(Target(p, false)), data), s.disk)
    ensures Torn(s, Save(slot, Some(Target(p, false)), data), s.disk[slot := dirs])
    ensures Torn(s, Save(slot, Some(Target(p, false)), data), s.disk[slot := WithFile(At(s.disk, slot), p, data[..n])])
  {
    var tree, t, file := TreeAt(s.disk, slot), Target(p, false), WithFile(At(s.disk, slot), p, data[..n]);
    assert TornFile(At(s.disk, slot), p, data, file);
    hide Blocked, Ancestors, WithFile;
    assert TornWrite(tree, t, data, Some(dirs)) && TornWrite(tree, t, data, Some(file));
    assert s.disk[slot := dirs] == PutTree(s.disk, slot, Some(dirs));
    assert s.disk[slot := file] == PutTree(s.disk, slot, Some(file));
  }

  /** A delete can stop with any of the files and directories of the doomed versions gone. */
  lemma DeleteStopsAnywhere(s: State, domain: Option<string>, reserve: Option<U32>, slot: Slot, rest: Dir)
    requires slot in Doomed(s, domain, reserve)
    requires rest.files.Keys <= s.disk[slot].files.Keys && rest.dirs <= s.disk[slot].dirs
    requires forall p :: p in rest.files ==> rest.files[p] == s.disk[slot].files[p]
    ensures Torn(s, Delete(domain, reserve), s.disk)
    ensures Torn(s, Delete(domain, reserve), s.disk - {slot})
    ensures Torn(s, Delete(domain, reserve), s.disk[slot := rest])
  {
  }

  /** Opening a version can stop with the directory made and no marker in it. */
  lemma OpeningStopsAnywhere(s: State, slot: Slot)
    requires slot.domain !in s.uploading && !Serves(s, slot)
    ensures Torn(s, Status(slot, Uploading), s.disk)
    ensures Torn(s, Status(slot, Uploading), s.disk[slot := At(s.disk, slot)])
  {
  }

  ghost predicate Next(env: Env, s: System, e: Event, s': System) {
    match e
    case Call(op) =>
      s' == System(Apply(s.st, op), s.walks, Dirtied(s, op, Apply(s.st, op).disk))
    case Begin(domain, version) =>
      var v := ReleaseTarget(s.st, domain, version);
      && domain !in s.walks && v.Ok?
      && s' == s.(st := s.st.(meta := s.st.meta[domain := v.value]),
                  walks := s.walks[domain := Walk(v.value, {}, map[])])
    case Walked(domain, path) =>
      && domain in s.walks
      && var w, slot := s.walks[domain], Slot(domain, s.walks[domain].version);
      && path in At(s.st.disk, slot).files && path !in w.seen
      && s' == s.(walks := s.walks[domain :=
                    Walk(w.version, w.seen + {path}, Visit(env, w.acc, slot, path, At(s.st.disk, slot).files[path]))])
    case Publish(domain) =>
      && domain in s.walks
      && At(s.st.disk, Slot(domain, s.walks[domain].version)).files.Keys <= s.walks[domain].seen
      && s' == s.(st := s.st.(cache := s.st.cache[domain := s.walks[domain].acc]), walks := s.walks - {domain})
    case Broken(op) =>
      && Torn(s.st, op, s'.st.disk)
      && s' == System(s.st.(disk := s'.st.disk), s.walks, Dirtied(s, op, s'.st.disk))
    case Crash(op) =>
      && (Torn(s.st, op, s'.st.disk) || s'.st.disk == Apply(s.st, op).disk)
      && IsBoot(env, s'.st.disk, s'.st)
      && s'.walks == map[]
      && s'.dirty == Dirtied(s, op, s'.st.disk)
  }

  /** Whatever an operation leaves when it stops, the process can live on with it, or die and start again on it. */
  lemma BreaksOffOrDies(env: Env, s: System, op: Op, left: Disk, t: State)
    ensures Torn(s.st, op, left) ==>
              Next(env, s, Broken(op), System(s.st.(disk := left), s.walks, Dirtied(s, op, left)))
    ensures IsBoot(env, left, t) && (Torn(s.st, op, left) || left == Apply(s.st, op).disk) ==>
              Next(env, s, Crash(op), System(t, map[], Dirtied(s, op, left)))
  {
    hide Torn, Apply, Dirtied;
  }

  predicate MarkedHost(disk: Disk, slot: Slot) {
    slot in disk && IsHost(slot.domain) && Marked(disk[slot])
  }

  /** No host domain has two markers. */
  ghost predicate OneMarker(disk: Disk) {
    forall a, b :: a in disk && b in disk && MarkedHost(disk, a) && MarkedHost(disk, b) && a.domain == b.domain ==>
      a == b
  }

  ghost predicate Start(env: Env, s: System) {
    OneMarker(s.st.disk) && IsBoot(env, s.st.disk, s.st) && s.walks == map[] && s.dirty == {}
  }

  /** `run[i]` becomes `run[i + 1]` by `events[i]`. */
  ghost predicate Run(env: Env, run: seq<System>, events: seq<Event>) {
    && |run| == |events| + 1
    && Start(env, run[0])
    && forall i :: 0 <= i < |events| ==> Next(env, run[i], events[i], run[i + 1])
  }

  function OpOf(e: Event): Op {
    match e
    case Call(op) => op
    case Broken(op) => op
    case Crash(op) => op
    case _ => Idle
  }

  // Exclusion: serving and uploading never meet

  ghost predicate MarkersAreSessions(s: State) {
    forall slot :: slot in s.disk && MarkedHost(s.disk, slot) ==> InSession(s, slot)
  }

  ghost predicate Exclusive(s: State) {
    && MarkersAreSessions(s)
    && forall d :: d in s.meta && d in s.uploading ==> s.meta[d] != s.uploading[d]
  }

  lemma ExclusiveHasOneMarker(s: State)
    requires Exclusive(s)
    ensures OneMarker(s.disk)
  {
  }

  lemma BootIsExclusive(env: Env, s: State)
    requires IsBoot(env, s.disk, s) && OneMarker(s.disk)
    ensures Exclusive(s)
    ensures forall slot: Slot :: IsHost(slot.domain) ==> (InSession(s, slot) <==> MarkedHost(s.disk, slot))
  {
    hide IsHost, IsFullSnapshot;
    forall slot: Slot | IsHost(slot.domain) ensures InSession(s, slot) <==> MarkedHost(s.disk, slot) {
      assert BootDomain(env, s, slot.domain);
      if MarkedHost(s.disk, slot) {
        assert Slot(slot.domain, slot.version) in s.disk;
        assert MarkedHost(s.disk, Slot(slot.domain, s.uploading[slot.domain]));
      }
    }
    forall d | d in s.meta && d in s.uploading ensures s.meta[d] != s.uploading[d] {
      assert BootDomain(env, s, d);
    }
  }

  /** What a start serves: a version above 0, unmarked, with no greater unmarked one. */
  lemma StartServesExactly(env: Env, disk: Disk, t: State, slot: Slot)
    requires IsBoot(env, disk, t) && slot in disk && IsHost(slot.domain)
    ensures Serves(t, slot) <==>
              && 0 < slot.version && !Marked(disk[slot])
              && forall v: U32 :: Slot(slot.domain, v) in disk && !Marked(disk[Slot(slot.domain, v)]) ==>
                   v <= slot.version
  {
    hide IsHost, IsFullSnapshot;
    assert BootDomain(env, t, slot.domain);
    assert Slot(slot.domain, slot.version) in disk;
  }

  /** What a save, complete or not, may change: only the version in session, and there it only adds. */
  lemma SaveFrame(s: State, slot: Slot, target: Option<Target>, data: Bytes, left: Disk)
    requires left == SaveStep(s, slot, target, data).0.disk || Torn(s, Save(slot, target, data), left)
    ensures forall other :: other != slot ==> (other in left <==> other in s.disk)
    ensures forall other :: other != slot && other in s.disk ==> left[other] == s.disk[other]
    ensures left != s.disk ==> InSession(s, slot) && slot in left
    ensures slot in s.disk ==> slot in left
    ensures slot in s.disk ==> forall p :: p in s.disk[slot].files ==>
              p in left[slot].files && left[slot].files[p] == s.disk[slot].files[p]
    ensures slot in s.disk && Marked(s.disk[slot]) ==> Marked(left[slot])
  {
  }

  lemma StatusKeepsExclusive(s: State, slot: Slot, status: UploadingStatus)
    requires Exclusive(s)
    ensures Exclusive(StatusStep(s, slot, status).0)
  {
    hide IsHost;
  }

  lemma ApplyKeepsExclusive(s: State, op: Op)
    requires Exclusive(s)
    ensures Exclusive(Apply(s, op))
  {
    hide IsHost, WriteFile, Doomed, StatusStep;
    match op
    case Status(slot, status) => StatusKeepsExclusive(s, slot, status);
    case Save(slot, target, data) => SaveFrame(s, slot, target, data, Apply(s, op).disk);
    case _ =>
  }

  lemma TornKeepsExclusive(s: State, op: Op, left: Disk)
    requires Exclusive(s) && Torn(s, op, left)
    ensures Exclusive(s.(disk := left))
  {
  }

  lemma CrashLeavesOneMarker(s: State, op: Op, left: Disk)
    requires Exclusive(s) && (Torn(s, op, left) || left == Apply(s, op).disk)
    ensures OneMarker(left)
  {
    if Torn(s, op, left) {
      TornKeepsExclusive(s, op, left);
      ExclusiveHasOneMarker(s.(disk := left));
    } else {
      ApplyKeepsExclusive(s, op);
      ExclusiveHasOneMarker(Apply(s, op));
    }
  }

  lemma StepKeepsExclusive(env: Env, s: System, e: Event, s': System)
    requires Exclusive(s.st) && Next(env, s, e, s')
    ensures Exclusive(s'.st)
  {
    hide IsHost, Apply, Torn, IsBoot, MarkedHost;
    match e
    case Call(op) => ApplyKeepsExclusive(s.st, op);
    case Broken(op) => TornKeepsExclusive(s.st, op, s'.st.disk);
    case Crash(op) =>
      CrashLeavesOneMarker(s.st, op, s'.st.disk);
      BootIsExclusive(env, s'.st);
    case Begin(domain, version) =>
    case _ =>
  }

  /**
   On every run, whatever is deleted and wherever it crashes: a marked version is in session, a
   session is never on the served version, so no served version is marked and no domain has two markers.
   */
  lemma {:induction false} ExclusionOnEveryRun(env: Env, run: seq<System>, events: seq<Event>, i: nat)
    requires Run(env, run, events) && i < |run|
    ensures Exclusive(run[i].st)
    ensures OneMarker(run[i].st.disk)
    ensures forall slot :: Serves(run[i].st, slot) ==> !MarkedHost(run[i].st.disk, slot)
  {
    hide IsHost, IsBoot, Next;
    if i == 0 {
      BootIsExclusive(env, run[0].st);
    } else {
      ExclusionOnEveryRun(env, run, events, i - 1);
      assert Next(env, run[i - 1], events[i - 1], run[i]);
      StepKeepsExclusive(env, run[i - 1], events[i - 1], run[i]);
    }
    ExclusiveHasOneMarker(run[i].st);
  }

  /** After a crash anywhere and the start that follows, the sessions are exactly the markers on disk. */
  lemma CrashRecoversSessions(env: Env, run: seq<System>, events: seq<Event>, i: nat)
    requires Run(env, run, events) && i < |events| && events[i].Crash?
    ensures forall slot: Slot :: IsHost(slot.domain) ==>
              (InSession(run[i + 1].st, slot) <==> MarkedHost(run[i + 1].st.disk, slot))
  {
    ExclusionOnEveryRun(env, run, events, i);
    assert Next(env, run[i], events[i], run[i + 1]);
    CrashLeavesOneMarker(run[i].st, events[i].op, run[i + 1].st.disk);
    BootIsExclusive(env, run[i + 1].st);
  }

  // Coherence: the published snapshot is the served directory

  /** A delete, unless the process dies in it, asks for a reserve that fits. */
  ghost predicate FitsReserve(s: System, e: Event) {
    match e
    case Call(Delete(domain, reserve)) => ReserveFits(s.st, domain, reserve)
    case Broken(Delete(domain, reserve)) => ReserveFits(s.st, domain, reserve)
    case _ => true
  }

  ghost predicate CoherentAt(env: Env, s: System, d: string)
    requires d in s.st.meta && Slot(d, s.st.meta[d]) in s.st.disk
  {
    var slot := Slot(d, s.st.meta[d]);
    if d in s.walks then
      IsSnapshot(env, s.walks[d].acc, slot, s.st.disk[slot].files, s.walks[d].seen)
    else
      d in s.st.cache && IsFullSnapshot(env, s.st.cache[d], slot, s.st.disk[slot])
  }

  ghost predicate Coherent(env: Env, s: System) {
    && (forall d :: d in s.st.meta ==> Slot(d, s.st.meta[d]) in s.st.disk)
    && (forall d :: d in s.walks ==> d in s.st.meta && s.walks[d].version == s.st.meta[d])
    && (forall d :: d in s.st.meta && IsHost(d) ==> CoherentAt(env, s, d))
  }

  lemma ServedIsSpared(s: State, domain: Option<string>, reserve: Option<U32>, slot: Slot)
    requires slot in s.disk && Serves(s, slot) && ReserveFits(s, domain, reserve)
    ensures slot !in Doomed(s, domain, reserve)
  {
  }

  /** Short of a crash or a new release of its domain, the served directory is frozen. */
  lemma ServedIsFrozen(env: Env, s: System, e: Event, s': System, slot: Slot)
    requires Exclusive(s.st) && Next(env, s, e, s') && FitsReserve(s, e) && !e.Crash?
    requires slot in s.st.disk && Serves(s.st, slot) && (e.Begin? ==> e.domain != slot.domain)
    ensures Serves(s'.st, slot) && slot in s'.st.disk
    ensures IsHost(slot.domain) ==> s'.st.disk[slot] == s.st.disk[slot]
  {
    hide IsHost, WriteFile, TornWrite, Doomed, ReserveFits;
    match OpOf(e)
    case Save(slot', target, data) => SaveFrame(s.st, slot', target, data, s'.st.disk);
    case Delete(domain, reserve) => ServedIsSpared(s.st, domain, reserve, slot);
    case _ =>
  }

  lemma BootIsCoherent(env: Env, s: System)
    requires IsBoot(env, s.st.disk, s.st) && s.walks == map[]
    ensures Coherent(env, s)
  {
    hide IsHost, IsFullSnapshot;
    forall d | d in s.st.meta
      ensures Slot(d, s.st.meta[d]) in s.st.disk && d in s.st.cache
              && IsFullSnapshot(env, s.st.cache[d], Slot(d, s.st.meta[d]), s.st.disk[Slot(d, s.st.meta[d])])
    {
      assert BootDomain(env, s.st, d);
    }
  }

  lemma ReleaseKeepsOthers(env: Env, s: System, e: Event, s': System)
    requires Coherent(env, s) && Next(env, s, e, s') && (e.Begin? || e.Walked? || e.Publish?)
    ensures s'.st.disk == s.st.disk
    ensures forall d :: d in s'.walks ==> d in s'.st.meta && s'.walks[d].version == s'.st.meta[d]
    ensures forall d :: d in s'.st.meta ==> Slot(d, s'.st.meta[d]) in s'.st.disk
    ensures forall d :: d in s'.st.meta && d != e.domain && IsHost(d) ==> CoherentAt(env, s', d)
  {
  }

  lemma ReleaseKeepsOwn(env: Env, s: System, e: Event, s': System)
    requires Coherent(env, s) && Next(env, s, e, s') && (e.Begin? || e.Walked? || e.Publish?) && IsHost(e.domain)
    ensures e.domain in s'.st.meta && Slot(e.domain, s'.st.meta[e.domain]) in s'.st.disk
    ensures CoherentAt(env, s', e.domain)
  {
    hide IsHost, KeyOf, MakeItem;
    var d := e.domain;
    var slot := Slot(d, s'.st.meta[d]);
    if e.Walked? {
      hide IsSnapshot;
      assert CoherentAt(env, s, d);
      VisitExtends(env, s.walks[d].acc, slot, s.st.disk[slot].files, s.walks[d].seen, e.path);
    } else if e.Publish? {
      assert CoherentAt(env, s, d);
      assert s.walks[d].seen == s.st.disk[slot].files.Keys;
    }
  }

  /** Each step of a release keeps every domain coherent. */
  lemma ReleaseKeepsCoherent(env: Env, s: System, e: Event, s': System)
    requires Coherent(env, s) && Next(env, s, e, s') && (e.Begin? || e.Walked? || e.Publish?)
    ensures Coherent(env, s')
  {
    hide IsHost, CoherentAt, Next;
    ReleaseKeepsOthers(env, s, e, s');
    if IsHost(e.domain) {
      ReleaseKeepsOwn(env, s, e, s');
    }
  }

  /** Only releases and starts change what is served and published. */
  lemma ServingUntouched(s: System, e: Event, env: Env, s': System)
    requires Next(env, s, e, s') && (e.Call? || e.Broken?)
    ensures s'.st.meta == s.st.meta && s'.st.cache == s.st.cache && s'.walks == s.walks
  {
  }

  lemma StepKeepsCoherent(env: Env, s: System, e: Event, s': System)
    requires Exclusive(s.st) && Coherent(env, s) && Next(env, s, e, s') && FitsReserve(s, e)
    ensures Coherent(env, s')
  {
    hide IsHost, IsSnapshot, Exclusive;
    if e.Crash? {
      BootIsCoherent(env, s');
    } else if e.Call? || e.Broken? {
      ServingUntouched(s, e, env, s');
      forall d | d in s'.st.meta
        ensures Slot(d, s'.st.meta[d]) in s'.st.disk && (IsHost(d) ==> CoherentAt(env, s', d))
      {
        ServedIsFrozen(env, s, e, s', Slot(d, s.st.meta[d]));
        assert IsHost(d) ==> CoherentAt(env, s, d);
      }
    } else {
      ReleaseKeepsCoherent(env, s, e, s');
    }
  }

  /** The proviso is exact: a delete leaves a coherent store coherent if and only if its reserve fits. */
  lemma DeleteKeepsCoherentExactlyWhen(env: Env, s: System, domain: Option<string>, reserve: Option<U32>)
    requires Coherent(env, s)
    ensures Coherent(env, s.(st := DeleteStep(s.st, domain, reserve))) <==> ReserveFits(s.st, domain, reserve)
  {
    hide IsHost, IsSnapshot;
    var s' := s.(st := DeleteStep(s.st, domain, reserve));
    forall slot | slot in s.st.disk && Serves(s.st, slot)
      ensures slot in s'.st.disk <==> (reserve.Some? && Targeted(domain, slot) ==> reserve.value <= slot.version)
    {
    }
    forall d | d in s.st.meta && IsHost(d) && Slot(d, s.st.meta[d]) in s'.st.disk ensures CoherentAt(env, s', d) {
      assert CoherentAt(env, s, d);
    }
  }

  /**
   On every run whose deletes ask for a reserve that fits: each domain serves a version that exists,
   and (outside a release of it) what is published is exactly the snapshot of that version on disk.
   */
  lemma {:induction false} CoherenceOnEveryRun(env: Env, run: seq<System>, events: seq<Event>, i: nat)
    requires Run(env, run, events) && i < |run|
    requires forall j :: 0 <= j < i ==> FitsReserve(run[j], events[j])
    ensures Coherent(env, run[i])
  {
    hide IsBoot, Next, Coherent, FitsReserve;
    if i == 0 {
      BootIsCoherent(env, run[0]);
    } else {
      CoherenceOnEveryRun(env, run, events, i - 1);
      ExclusionOnEveryRun(env, run, events, i - 1);
      assert Next(env, run[i - 1], events[i - 1], run[i]);
      StepKeepsCoherent(env, run[i - 1], events[i - 1], run[i]);
    }
  }

  /** So the file behind every published item is still there, and still as long as recorded. */
  lemma PublishedFilesExist(env: Env, s: System, d: string, key: string)
    requires Coherent(env, s) && d in s.st.meta && IsHost(d) && d !in s.walks && d in s.st.cache && key in s.st.cache[d]
    ensures var item := s.st.cache[d][key];
            var ref := item.data.path;
            && ref.slot == Slot(d, s.st.meta[d]) && ref.slot in s.st.disk
            && ref.path in s.st.disk[ref.slot].files
            && KeyOf(env, ref.slot, ref.path) == key
            && item == MakeItem(env, ref.slot, ref.path, s.st.disk[ref.slot].files[ref.path])
            && item.len == |s.st.disk[ref.slot].files[ref.path]|
  {
    hide IsHost, KeyOf;
    var slot := Slot(d, s.st.meta[d]);
    assert CoherentAt(env, s, d);
    var files := s.st.disk[slot].files;
    assert Owned(env, s.st.cache[d], slot, files, files.Keys, key);
    var p :| p in files.Keys && KeyOf(env, slot, p) == key && s.st.cache[d][key] == MakeItem(env, slot, p, files[p]);
  }

  // Isolation of a slow release

  /** `events[i]` begins a release of `d` that is still walking at `run[k]`. */
  ghost predicate Walking(events: seq<Event>, i: nat, k: nat, d: string)
    requires i < k <= |events|
  {
    && events[i].Begin? && events[i].domain == d
    && forall j :: i < j < k ==> !events[j].Crash? && events[j] != Publish(d)
  }

  lemma BeginServes(env: Env, s: System, e: Event, s': System)
    requires e.Begin? && Next(env, s, e, s')
    ensures e.domain in s'.walks && e.domain in s'.st.meta && Slot(e.domain, s'.st.meta[e.domain]) in s'.st.disk
    ensures s'.st.disk == s.st.disk && s'.st.cache == s.st.cache
  {
  }

  ghost predicate SamePublished(s: System, s': System, d: string) {
    (d in s.st.cache <==> d in s'.st.cache) && (d in s.st.cache ==> s'.st.cache[d] == s.st.cache[d])
  }

  lemma WalkStep(env: Env, s: System, e: Event, s': System, d: string)
    requires Exclusive(s.st) && Next(env, s, e, s') && FitsReserve(s, e) && !e.Crash? && e != Publish(d)
    requires d in s.walks && d in s.st.meta && Slot(d, s.st.meta[d]) in s.st.disk && IsHost(d)
    ensures d in s'.walks && d in s'.st.meta && s'.st.meta[d] == s.st.meta[d] && SamePublished(s, s', d)
    ensures Slot(d, s.st.meta[d]) in s'.st.disk && s'.st.disk[Slot(d, s.st.meta[d])] == s.st.disk[Slot(d, s.st.meta[d])]
  {
    hide IsHost, Exclusive, FitsReserve;
    ServedIsFrozen(env, s, e, s', Slot(d, s.st.meta[d]));
    if e.Call? || e.Broken? {
      ServingUntouched(s, e, env, s');
    }
  }

  /**
   While a release walks, whatever saves, status changes, deletes and other releases happen, the
   directory keeps the contents it had when the release began, and readers see the old snapshot.
   */
  lemma {:induction false} SlowReleaseIsolated(
    env: Env, run: seq<System>, events: seq<Event>, i: nat, k: nat, d: string)
    requires Run(env, run, events) && i < k <= |events| && IsHost(d) && Walking(events, i, k, d)
    requires forall j :: 0 <= j < k ==> FitsReserve(run[j], events[j])
    ensures d in run[i + 1].st.meta && Slot(d, run[i + 1].st.meta[d]) in run[i].st.disk
    ensures d in run[k].walks && d in run[k].st.meta && run[k].st.meta[d] == run[i + 1].st.meta[d]
    ensures Slot(d, run[i + 1].st.meta[d]) in run[k].st.disk
    ensures run[k].st.disk[Slot(d, run[i + 1].st.meta[d])] == run[i].st.disk[Slot(d, run[i + 1].st.meta[d])]
    ensures SamePublished(run[i], run[k], d)
  {
    hide IsHost, IsBoot, Next, FitsReserve;
    assert Next(env, run[i], events[i], run[i + 1]);
    BeginServes(env, run[i], events[i], run[i + 1]);
    if k > i + 1 {
      SlowReleaseIsolated(env, run, events, i, k - 1, d);
      ExclusionOnEveryRun(env, run, events, k - 1);
      assert Next(env, run[k - 1], events[k - 1], run[k]);
      WalkStep(env, run[k - 1], events[k - 1], run[k], d);
    }
  }

  lemma PublishLeaves(env: Env, s: System, s': System, d: string)
    requires Next(env, s, Publish(d), s')
    ensures d !in s'.walks && s'.st.meta == s.st.meta && s'.st.disk == s.st.disk
  {
  }

  /** And what it publishes is the snapshot of the whole directory as it was at the beginning and is at the end. */
  lemma SlowReleasePublishesExactly(env: Env, run: seq<System>, events: seq<Event>, i: nat, k: nat, d: string)
    requires Run(env, run, events) && i < k < |events| && IsHost(d)
    requires Walking(events, i, k, d) && events[k] == Publish(d)
    requires forall j :: 0 <= j < k ==> FitsReserve(run[j], events[j])
    ensures d in run[k + 1].st.meta && d in run[k + 1].st.cache
    ensures var slot := Slot(d, run[k + 1].st.meta[d]);
            && slot in run[i].st.disk && slot in run[k + 1].st.disk
            && run[k + 1].st.disk[slot] == run[i].st.disk[slot]
            && IsFullSnapshot(env, run[k + 1].st.cache[d], slot, run[i].st.disk[slot])
  {
    hide IsHost, IsBoot, Next, IsFullSnapshot;
    SlowReleaseIsolated(env, run, events, i, k, d);
    assert Next(env, run[k], events[k], run[k + 1]);
    PublishLeaves(env, run[k], run[k + 1], d);
    CoherenceOnEveryRun(env, run, events, k + 1);
    assert CoherentAt(env, run[k + 1], d);
  }
}
