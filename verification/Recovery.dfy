/** What crashes cannot do, what saves cannot change, and how the class's release fits the step relation. */
module Recovery {
  import opened Prelude
  import opened Paths
  import opened Disk
  import opened Caching
  import opened Storage
  import opened Retention
  import opened System

  // What a status change may alter

  ghost predicate SameAt(files: map<Path, Bytes>, files': map<Path, Bytes>, p: Path) {
    (p in files <==> p in files') && (p in files ==> files'[p] == files[p])
  }

  /** `left` differs from `disk` at most in the marker of one version. */
  ghost predicate MarkerOnly(disk: Disk, slot: Slot, left: Disk) {
    && (forall other :: other != slot ==> (other in left <==> other in disk))
    && (forall other :: other != slot && other in disk ==> left[other] == disk[other])
    && (slot in disk ==> slot in left)
    && (slot in left ==> left[slot].dirs == At(disk, slot).dirs)
    && (slot in left ==> forall p :: p != MARKER ==> SameAt(left[slot].files, At(disk, slot).files, p))
  }

  lemma PutIsMarkerOnly(disk: Disk, slot: Slot, dir: Dir)
    requires dir.dirs == At(disk, slot).dirs
    requires forall p :: p != MARKER ==> SameAt(dir.files, At(disk, slot).files, p)
    ensures MarkerOnly(disk, slot, disk[slot := dir])
  {
  }

  lemma SessionIsMarkerOnly(s: State, slot: Slot)
    ensures MarkerOnly(s.disk, slot, s.disk)
    ensures MarkerOnly(s.disk, slot, s.disk[slot := At(s.disk, slot)])
    ensures MarkerOnly(s.disk, slot, CloseSession(s, slot).0.disk)
    ensures MarkerOnly(s.disk, slot, OpenSession(s, slot).0.disk)
  {
    var dir := At(s.disk, slot);
    MarkerNotBlocked(dir);
    assert MarkerOnly(s.disk, slot, s.disk);
    PutIsMarkerOnly(s.disk, slot, dir);
    PutIsMarkerOnly(s.disk, slot, WithoutFile(dir, MARKER));
    if MARKER !in dir.dirs {
      assert WithFile(dir, MARKER, []).dirs == dir.dirs;
      PutIsMarkerOnly(s.disk, slot, WithFile(dir, MARKER, []));
    }
    hide MarkerOnly, WithFile, WithoutFile, Blocked, Ancestors;
  }

  /** What a status change, complete or not, may alter: the marker of its version. */
  lemma StatusFrame(s: State, slot: Slot, status: UploadingStatus, left: Disk)
    requires left == StatusStep(s, slot, status).0.disk || Torn(s, Status(slot, status), left)
    ensures MarkerOnly(s.disk, slot, left)
  {
    hide MarkerOnly, CloseSession, OpenSession;
    SessionIsMarkerOnly(s, slot);
  }

  // Unfinished uploads are never served

  /** No delete removes a version of a host that is in session. */
  ghost predicate SparesSessions(s: System, e: Event) {
    match OpOf(e)
    case Delete(domain, reserve) =>
      forall slot :: slot in Doomed(s.st, domain, reserve) && IsHost(slot.domain) ==> !InSession(s.st, slot)
    case _ => true
  }

  /** Every session and every version written to since it was last finished carries its marker on disk. */
  ghost predicate Sealed(s: System) {
    forall slot: Slot :: IsHost(slot.domain) && (InSession(s.st, slot) || slot in s.dirty) ==>
      MarkedHost(s.st.disk, slot)
  }

  lemma StatusKeepsSealed(env: Env, s: System, op: Op, s': System)
    requires Exclusive(s.st) && Sealed(s) && op.Status? && Next(env, s, Call(op), s')
    ensures Sealed(s')
  {
    hide IsHost;
  }

  /** What is left on disk, whole or torn, keeps every marker that a session or a dirty version needs. */
  lemma LeftKeepsMarkers(s: System, op: Op, left: Disk)
    requires Exclusive(s.st) && Sealed(s) && SparesSessions(s, Call(op))
    requires Torn(s.st, op, left) || left == Apply(s.st, op).disk
    ensures forall slot: Slot :: IsHost(slot.domain) && slot in Dirtied(s, op, left) ==> MarkedHost(left, slot)
    ensures !op.Status? ==> forall slot: Slot :: IsHost(slot.domain) && InSession(s.st, slot) ==> MarkedHost(left, slot)
  {
    hide IsHost, WriteFile, TornWrite, Doomed;
    match op
    case Save(slot, target, data) => SaveFrame(s.st, slot, target, data, left);
    case _ =>
  }

  lemma BrokenStatusKeepsSealed(s: System, op: Op, left: Disk)
    requires Sealed(s) && op.Status? && Torn(s.st, op, left)
    ensures Sealed(System(s.st.(disk := left), s.walks, Dirtied(s, op, left)))
  {
  }

  lemma StepKeepsSealed(env: Env, s: System, e: Event, s': System)
    requires Exclusive(s.st) && Sealed(s) && Next(env, s, e, s') && SparesSessions(s, e)
    ensures Sealed(s')
  {
    hide IsHost, Exclusive, Torn, IsBoot, MarkedHost, StatusStep, WriteFile, Doomed, ReleaseTarget;
    match e
    case Call(op) =>
      if op.Status? {
        StatusKeepsSealed(env, s, op, s');
      } else {
        LeftKeepsMarkers(s, op, s'.st.disk);
      }
    case Broken(op) =>
      if op.Status? {
        BrokenStatusKeepsSealed(s, op, s'.st.disk);
      } else {
        LeftKeepsMarkers(s, op, s'.st.disk);
      }
    case Crash(op) =>
      LeftKeepsMarkers(s, op, s'.st.disk);
      CrashLeavesOneMarker(s.st, op, s'.st.disk);
      BootIsExclusive(env, s'.st);
    case _ =>
  }

  lemma ExclusiveBoot(env: Env, s: System)
    requires Start(env, s)
    ensures Sealed(s)
  {
    BootIsExclusive(env, s.st);
  }

  /**
   On every run whose deletes spare the versions being uploaded, and wherever it crashes, no version
   that was written to and not finished since is ever served.
   */
  lemma {:induction false} UnfinishedNeverServed(env: Env, run: seq<System>, events: seq<Event>, i: nat)
    requires Run(env, run, events) && i < |run|
    requires forall j :: 0 <= j < i ==> SparesSessions(run[j], events[j])
    ensures Sealed(run[i])
    ensures forall slot: Slot :: IsHost(slot.domain) && Serves(run[i].st, slot) ==> slot !in run[i].dirty
  {
    hide IsHost, IsBoot, Next, SparesSessions;
    ExclusionOnEveryRun(env, run, events, i);
    if i == 0 {
      ExclusiveBoot(env, run[0]);
    } else {
      UnfinishedNeverServed(env, run, events, i - 1);
      ExclusionOnEveryRun(env, run, events, i - 1);
      assert Next(env, run[i - 1], events[i - 1], run[i]);
      StepKeepsSealed(env, run[i - 1], events[i - 1], run[i]);
    }
  }

  /** An operation elsewhere, even one that is cut off, changes no marker of domain `d`. */
  lemma MarkersElsewhere(s: System, op: Op, left: Disk, slot: Slot)
    requires Exclusive(s.st) && Sealed(s) && SparesSessions(s, Call(op)) && IsHost(slot.domain)
    requires Torn(s.st, op, left) || left == Apply(s.st, op).disk
    requires op.Status? ==> op.slot.domain != slot.domain
    ensures MarkedHost(left, slot) <==> MarkedHost(s.st.disk, slot)
  {
    hide IsHost, StatusStep, SaveStep, TornWrite, Doomed;
    match op
    case Status(slot', status) => StatusFrame(s.st, slot', status, left);
    case Save(slot', target, data) => SaveFrame(s.st, slot', target, data, left);
    case _ =>
  }

  /**
   A restart knows the version that was receiving files before: wherever the process dies, a session
   is there afterwards exactly if it was there before, unless it was itself being opened or closed.
   */
  lemma SessionsSurviveCrash(env: Env, run: seq<System>, events: seq<Event>, i: nat, slot: Slot)
    requires Run(env, run, events) && i < |events| && events[i].Crash? && IsHost(slot.domain)
    requires forall j :: 0 <= j <= i ==> SparesSessions(run[j], events[j])
    requires OpOf(events[i]).Status? ==> OpOf(events[i]).slot.domain != slot.domain
    ensures InSession(run[i + 1].st, slot) <==> InSession(run[i].st, slot)
  {
    hide IsHost, IsBoot, Torn, Apply;
    ExclusionOnEveryRun(env, run, events, i);
    UnfinishedNeverServed(env, run, events, i);
    CrashRecoversSessions(env, run, events, i);
    assert Next(env, run[i], events[i], run[i + 1]);
    MarkersElsewhere(run[i], OpOf(events[i]), run[i + 1].st.disk, slot);
  }

  /** The proviso is exact: a delete keeps unfinished versions sealed if and only if it spares the sessions. */
  lemma DeleteKeepsSealedExactlyWhen(s: System, domain: Option<string>, reserve: Option<U32>)
    requires Exclusive(s.st) && Sealed(s)
    ensures Sealed(s.(st := DeleteStep(s.st, domain, reserve))) <==> SparesSessions(s, Call(Delete(domain, reserve)))
    ensures SparesSessions(s, Call(Delete(domain, reserve))) <==>
              forall slot :: slot in Doomed(s.st, domain, reserve) && IsHost(slot.domain) ==>
                !InSession(s.st, slot) && slot !in s.dirty
  {
  }

  lemma DeleteLeavesSession(env: Env, s0: System, s1: System, domain: Option<string>, reserve: Option<U32>, slot: Slot)
    requires InSession(s0.st, slot) && slot in Doomed(s0.st, domain, reserve)
    requires Next(env, s0, Call(Delete(domain, reserve)), s1)
    ensures InSession(s1.st, slot) && slot !in s1.st.disk
    ensures StatusStep(s1.st, slot, Finish) == (s1.st, Err(Io))
  {
  }

  lemma SaveAfterDelete(env: Env, s1: System, s2: System, slot: Slot, p: Path, data: Bytes)
    requires InSession(s1.st, slot) && slot !in s1.st.disk && p != [] && p[0] != MARKER[0]
    requires Next(env, s1, Call(Save(slot, Some(Target(p, false)), data)), s2)
    ensures slot in s2.dirty && slot in s2.st.disk && !Marked(s2.st.disk[slot])
    ensures forall other :: other != slot ==> (other in s2.st.disk <==> other in s1.st.disk)
    ensures forall other :: other != slot && other in s2.st.disk ==> s2.st.disk[other] == s1.st.disk[other]
  {
  }

  /**
   What happens otherwise: a version in session is deleted, the session lives on and can no longer be finished,
   one more save makes the version again, without a marker, and the next start puts it online unfinished, unless a
   greater version is there to be served.
   */
  lemma DeletedSessionGoesOnline(
    env: Env, s0: System, s1: System, s2: System, s3: System,
    domain: Option<string>, reserve: Option<U32>, slot: Slot, p: Path, data: Bytes)
    requires IsHost(slot.domain) && InSession(s0.st, slot) && slot in Doomed(s0.st, domain, reserve)
    requires p != [] && p[0] != MARKER[0]
    requires Next(env, s0, Call(Delete(domain, reserve)), s1)
    requires Next(env, s1, Call(Save(slot, Some(Target(p, false)), data)), s2)
    requires Next(env, s2, Crash(Idle), s3)
    ensures slot in s3.dirty && StatusStep(s1.st, slot, Finish) == (s1.st, Err(Io))
    ensures Serves(s3.st, slot) <==>
              && 0 < slot.version
              && forall v: U32 :: slot.version < v && Slot(slot.domain, v) in s1.st.disk ==>
                   Marked(s1.st.disk[Slot(slot.domain, v)])
  {
    DeleteLeavesSession(env, s0, s1, domain, reserve, slot);
    SaveAfterDelete(env, s1, s2, slot, p, data);
    hide IsHost, Marked, IsFullSnapshot, Doomed, DeleteStep, StatusStep, SaveStep;
    assert s3.st.disk == s2.st.disk && s3.dirty == s2.dirty;
    StartServesExactly(env, s2.st.disk, s3.st, slot);
    assert forall v: U32 :: slot.version < v ==> Slot(slot.domain, v) != slot;
  }

  ghost function After(s: System, op: Op): System {
    System(Apply(s.st, op), s.walks, Dirtied(s, op, Apply(s.st, op).disk))
  }

  lemma BootKeepsDisk(env: Env, disk: Disk, t: State)
    requires IsBoot(env, disk, t)
    ensures t.disk == disk
  {
  }

  lemma {:induction false} ListingExists(s: set<Path>)
    ensures exists walk :: IsListing(walk, s)
  {
    if s == {} {
      assert IsListing([], s);
    } else {
      var p :| p in s;
      ListingExists(s - {p});
      var walk :| IsListing(walk, s - {p});
      assert p !in walk;
      assert forall q :: q in walk + [p] <==> q in walk || q == p;
      assert IsListing(walk + [p], s);
    }
  }

  lemma BootOfNothing(env: Env)
    ensures IsBoot(env, map[], State(map[], map[], map[], map[]))
  {
  }

  lemma BootOfOne(env: Env, slot: Slot, dir: Dir)
    requires IsHost(slot.domain) && 0 < slot.version && !Marked(dir)
    ensures exists t :: IsBoot(env, map[slot := dir], t)
  {
    hide IsHost, IsFullSnapshot, Marked;
    ListingExists(dir.files.Keys);
    var walk :| IsListing(walk, dir.files.Keys);
    var m := Collect(env, slot, dir.files, walk);
    CollectIsFull(env, slot, dir, walk);
    var t := State(map[slot := dir], map[slot.domain := slot.version], map[], map[slot.domain := m]);
    forall d ensures BootDomain(env, t, d) {
    }
    assert IsBoot(env, map[slot := dir], t);
  }

  /** Opening a version in an otherwise empty store, and deleting it again without ending the session. */
  lemma OpenedAndDeleted(slot: Slot)
    requires slot.version != U32_MAX
    ensures var begun := StatusStep(State(map[], map[], map[], map[]), slot, Uploading).0;
            && begun.meta == map[] && InSession(begun, slot) && slot in Doomed(begun, Some(slot.domain), None)
            && DeleteStep(begun, Some(slot.domain), None).disk == map[]
  {
  }

  lemma ChainOfFour(env: Env, run: seq<System>, events: seq<Event>)
    requires |run| == 5 && |events| == 4 && Start(env, run[0])
    requires Next(env, run[0], events[0], run[1]) && Next(env, run[1], events[1], run[2])
    requires Next(env, run[2], events[2], run[3]) && Next(env, run[3], events[3], run[4])
    ensures Run(env, run, events)
  {
  }

  /** This does happen, on a run of four steps from an empty disk. */
  lemma DeletedSessionRun(env: Env, slot: Slot) returns (run: seq<System>, events: seq<Event>)
    requires IsHost(slot.domain) && 0 < slot.version < U32_MAX
    ensures Run(env, run, events) && |events| == 4 && !SparesSessions(run[1], events[1])
    ensures Serves(run[4].st, slot) && slot in run[4].dirty
  {
    hide IsHost, IsBoot, StatusStep, SaveStep, Doomed, DeleteStep, Marked;
    BootOfNothing(env);
    OpenedAndDeleted(slot);
    var p: Path := ["x"];
    var open, delete, save :=
      Status(slot, Uploading), Delete(Some(slot.domain), None), Save(slot, Some(Target(p, false)), [1]);
    var s0 := System(State(map[], map[], map[], map[]), map[], {});
    var s1 := After(s0, open);
    var s2 := After(s1, delete);
    var s3 := After(s2, save);
    DeleteLeavesSession(env, s1, s2, Some(slot.domain), None, slot);
    SaveAfterDelete(env, s2, s3, slot, p, [1]);
    assert s3.st.disk == map[slot := s3.st.disk[slot]];
    BootOfOne(env, slot, s3.st.disk[slot]);
    var t :| IsBoot(env, s3.st.disk, t);
    BootKeepsDisk(env, s3.st.disk, t);
    var s4 := System(t, map[], s3.dirty);
    assert Next(env, s3, Crash(Idle), s4);
    DeletedSessionGoesOnline(env, s1, s2, s3, s4, Some(slot.domain), None, slot, p, [1]);
    run, events := [s0, s1, s2, s3, s4], [Call(open), Call(delete), Call(save), Crash(Idle)];
    ChainOfFour(env, run, events);
  }

  // Files are written once

  ghost predicate SparesSlot(s: System, e: Event, slot: Slot) {
    match OpOf(e)
    case Delete(domain, reserve) => slot !in Doomed(s.st, domain, reserve)
    case _ => true
  }

  /** Nothing but a save or a status change alters a version that is not deleted. */
  lemma SparedIsUnchanged(env: Env, s: System, e: Event, s': System, slot: Slot)
    requires Next(env, s, e, s') && SparesSlot(s, e, slot) && !OpOf(e).Status? && !OpOf(e).Save?
    ensures slot in s'.st.disk <==> slot in s.st.disk
    ensures slot in s.st.disk ==> s'.st.disk[slot] == s.st.disk[slot]
  {
  }

  ghost predicate HasFile(disk: Disk, slot: Slot, p: Path, bytes: Bytes) {
    slot in disk && p in disk[slot].files && disk[slot].files[p] == bytes
  }

  lemma StatusKeepsFile(s: State, op: Op, left: Disk, slot: Slot, p: Path, bytes: Bytes)
    requires op.Status? && (left == Apply(s, op).disk || Torn(s, op, left))
    requires HasFile(s.disk, slot, p, bytes) && p != MARKER
    ensures HasFile(left, slot, p, bytes)
  {
    hide StatusStep;
    StatusFrame(s, op.slot, op.status, left);
    assert slot == op.slot ==> SameAt(left[slot].files, s.disk[slot].files, p);
  }

  lemma StepKeepsFile(env: Env, s: System, e: Event, s': System, slot: Slot, p: Path, bytes: Bytes)
    requires Next(env, s, e, s') && SparesSlot(s, e, slot)
    requires HasFile(s.st.disk, slot, p, bytes) && p != MARKER
    ensures HasFile(s'.st.disk, slot, p, bytes)
  {
    hide IsHost, WriteFile, TornWrite, Doomed, IsBoot, StatusStep, ReleaseTarget;
    var op := OpOf(e);
    if e.Call? || e.Broken? || e.Crash? {
      match op
      case Status(_, _) => StatusKeepsFile(s.st, op, s'.st.disk, slot, p, bytes);
      case Save(slot', target, data) => SaveFrame(s.st, slot', target, data, s'.st.disk);
      case _ =>
    }
  }

  lemma SaveKeepsDirs(s: State, slot: Slot, target: Option<Target>, data: Bytes, left: Disk, other: Slot)
    requires left == SaveStep(s, slot, target, data).0.disk || Torn(s, Save(slot, target, data), left)
    requires other in s.disk
    ensures other in left && s.disk[other].dirs <= left[other].dirs
  {
  }

  /** Directories stay as well. */
  lemma StepKeepsDir(env: Env, s: System, e: Event, s': System, slot: Slot, p: Path)
    requires Next(env, s, e, s') && SparesSlot(s, e, slot)
    requires slot in s.st.disk && p in s.st.disk[slot].dirs
    ensures slot in s'.st.disk && p in s'.st.disk[slot].dirs
  {
    hide IsHost, WriteFile, TornWrite, Doomed, IsBoot, StatusStep, SaveStep, ReleaseTarget;
    var op := OpOf(e);
    match op
    case Status(slot', status) => StatusFrame(s.st, slot', status, s'.st.disk);
    case Save(slot', target, data) => SaveKeepsDirs(s.st, slot', target, data, s'.st.disk, slot);
    case _ => SparedIsUnchanged(env, s, e, s', slot);
  }

  /** A file other than a marker keeps its bytes, through rewrites, failures and crashes, until its version goes. */
  lemma {:induction false} FilesAreWrittenOnce(
    env: Env, run: seq<System>, events: seq<Event>, i: nat, k: nat, slot: Slot, p: Path, bytes: Bytes)
    requires Run(env, run, events) && i <= k < |run| && p != MARKER
    requires HasFile(run[i].st.disk, slot, p, bytes)
    requires forall j :: i <= j < k ==> SparesSlot(run[j], events[j], slot)
    ensures HasFile(run[k].st.disk, slot, p, bytes)
    decreases k
  {
    hide Next, SparesSlot, HasFile;
    if i < k {
      FilesAreWrittenOnce(env, run, events, i, k - 1, slot, p, bytes);
      assert Next(env, run[k - 1], events[k - 1], run[k]);
      StepKeepsFile(env, run[k - 1], events[k - 1], run[k], slot, p, bytes);
    }
  }

  /** The target exists already: a directory, or a file aimed at as one. */
  predicate Taken(disk: Disk, slot: Slot, t: Target) {
    slot in disk &&
    (t.path == [] || t.path in disk[slot].dirs || (!t.dirOnly && t.path in disk[slot].files))
  }

  /** A new file can be created at the target. */
  predicate Free(disk: Disk, slot: Slot, t: Target) {
    && !t.dirOnly && t.path != [] && !Blocked(At(disk, slot), t.path)
    && t.path !in At(disk, slot).dirs && t.path !in At(disk, slot).files
  }

  /**
   A save in session succeeds exactly if it creates a new file, which then holds all the data, or writes
   nothing to something that exists, and then the disk is as before. So data that is not empty is stored whole or not
   at all.
   */
  lemma SaveSucceedsExactly(s: State, slot: Slot, target: Option<Target>, data: Bytes)
    ensures var (s', r) := SaveStep(s, slot, target, data);
            && (r.Ok? <==>
                  InSession(s, slot) && target.Some? &&
                  (Free(s.disk, slot, target.value) || (data == [] && Taken(s.disk, slot, target.value))))
            && (r.Ok? && Free(s.disk, slot, target.value) ==> HasFile(s'.disk, slot, target.value.path, data))
            && (r.Ok? && !Free(s.disk, slot, target.value) ==> s'.disk == s.disk)
  {
  }

  /** What a save leaves, successful or not: the directories around its target, and the file if it is new. */
  lemma SaveLeaves(s: State, slot: Slot, target: Option<Target>, data: Bytes)
    ensures var s', dir := SaveStep(s, slot, target, data).0, At(s.disk, slot);
            && s' == s.(disk := s'.disk)
            && (InSession(s, slot) && target.Some? && target.value.path != []
                && !Blocked(dir, target.value.path) && target.value.path !in dir.dirs ==>
                  var t := target.value;
                  && slot in s'.disk && s'.disk == s.disk[slot := s'.disk[slot]]
                  && s'.disk[slot].dirs == dir.dirs + Ancestors(t.path)
                  && s'.disk[slot].files == if t.dirOnly || t.path in dir.files then dir.files
                                            else dir.files[t.path := data])
            && (InSession(s, slot) && target.Some?
                && (target.value.path == [] || Blocked(dir, target.value.path) || target.value.path in dir.dirs) ==>
                  s'.disk == s.disk)
            && (!InSession(s, slot) || target.None? ==> s'.disk == s.disk)
  {
    hide Blocked, Ancestors;
    if slot in s.disk {
      assert s.disk[slot := s.disk[slot]] == s.disk;
    }
  }

  // The class's release is a run of release steps

  ghost predicate Chain(env: Env, trace: seq<System>, events: seq<Event>) {
    && |trace| == |events| + 1
    && forall i :: 0 <= i < |events| ==> Next(env, trace[i], events[i], trace[i + 1])
  }

  ghost function Midway(env: Env, s: System, slot: Slot, walk: seq<Path>): System
    requires slot in s.st.disk && forall p :: p in walk ==> p in s.st.disk[slot].files
  {
    s.(st := s.st.(meta := s.st.meta[slot.domain := slot.version]),
       walks := s.walks[slot.domain :=
         Walk(slot.version, Elements(walk), Collect(env, slot, s.st.disk[slot].files, walk))])
  }

  lemma MidwayNext(env: Env, s: System, slot: Slot, walk: seq<Path>, n: nat)
    requires slot in s.st.disk && IsListing(walk, s.st.disk[slot].files.Keys) && n < |walk|
    ensures Next(
              env, Midway(env, s, slot, walk[..n]), Walked(slot.domain, walk[n]), Midway(env, s, slot, walk[..n + 1]))
  {
    hide Visit;
    assert walk[..n + 1][..n] == walk[..n];
    assert walk[..n + 1] == walk[..n] + [walk[n]];
    assert Elements(walk[..n + 1]) == Elements(walk[..n]) + {walk[n]};
    assert walk[n] !in walk[..n];
  }

  lemma {:induction false} WalkChain(
    env: Env, s: System, domain: string, version: Option<U32>, slot: Slot, walk: seq<Path>, n: nat)
    returns (trace: seq<System>, events: seq<Event>)
    requires slot.domain == domain && domain !in s.walks && ReleaseTarget(s.st, domain, version) == Ok(slot.version)
    requires slot in s.st.disk && IsListing(walk, s.st.disk[slot].files.Keys) && n <= |walk|
    ensures Chain(env, trace, events) && trace[0] == s
    ensures trace[|trace| - 1] == Midway(env, s, slot, walk[..n])
  {
    hide ReleaseTarget, Visit;
    if n == 0 {
      trace, events := [s, Midway(env, s, slot, [])], [Begin(domain, version)];
      assert walk[..0] == [];
      assert Elements(walk[..0]) == {};
    } else {
      trace, events := WalkChain(env, s, domain, version, slot, walk, n - 1);
      MidwayNext(env, s, slot, walk, n - 1);
      hide Next;
      trace, events := trace + [Midway(env, s, slot, walk[..n])], events + [Walked(domain, walk[n - 1])];
    }
  }

  /** What `UploadDomainWithVersion` does in one call is a beginning, a walk in the same order and a publication. */
  lemma ReleaseIsAChain(env: Env, s: System, domain: string, version: Option<U32>, v: U32, walk: seq<Path>)
    returns (trace: seq<System>, events: seq<Event>)
    requires domain !in s.walks && ReleaseTarget(s.st, domain, version) == Ok(v)
    requires Slot(domain, v) in s.st.disk && IsListing(walk, s.st.disk[Slot(domain, v)].files.Keys)
    ensures Chain(env, trace, events) && trace[0] == s
    ensures trace[|trace| - 1] == s.(st := Released(env, s.st, Slot(domain, v), walk))
  {
    var slot := Slot(domain, v);
    trace, events := WalkChain(env, s, domain, version, slot, walk, |walk|);
    assert walk[..|walk|] == walk;
    var before, after := trace[|trace| - 1], s.(st := Released(env, s.st, slot, walk));
    assert Elements(walk) == s.st.disk[slot].files.Keys;
    assert before.walks - {domain} == s.walks;
    assert Next(env, before, Publish(domain), after);
    hide Next;
    trace, events := trace + [after], events + [Publish(domain)];
  }
}
