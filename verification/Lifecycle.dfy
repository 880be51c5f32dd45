/** A version's way from upload position to release, request and restart. */
module Lifecycle {
  import opened Prelude
  import opened Paths
  import opened Keys
  import opened Disk
  import opened Caching
  import opened Storage
  import opened Retention
  import opened System
  import opened Recovery
  import opened Serving

  // The upload position

  /** The version number offered for a new version is new exactly when the greatest is not the last `u32`. */
  lemma PositionIsFresh(s: State, d: string)
    requires d !in s.uploading
    ensures (forall v :: v in VersionsOf(s.disk, d) ==> v < PositionOf(s, d).version) <==>
              (VersionsOf(s.disk, d) == {} || Max(VersionsOf(s.disk, d)) < U32_MAX)
  {
  }

  /** The open session if there is one, version 1 for a new domain, else one past the greatest, which wraps to 0. */
  lemma PositionExactly(s: State, d: string)
    ensures d in s.uploading ==> PositionOf(s, d) == UploadPosition(s.uploading[d], InUploading)
    ensures d !in s.uploading && (forall v: U32 :: Slot(d, v) !in s.disk) ==>
              PositionOf(s, d) == UploadPosition(1, NewDomain)
    ensures forall w: U32 ::
              d !in s.uploading && Slot(d, w) in s.disk && (forall v: U32 :: Slot(d, v) in s.disk ==> v <= w) ==>
                PositionOf(s, d) == UploadPosition(if w < 0xFFFF_FFFF then w + 1 else 0, NewVersion)
  {
    var vs := VersionsOf(s.disk, d);
    forall w: U32 | d !in s.uploading && Slot(d, w) in s.disk && (forall v: U32 :: Slot(d, v) in s.disk ==> v <= w)
      ensures PositionOf(s, d) == UploadPosition(if w < 0xFFFF_FFFF then w + 1 else 0, NewVersion)
    {
      assert w in vs;
      assert Slot(d, Max(vs)) in s.disk;
    }
    if vs != {} {
      var v :| v in vs;
      assert Slot(d, v) in s.disk;
    }
  }

  /** In every state of a run the offered position can be begun (or is open), and a new one is empty. */
  lemma PositionIsAccepted(env: Env, run: seq<System>, events: seq<Event>, i: nat, d: string)
    requires Run(env, run, events) && i < |run|
    requires forall j :: 0 <= j < i ==> FitsReserve(run[j], events[j])
    requires var vs := VersionsOf(run[i].st.disk, d); vs != {} ==> Max(vs) < U32_MAX
    ensures var s, slot := run[i].st, Slot(d, PositionOf(run[i].st, d).version);
            && StatusStep(s, slot, Uploading).1 == Ok(())
            && InSession(StatusStep(s, slot, Uploading).0, slot)
            && (PositionOf(s, d).status != InUploading ==>
                  && slot !in s.disk
                  && StatusStep(s, slot, Uploading).0.disk[slot].files == map[MARKER := []])
  {
    hide Run, FitsReserve, IsHost;
    CoherenceOnEveryRun(env, run, events, i);
    var s := run[i].st;
    var slot := Slot(d, PositionOf(s, d).version);
    if d !in s.uploading {
      PositionIsFresh(s, d);
      assert slot.version !in VersionsOf(s.disk, d);
      assert slot !in s.disk;
      assert !Serves(s, slot);
      MarkerNotBlocked(EMPTY_DIR);
    }
  }

  // Restart

  /**
   A release of the latest version survives a restart: release takes the greatest version of all and a
   start the greatest unmarked one, but the session guard makes them the same.
   */
  lemma ReleasedLatestSurvivesRestart(
    env: Env, run: seq<System>, events: seq<Event>, i: nat, d: string, v: U32, walk: seq<Path>, t: State)
    requires Run(env, run, events) && i < |run| && IsHost(d)
    requires ReleaseTarget(run[i].st, d, None) == Ok(v) && 0 < v
    requires Slot(d, v) in run[i].st.disk && IsListing(walk, run[i].st.disk[Slot(d, v)].files.Keys)
    requires IsBoot(env, run[i].st.disk, t)
    ensures var s, slot := Released(env, run[i].st, Slot(d, v), walk), Slot(d, v);
            && d in t.meta && t.meta[d] == v == s.meta[d] && d in t.cache
            && IsFullSnapshot(env, t.cache[d], slot, t.disk[slot])
            && IsFullSnapshot(env, s.cache[d], slot, t.disk[slot])
            && (CleanNames(env, slot, t.disk[slot].files) ==> t.cache[d] == s.cache[d])
  {
    hide Run, IsHost, CleanNames, IsFullSnapshot;
    ExclusionOnEveryRun(env, run, events, i);
    var disk, slot := run[i].st.disk, Slot(d, v);
    assert !MarkedHost(disk, slot);
    forall w: U32 | Slot(d, w) in disk ensures w <= v {
      assert w in VersionsOf(disk, d);
    }
    StartServesExactly(env, disk, t, slot);
    assert BootDomain(env, t, d);
    CollectIsFull(env, slot, disk[slot], walk);
    if CleanNames(env, slot, disk[slot].files) {
      SnapshotsAgree(env, Collect(env, slot, disk[slot].files, walk), t.cache[d], slot, disk[slot]);
    }
  }

  /**
   A marked version must not go online. After a start this holds exactly for domains whose name the
   start recognises: it skips the directories of all others, and with them their markers.
   */
  lemma MarkedGoesOnlineExactlyWhen(env: Env, disk: Disk, t: State, slot: Slot)
    requires IsBoot(env, disk, t) && slot in disk && Marked(disk[slot])
    requires forall other :: other in disk && other.domain == slot.domain && Marked(disk[other]) ==> other == slot
    ensures ReleaseTarget(t, slot.domain, Some(slot.version)) == Ok(slot.version) <==> !IsHost(slot.domain)
  {
    hide IsHost, IsFullSnapshot;
    assert BootDomain(env, t, slot.domain);
    assert Slot(slot.domain, slot.version) in disk;
  }

  /** For one "localhost", a name without a dot, which is no host. */
  lemma MarkedLocalhostGoesOnline(env: Env, disk: Disk, t: State, v: U32)
    requires IsBoot(env, disk, t) && Slot("localhost", v) in disk && Marked(disk[Slot("localhost", v)])
    requires forall w: U32 :: Slot("localhost", w) in disk && Marked(disk[Slot("localhost", w)]) ==> w == v
    ensures ReleaseTarget(t, "localhost", Some(v)) == Ok(v)
  {
    var slot := Slot("localhost", v);
    assert !IsHost("localhost") by {
      assert forall k :: 0 <= k < |"localhost"| ==> "localhost"[k] != '.';
    }
    hide IsHost, IsBoot, Marked;
    forall other | other in disk && other.domain == slot.domain && Marked(disk[other]) ensures other == slot {
      assert other == Slot("localhost", other.version);
    }
    MarkedGoesOnlineExactlyWhen(env, disk, t, slot);
  }

  lemma SameOpFits(s: System, op: Op)
    ensures FitsReserve(s, Broken(op)) <==> FitsReserve(s, Call(op))
  {
  }

  lemma ServedOutlivesCrash(env: Env, s: System, e: Event, s': System, slot: Slot)
    requires Exclusive(s.st) && Next(env, s, e, s') && e.Crash? && FitsReserve(s, Call(e.op))
    requires slot in s.st.disk && Serves(s.st, slot) && IsHost(slot.domain)
    ensures slot in s'.st.disk && s'.st.disk[slot] == s.st.disk[slot]
  {
    hide Torn, Apply, FitsReserve, IsHost, IsBoot, Dirtied;
    var op, left := e.op, s'.st.disk;
    if Torn(s.st, op, left) {
      var t := System(s.st.(disk := left), s.walks, Dirtied(s, op, left));
      SameOpFits(s, op);
      ServedIsFrozen(env, s, Broken(op), t, slot);
    } else {
      var t := System(Apply(s.st, op), s.walks, Dirtied(s, op, Apply(s.st, op).disk));
      ServedIsFrozen(env, s, Call(op), t, slot);
    }
  }

  /**
   A restart after a crash anywhere goes on serving the same version exactly if that is not version 0 and no
   greater version was left without a marker: finished but not released, or empty, or half deleted.
   */
  lemma RestartKeepsServedExactlyWhen(env: Env, run: seq<System>, events: seq<Event>, i: nat, slot: Slot)
    requires Run(env, run, events) && i < |events| && events[i].Crash? && IsHost(slot.domain)
    requires (forall j :: 0 <= j < i ==> FitsReserve(run[j], events[j])) && FitsReserve(run[i], Call(events[i].op))
    requires Serves(run[i].st, slot)
    ensures slot in run[i].st.disk && slot in run[i + 1].st.disk
    ensures run[i + 1].st.disk[slot] == run[i].st.disk[slot]
    ensures Serves(run[i + 1].st, slot) <==>
              && 0 < slot.version
              && forall v: U32 :: slot.version < v && Slot(slot.domain, v) in run[i + 1].st.disk ==>
                   Marked(run[i + 1].st.disk[Slot(slot.domain, v)])
  {
    hide IsHost, FitsReserve, Torn, Apply, Exclusive, IsBoot, Marked;
    ExclusionOnEveryRun(env, run, events, i);
    CoherenceOnEveryRun(env, run, events, i);
    assert Next(env, run[i], events[i], run[i + 1]);
    assert !MarkedHost(run[i].st.disk, slot);
    ServedOutlivesCrash(env, run[i], events[i], run[i + 1], slot);
    StartServesExactly(env, run[i + 1].st.disk, run[i + 1].st, slot);
  }

  /** What a restart puts online was there without a marker before, or the operation it died in made it so. */
  ghost predicate Accounts(s: System, op: Op, left: Disk, slot: Slot) {
    || (slot in s.st.disk && !Marked(s.st.disk[slot]) && slot in left && left[slot] == s.st.disk[slot])
    || (op == Status(slot, Finish) && InSession(s.st, slot))
    || (op == Status(slot, Uploading) && slot !in s.st.disk && slot in left && left[slot] == EMPTY_DIR)
    || (op.Delete? && slot in Doomed(s.st, op.domain, op.reserve) && !Marked(s.st.disk[slot]) && slot in left
        && left[slot].files.Keys <= s.st.disk[slot].files.Keys)
  }

  lemma StatusAccounts(s: System, op: Op, left: Disk, slot: Slot)
    requires Exclusive(s.st) && op.Status? && (Torn(s.st, op, left) || left == Apply(s.st, op).disk)
    requires IsHost(slot.domain) && slot in left && !Marked(left[slot])
    ensures Accounts(s, op, left, slot)
  {
    hide IsHost;
    if op.slot != slot {
      assert slot in s.st.disk && left[slot] == s.st.disk[slot];
    } else if slot in s.st.disk && Marked(s.st.disk[slot]) {
      assert MarkedHost(s.st.disk, slot);
      assert InSession(s.st, slot);
    }
  }

  lemma LeftAccounts(s: System, op: Op, left: Disk, slot: Slot)
    requires Exclusive(s.st) && Sealed(s) && SparesSessions(s, Call(op)) && IsHost(slot.domain)
    requires Torn(s.st, op, left) || left == Apply(s.st, op).disk
    requires slot in left && !Marked(left[slot])
    ensures Accounts(s, op, left, slot)
  {
    hide IsHost, StatusStep, TornWrite, WriteFile, Doomed;
    match op
    case Status(_, _) => StatusAccounts(s, op, left, slot);
    case Save(slot', target, data) =>
      SaveFrame(s.st, slot', target, data, left);
      assert InSession(s.st, slot) ==> MarkedHost(s.st.disk, slot);
    case Delete(domain, reserve) =>
      assert slot in s.st.disk && Marked(s.st.disk[slot]) ==> MarkedHost(s.st.disk, slot);
    case Idle =>
  }

  lemma BootServesUnmarked(env: Env, t: State, slot: Slot)
    requires IsBoot(env, t.disk, t) && Serves(t, slot)
    ensures slot in t.disk && !Marked(t.disk[slot])
  {
    hide IsHost, IsFullSnapshot, Marked;
    assert BootDomain(env, t, slot.domain);
  }

  /**
   On every run whose deletes spare sessions, a version served after a crash was on disk without a marker before,
   as it is now, unless the crash hit its own Finish, its own opening (then it is empty) or its own deletion (then
   part of it may be gone).
   */
  lemma RestartServesOnly(env: Env, run: seq<System>, events: seq<Event>, i: nat, slot: Slot)
    requires Run(env, run, events) && i < |events| && events[i].Crash? && IsHost(slot.domain)
    requires forall j :: 0 <= j <= i ==> SparesSessions(run[j], events[j])
    requires Serves(run[i + 1].st, slot)
    ensures Accounts(run[i], events[i].op, run[i + 1].st.disk, slot)
  {
    hide IsHost, Torn, Apply, IsBoot, Exclusive, Sealed, Accounts, Marked;
    ExclusionOnEveryRun(env, run, events, i);
    UnfinishedNeverServed(env, run, events, i);
    assert Next(env, run[i], events[i], run[i + 1]);
    BootServesUnmarked(env, run[i + 1].st, slot);
    LeftAccounts(run[i], events[i].op, run[i + 1].st.disk, slot);
  }

  /** The empty version that an opening cut off before its marker leaves goes online unless a greater one does. */
  lemma CutOpeningGoesOnline(env: Env, s: State, slot: Slot, t: State)
    requires slot !in s.disk && slot.domain !in s.uploading && !Serves(s, slot) && IsHost(slot.domain)
    requires IsBoot(env, s.disk[slot := EMPTY_DIR], t)
    ensures Torn(s, Status(slot, Uploading), s.disk[slot := EMPTY_DIR])
    ensures Serves(t, slot) <==>
              && 0 < slot.version
              && forall v: U32 :: slot.version < v && Slot(slot.domain, v) in s.disk ==>
                   Marked(s.disk[Slot(slot.domain, v)])
  {
    hide IsHost, IsBoot;
    var left := s.disk[slot := EMPTY_DIR];
    StartServesExactly(env, left, t, slot);
    assert forall v: U32 :: Slot(slot.domain, v) in left ==> v == slot.version || Slot(slot.domain, v) in s.disk;
    assert forall v: U32 :: slot.version < v ==> Slot(slot.domain, v) != slot;
  }

  // From upload to request

  datatype SavedFile = SavedFile(path: Path, data: Bytes)

  /** Plain paths, none a marker or inside one, none equal to or inside another. */
  ghost predicate Uploadable(ups: seq<SavedFile>) {
    && (forall i :: 0 <= i < |ups| ==> IsPlain(ups[i].path) && ups[i].path[0] != MARKER[0])
    && (forall i, j :: 0 <= i < |ups| && 0 <= j < |ups| && i != j ==> Apart(ups[i].path, ups[j].path))
  }

  /** The saves in order, each under the percent-encoded absolute name of its path. */
  function SaveAll(coding: PercentCoding, s: State, slot: Slot, ups: seq<SavedFile>): (State, bool) {
    if ups == [] then (s, true)
    else
      var n := |ups| - 1;
      var (before, ok) := SaveAll(coding, s, slot, ups[..n]);
      var tail := coding.encode("/" + Join(ups[n].path));
      var (after, r) := SaveStep(before, slot, SaveTarget(coding, tail), ups[n].data);
      (after, ok && r.Ok?)
  }

  ghost function Stored(ups: seq<SavedFile>): map<Path, Bytes> {
    if ups == [] then map[MARKER := []]
    else
      var n := |ups| - 1;
      Stored(ups[..n])[ups[n].path := ups[n].data]
  }

  ghost function Enclosing(ups: seq<SavedFile>): set<Path> {
    set i, p | 0 <= i < |ups| && p in Ancestors(ups[i].path) :: p
  }

  lemma {:induction false} StoredContents(ups: seq<SavedFile>)
    requires Uploadable(ups)
    ensures forall p :: p in Stored(ups) <==> p == MARKER || exists i :: 0 <= i < |ups| && ups[i].path == p
    ensures forall i :: 0 <= i < |ups| ==> ups[i].path in Stored(ups) && Stored(ups)[ups[i].path] == ups[i].data
  {
    hide IsPlain;
    if ups != [] {
      var n := |ups| - 1;
      var shorter := ups[..n];
      assert Uploadable(shorter);
      StoredContents(shorter);
      forall p ensures p in Stored(ups) <==> p == MARKER || exists i :: 0 <= i < |ups| && ups[i].path == p {
        if i :| 0 <= i < |ups| && ups[i].path == p {
          assert i < n ==> shorter[i].path == p;
        }
      }
      forall i | 0 <= i < |ups| ensures ups[i].path in Stored(ups) && Stored(ups)[ups[i].path] == ups[i].data {
        if i < n {
          assert shorter[i] == ups[i] && Apart(ups[i].path, ups[n].path);
        }
      }
    }
  }

  /** The last save of a list finds its place free. */
  lemma RoomForLast(ups: seq<SavedFile>, dir: Dir)
    requires Uploadable(ups) && ups != []
    requires dir.files == Stored(ups[..|ups| - 1]) && dir.dirs == Enclosing(ups[..|ups| - 1])
    ensures var p := ups[|ups| - 1].path; p != [] && p !in dir.files && p !in dir.dirs && !Blocked(dir, p)
  {
    var n := |ups| - 1;
    var p, shorter := ups[n].path, ups[..n];
    assert Uploadable(shorter) by {
      hide IsPlain, Apart;
    }
    StoredContents(shorter);
    assert forall i :: 0 <= i < n ==> shorter[i] == ups[i] && Apart(ups[i].path, p) && Apart(p, ups[i].path);
    forall q | q in Ancestors(p) ensures q !in dir.files {
      var k :| 0 < k < |p| && p[..k] == q;
      assert q[0] == p[0];
    }
  }

  /** A save under a free path of the open version adds that file and its directories, nothing else. */
  lemma SavesFree(s: State, slot: Slot, p: Path, data: Bytes)
    requires InSession(s, slot) && slot in s.disk
    requires p != [] && p !in s.disk[slot].files && p !in s.disk[slot].dirs && !Blocked(s.disk[slot], p)
    ensures SaveStep(s, slot, Some(Target(p, false)), data)
              == (s.(disk := s.disk[slot := WithFile(s.disk[slot], p, data)]), Ok(()))
  {
  }

  lemma EnclosingNone()
    ensures Enclosing([]) == {}
  {
  }

  lemma EnclosingNext(ups: seq<SavedFile>)
    requires ups != []
    ensures Enclosing(ups) == Enclosing(ups[..|ups| - 1]) + Ancestors(ups[|ups| - 1].path)
  {
  }

  /** Saving an uploadable list into a freshly begun version stores exactly that list. */
  lemma {:induction false} SaveAllStores(coding: PercentCoding, s: State, slot: Slot, ups: seq<SavedFile>)
    requires coding.Lawful() && Uploadable(ups) && InSession(s, slot)
    requires slot in s.disk && s.disk[slot].files == map[MARKER := []] && s.disk[slot].dirs == {}
    ensures var (after, ok) := SaveAll(coding, s, slot, ups);
            && ok && slot in after.disk
            && after == s.(disk := s.disk[slot := after.disk[slot]])
            && after.disk[slot].files == Stored(ups) && after.disk[slot].dirs == Enclosing(ups)
  {
    hide IsPlain, SaveTarget, SaveStep, WithFile, Blocked, Ancestors, Enclosing, Apart, Join;
    if ups == [] {
      assert Enclosing(ups) == {} by {
        EnclosingNone();
      }
      assert s.disk[slot := s.disk[slot]] == s.disk;
    } else {
      var n := |ups| - 1;
      var p := ups[n].path;
      assert Uploadable(ups[..n]);
      SaveAllStores(coding, s, slot, ups[..n]);
      var before := SaveAll(coding, s, slot, ups[..n]).0;
      RoomForLast(ups, before.disk[slot]);
      SaveTargetOfPlain(coding, p);
      assert Enclosing(ups) == Enclosing(ups[..n]) + Ancestors(p) by {
        EnclosingNext(ups);
      }
      SavesFree(before, slot, p, ups[n].data);
      var dir := WithFile(before.disk[slot], p, ups[n].data);
      assert s.disk[slot := before.disk[slot]][slot := dir] == s.disk[slot := dir];
    }
  }

  ghost predicate Downloads(
    env: Env, coding: PercentCoding, s: State, slot: Slot, tail: string, up: SavedFile)
  {
    var key := RequestKey(coding, tail);
    && key.Some?
    && Lookup(s.cache, slot.domain, key.value) == Some(MakeItem(env, slot, up.path, up.data))
    && Open(s.disk, FileRef(slot, up.path)) == Some(up.data)
  }

  lemma RequestKeyOfPlain(coding: PercentCoding, p: Path)
    requires coding.Lawful() && IsPlain(p)
    ensures RequestKey(coding, coding.encode("/" + Join(p))) == Some(Join(p))
  {
    var decoded := "/" + Join(p);
    PlainNotRefused(p);
    SplitAbsolute(p);
    assert coding.decode(coding.encode(decoded)) == Some(decoded);
    JoinHasNoEmptyPiece(p);
    assert decoded != "/" && decoded[1..] == Join(p);
  }

  lemma RequestKeyOfRoot(coding: PercentCoding)
    requires coding.Lawful()
    ensures RequestKey(coding, coding.encode("/")) == Some("index.html")
  {
  }

  /** A whole upload session: open, save in order, finish; and whether every step succeeded. */
  function UploadSession(coding: PercentCoding, s: State, slot: Slot, ups: seq<SavedFile>): (State, bool) {
    var (begun, r1) := StatusStep(s, slot, Uploading);
    var (saved, ok) := SaveAll(coding, begun, slot, ups);
    var (done, r2) := StatusStep(saved, slot, Finish);
    (done, r1.Ok? && ok && r2.Ok?)
  }

  lemma OpenFresh(s: State, slot: Slot)
    requires slot.domain !in s.uploading && !Serves(s, slot) && slot !in s.disk
    ensures var dir := WithFile(EMPTY_DIR, MARKER, []);
            && dir.files == map[MARKER := []] && dir.dirs == {}
            && StatusStep(s, slot, Uploading) ==
                 (s.(disk := s.disk[slot := dir], uploading := s.uploading[slot.domain := slot.version]), Ok(()))
  {
  }

  lemma CloseOpen(s: State, slot: Slot)
    requires InSession(s, slot) && slot in s.disk && MARKER in s.disk[slot].files
    ensures StatusStep(s, slot, Finish) ==
              (s.(disk := s.disk[slot := WithoutFile(s.disk[slot], MARKER)],
                  uploading := s.uploading - {slot.domain}), Ok(()))
  {
  }

  /** The session is gone again, and of the disk only the version has changed. */
  lemma ThereAndBack(s: State, slot: Slot, first: Dir, second: Dir, third: Dir)
    requires slot.domain !in s.uploading
    ensures var begun := s.(disk := s.disk[slot := first], uploading := s.uploading[slot.domain := slot.version]);
            var saved := begun.(disk := begun.disk[slot := second]);
            saved.(disk := saved.disk[slot := third], uploading := saved.uploading - {slot.domain})
              == s.(disk := s.disk[slot := third])
  {
  }

  /** Opening a version that does not exist, saving to it and finishing it leaves exactly what was saved. */
  lemma SessionStores(coding: PercentCoding, s: State, slot: Slot, ups: seq<SavedFile>)
    requires coding.Lawful() && Uploadable(ups)
    requires slot.domain !in s.uploading && !Serves(s, slot) && slot !in s.disk
    ensures var (done, ok) := UploadSession(coding, s, slot, ups);
            && ok && slot in done.disk && done.disk[slot].files == Stored(ups) - {MARKER}
            && done == s.(disk := s.disk[slot := done.disk[slot]])
  {
    hide Uploadable, Ancestors, Stored, StatusStep, SaveAll, Enclosing, WithFile, Marked;
    OpenFresh(s, slot);
    var begun := StatusStep(s, slot, Uploading).0;
    SaveAllStores(coding, begun, slot, ups);
    var saved := SaveAll(coding, begun, slot, ups).0;
    assert MARKER in Stored(ups) by {
      StoredContents(ups);
    }
    CloseOpen(saved, slot);
    ThereAndBack(s, slot, begun.disk[slot], saved.disk[slot], WithoutFile(saved.disk[slot], MARKER));
  }

  lemma StoredSurvivesFinish(ups: seq<SavedFile>, i: nat)
    requires Uploadable(ups) && i < |ups|
    ensures var files := Stored(ups) - {MARKER};
            ups[i].path in files && files[ups[i].path] == ups[i].data && IsPlain(ups[i].path)
  {
    hide IsPlain, Stored;
    StoredContents(ups);
    assert ups[i].path != MARKER;
  }

  lemma ReleasedIsFound(env: Env, coding: PercentCoding, s: State, slot: Slot, walk: seq<Path>, up: SavedFile)
    requires coding.Lawful() && IsPlain(up.path) && slot in s.disk
    requires up.path in s.disk[slot].files && s.disk[slot].files[up.path] == up.data
    requires CleanNames(env, slot, s.disk[slot].files) && IsListing(walk, s.disk[slot].files.Keys)
    ensures var online := Released(env, s, slot, walk);
            && Downloads(env, coding, online, slot, coding.encode("/" + Join(up.path)), up)
            && (up.path == ["index.html"] ==> Downloads(env, coding, online, slot, coding.encode("/"), up))
  {
    hide KeyOf, MakeItem, RequestKey, CleanNames, IsPlain, Collect;
    CollectIsExact(env, slot, s.disk[slot], walk, up.path);
    RequestKeyOfPlain(coding, up.path);
    if up.path == ["index.html"] {
      RequestKeyOfRoot(coding);
    }
  }

  /**
   End to end: open a new version, save any uploadable list in any order, finish, release. Then a GET
   of each path finds an item made from the saved bytes, and "/" finds index.html.
   */
  lemma UploadedIsFound(
    env: Env, coding: PercentCoding, s: State, slot: Slot, ups: seq<SavedFile>, walk: seq<Path>, i: nat)
    requires coding.Lawful() && Uploadable(ups) && i < |ups|
    requires slot.domain !in s.uploading && !Serves(s, slot) && slot !in s.disk
    requires CleanNames(env, slot, Stored(ups)) && IsListing(walk, (Stored(ups) - {MARKER}).Keys)
    ensures var (done, ok) := UploadSession(coding, s, slot, ups);
            && ok && slot in done.disk && done.disk[slot].files == Stored(ups) - {MARKER}
            && ReleaseTarget(done, slot.domain, Some(slot.version)) == Ok(slot.version)
            && var online := Released(env, done, slot, walk);
               && Downloads(env, coding, online, slot, coding.encode("/" + Join(ups[i].path)), ups[i])
               && (ups[i].path == ["index.html"] ==> Downloads(env, coding, online, slot, coding.encode("/"), ups[i]))
  {
    hide UploadSession;
    SessionStores(coding, s, slot, ups);
    StoredContents(ups);
    StoredSurvivesFinish(ups, i);
    ReleasedIsFound(env, coding, UploadSession(coding, s, slot, ups).0, slot, walk, ups[i]);
  }

  /** And what the GET answers decodes to the saved bytes, whatever the client accepts. */
  lemma DownloadIsUpload(
    env: Env, gunzip: Bytes -> Bytes, coding: PercentCoding, s: State, slot: Slot, tail: string, up: SavedFile,
    accept: Option<string>, modified: Option<nat>)
    requires Downloads(env, coding, s, slot, tail, up)
    requires (forall b :: gunzip(env.gzip(b)) == b) && Fits(MakeItem(env, slot, up.path, up.data))
    ensures var item := Lookup(s.cache, slot.domain, RequestKey(coding, tail).value).value;
            var reply := ItemReply(item, s.disk, accept, None, modified);
            reply.status == 200 && Decoded(gunzip, reply) == up.data
  {
    var item := MakeItem(env, slot, up.path, up.data);
    hide KeyOf, RequestKey;
    assert item.data.path == FileRef(slot, up.path);
    WholeReplyIsContent(env, gunzip, item, s.disk, up.data, accept, modified);
  }

  /**
   On every run whose deletes fit, outside a release of the domain: a full reply to any published key
   decodes to what the file of that key holds on disk in the served version.
   */
  lemma EveryReplyIsOnDisk(
    env: Env, gunzip: Bytes -> Bytes, run: seq<System>, events: seq<Event>, i: nat, d: string, key: string,
    accept: Option<string>, modified: Option<nat>)
    requires Run(env, run, events) && i < |run| && IsHost(d)
    requires forall j :: 0 <= j < i ==> FitsReserve(run[j], events[j])
    requires d in run[i].st.meta && d !in run[i].walks
    requires Lookup(run[i].st.cache, d, key).Some? && Fits(Lookup(run[i].st.cache, d, key).value)
    requires forall b :: gunzip(env.gzip(b)) == b
    ensures var s, item := run[i].st, Lookup(run[i].st.cache, d, key).value;
            var slot, p := Slot(d, s.meta[d]), item.data.path.path;
            && slot in s.disk && p in s.disk[slot].files && KeyOf(env, slot, p) == key
            && Decoded(gunzip, ItemReply(item, s.disk, accept, None, modified)) == s.disk[slot].files[p]
  {
    hide Run, FitsReserve, IsHost, KeyOf, MakeItem, ItemReply;
    CoherenceOnEveryRun(env, run, events, i);
    PublishedFilesExist(env, run[i], d, key);
    var s, item := run[i].st, Lookup(run[i].st.cache, d, key).value;
    var ref := item.data.path;
    WholeReplyIsContent(env, gunzip, item, s.disk, s.disk[ref.slot].files[ref.path], accept, modified);
  }

  /** Where no file is named like a marker, the metadata listing has exactly the keys of the snapshot. */
  lemma MetadataKeysAreCacheKeys(
    env: Env, disk: Disk, slot: Slot, md5: Bytes -> string, files: seq<ShortMetaData>, walk: seq<Path>, m: Snapshot)
    requires slot in disk && IsFullSnapshot(env, m, slot, disk[slot])
    requires forall p :: p in disk[slot].files ==> Named(p)
    requires IsMetadata(env, disk, slot, md5, files, walk)
    ensures forall k :: k in m <==> exists i :: 0 <= i < |files| && files[i].path == k
  {
    hide KeyOf, MakeItem, Named;
    forall k | k in m ensures exists i :: 0 <= i < |files| && files[i].path == k {
      assert Owned(env, m, slot, disk[slot].files, disk[slot].files.Keys, k);
      var p :| p in disk[slot].files.Keys && KeyOf(env, slot, p) == k;
      assert p in walk;
      var i :| 0 <= i < |walk| && walk[i] == p;
      assert files[i].path == k;
    }
    forall i | 0 <= i < |files| ensures files[i].path in m {
      assert walk[i] in disk[slot].files.Keys;
    }
  }
}
