/**
 When an upload can still be completed: from a world at its start, or half-way, some way of going on ends in
 success exactly if every file that is outstanding can be stored where it belongs.
 */
module Completion {
  import opened Prelude
  import opened Paths
  import opened Disk
  import opened Caching
  import opened Storage
  import opened System
  import opened Recovery
  import opened UploadFiles
  import opened UploadExactly

  ghost predicate AllSpared(plan: Plan, ws: seq<World>, steps: seq<Step>)
    requires |ws| == |steps| + 1
  {
    forall k :: 0 <= k < |steps| ==> VersionSpared(plan, ws[k], steps[k])
  }

  /** Client, network and server can go on, without the version being deleted, so that the client succeeds. */
  ghost predicate CanSucceed(env: Env, coding: PercentCoding, plan: Plan, w: World) {
    exists ws: seq<World>, steps: seq<Step> ::
      Goes(env, coding, plan, ws, steps) && ws[0] == w && AllSpared(plan, ws, steps)
      && ws[|steps|].cl.phase == Succeeded
  }

  /** Nobody else takes part in a step: it is the client's, and what it makes the server save is the client's. */
  ghost predicate IsOwn(coding: PercentCoding, plan: Plan, step: Step) {
    !step.Other? && NoOtherWriter(coding, plan, step)
  }

  ghost predicate AllOwn(coding: PercentCoding, plan: Plan, steps: seq<Step>) {
    forall k :: 0 <= k < |steps| ==> IsOwn(coding, plan, steps[k])
  }

  /** And it can do so without anybody else taking part. */
  ghost predicate CanSucceedAlone(env: Env, coding: PercentCoding, plan: Plan, w: World) {
    exists ws: seq<World>, steps: seq<Step> ::
      Goes(env, coding, plan, ws, steps) && ws[0] == w && AllSpared(plan, ws, steps) && AllOwn(coding, plan, steps)
      && ws[|steps|].cl.phase == Succeeded
  }

  lemma AloneIsEnough(env: Env, coding: PercentCoding, plan: Plan, w: World)
    requires CanSucceedAlone(env, coding, plan, w)
    ensures CanSucceed(env, coding, plan, w)
  {
    hide Goes, AllOwn;
  }

  /** A new file can be made there, or nothing has to be written to what is there. */
  predicate Storable(disk: Disk, slot: Slot, target: Option<Target>, data: Bytes) {
    target.Some? && (Free(disk, slot, target.value) || (data == [] && Taken(disk, slot, target.value)))
  }

  /** Among files that are not markers, what cannot be stored now cannot be stored until the version is deleted. */
  lemma NotStorableIsStuck(disk: Disk, slot: Slot, target: Option<Target>, data: Bytes)
    requires NamesFile(target)
    ensures !Storable(disk, slot, target, data) <==> Stuck(disk, slot, target.value, data)
  {
  }

  // Going on

  lemma NothingToDo(env: Env, coding: PercentCoding, plan: Plan, w: World)
    requires w.cl.phase == Succeeded
    ensures CanSucceedAlone(env, coding, plan, w)
  {
    assert Goes(env, coding, plan, [w], []);
  }

  lemma FirstStep(env: Env, coding: PercentCoding, plan: Plan, w: World, step: Step, w': World)
    requires StepTo(env, coding, plan, w, step, w') && VersionSpared(plan, w, step) && IsOwn(coding, plan, step)
    requires CanSucceedAlone(env, coding, plan, w')
    ensures CanSucceedAlone(env, coding, plan, w)
  {
    hide StepTo, VersionSpared, IsOwn;
    var ws: seq<World>, steps: seq<Step> :|
      Goes(env, coding, plan, ws, steps) && ws[0] == w' && AllSpared(plan, ws, steps) && AllOwn(coding, plan, steps)
      && ws[|steps|].cl.phase == Succeeded;
    var ws', steps' := [w] + ws, [step] + steps;
    forall i | 0 <= i < |steps'|
      ensures StepTo(env, coding, plan, ws'[i], steps'[i], ws'[i + 1]) && VersionSpared(plan, ws'[i], steps'[i])
      ensures IsOwn(coding, plan, steps'[i])
    {
      if i > 0 {
        assert ws'[i] == ws[i - 1] && steps'[i] == steps[i - 1] && ws'[i + 1] == ws[i];
      }
    }
    assert Goes(env, coding, plan, ws', steps');
  }

  /** The pool is running, no report so far was a failure, and the session is open. */
  ghost predicate Ready(coding: PercentCoding, plan: Plan, w: World) {
    && WellNamed(coding, plan) && 0 < plan.parallel
    && Accounted(plan, w.cl) && w.cl.phase == Pooling && AllOk(w.cl.results)
    && InSession(w.sys.st, plan.slot)
    && plan.slot in w.sys.st.disk && MARKER in w.sys.st.disk[plan.slot].files
  }

  ghost predicate OutstandingStorable(coding: PercentCoding, plan: Plan, w: World) {
    forall j :: 0 <= j < |plan.jobs| && !Reported(w.cl, j) ==>
      Storable(w.sys.st.disk, plan.slot, TargetOf(coding, plan, j), plan.jobs[j].data)
  }

  lemma SaveKeepsStorable(s: State, slot: Slot, a: Option<Target>, data: Bytes, b: Option<Target>, other: Bytes)
    requires InSession(s, slot) && NamesFile(a) && NamesFile(b)
    requires Apart(a.value.path, b.value.path) && Apart(b.value.path, a.value.path)
    requires Storable(s.disk, slot, a, data) && Storable(s.disk, slot, b, other)
    ensures Storable(SaveStep(s, slot, a, data).0.disk, slot, b, other)
  {
  }

  lemma SaveKeepsOpen(s: State, slot: Slot, target: Option<Target>, data: Bytes)
    requires InSession(s, slot) && slot in s.disk && MARKER in s.disk[slot].files
    requires Storable(s.disk, slot, target, data)
    ensures var (s', r) := SaveStep(s, slot, target, data);
            r.Ok? && InSession(s', slot) && slot in s'.disk && MARKER in s'.disk[slot].files
  {
  }

  lemma AttemptKeepsOutstanding(coding: PercentCoding, plan: Plan, w: World, j: nat, w': World)
    requires Ready(coding, plan, w) && OutstandingStorable(coding, plan, w)
    requires j in w.cl.inFlight && j < |plan.jobs| == |w.cl.logs| && !Reported(w.cl, j)
    requires w' == World(After(w.sys, SaveOp(coding, plan, j)), AfterReport(w.cl, j, true))
    ensures OutstandingStorable(coding, plan, w')
  {
    hide TargetOf, Accounted, Storable, SaveStep, Reported;
    forall k: nat ensures Reported(w'.cl, k) <==> Reported(w.cl, k) || k == j {
      SettleReports(w.cl, j, true, k);
    }
    hide AfterReport;
    forall k | 0 <= k < |plan.jobs| && !Reported(w'.cl, k)
      ensures Storable(w'.sys.st.disk, plan.slot, TargetOf(coding, plan, k), plan.jobs[k].data)
    {
      SaveKeepsStorable(
        w.sys.st, plan.slot, TargetOf(coding, plan, j), plan.jobs[j].data,
        TargetOf(coding, plan, k), plan.jobs[k].data);
    }
  }

  lemma AttemptSteps(env: Env, coding: PercentCoding, plan: Plan, w: World, j: nat, w': World)
    requires w.cl.phase == Pooling && j in w.cl.inFlight && j < |plan.jobs| == |w.cl.logs|
    requires Succeeds(w.sys.st, SaveOp(coding, plan, j))
    requires w' == World(After(w.sys, SaveOp(coding, plan, j)), AfterReport(w.cl, j, true))
    ensures StepTo(env, coding, plan, w, Attempt(j, Some(Call(SaveOp(coding, plan, j))), true), w')
  {
    hide AfterReport, Succeeds, Apply, SaveOp, Dirtied;
  }

  lemma OwedJob(plan: Plan, cl: Client, j: nat)
    requires Accounted(plan, cl) && j in cl.inFlight
    ensures j < |plan.jobs| == |cl.logs| && !Reported(cl, j)
  {
  }

  lemma ReportKeepsPooling(cl: Client, j: nat)
    requires j < |cl.logs|
    ensures var cl' := AfterReport(cl, j, true);
            && cl'.phase == cl.phase && |cl'.results| == |cl.results| + 1
            && (AllOk(cl.results) ==> AllOk(cl'.results))
  {
  }

  /** One more file stored, and success reported. */
  lemma AttemptKeepsReady(env: Env, coding: PercentCoding, plan: Plan, w: World, j: nat) returns (w': World)
    requires Ready(coding, plan, w) && OutstandingStorable(coding, plan, w) && j in w.cl.inFlight
    ensures j < |plan.jobs| && StepTo(env, coding, plan, w, Attempt(j, Some(Call(SaveOp(coding, plan, j))), true), w')
    ensures Ready(coding, plan, w') && OutstandingStorable(coding, plan, w')
    ensures |w'.cl.results| == |w.cl.results| + 1
  {
    OwedJob(plan, w.cl, j);
    w' := World(After(w.sys, SaveOp(coding, plan, j)), AfterReport(w.cl, j, true));
    SettleKeepsAccounts(plan, w.cl, j, true);
    hide TargetOf, Accounted, Storable, SaveStep, Reported, WellNamed, StepTo;
    SaveKeepsOpen(w.sys.st, plan.slot, TargetOf(coding, plan, j), plan.jobs[j].data);
    AttemptKeepsOutstanding(coding, plan, w, j, w');
    hide OutstandingStorable;
    AttemptSteps(env, coding, plan, w, j, w');
    ReportKeepsPooling(w.cl, j);
    hide AfterReport, AllOk, Dirtied;
  }

  lemma TakeUpKeepsReady(env: Env, coding: PercentCoding, plan: Plan, w: World) returns (w': World)
    requires Ready(coding, plan, w) && OutstandingStorable(coding, plan, w)
    requires w.cl.inFlight == {} && w.cl.started < |plan.jobs|
    ensures StepTo(env, coding, plan, w, TakeUp, w')
    ensures Ready(coding, plan, w') && OutstandingStorable(coding, plan, w')
    ensures w'.cl.results == w.cl.results && w'.cl.started == w.cl.started + 1 && w'.cl.inFlight == {w.cl.started}
    ensures w'.sys == w.sys
  {
    TakeUpKeepsAccounts(plan, w.cl);
    hide Accounted, WellNamed, Storable, TargetOf;
    w' := w.(cl := w.cl.(started := w.cl.started + 1, inFlight := w.cl.inFlight + {w.cl.started}));
    assert forall k :: Reported(w'.cl, k) <==> Reported(w.cl, k);
  }

  lemma CloseSucceeds(env: Env, coding: PercentCoding, plan: Plan, w: World)
    requires Ready(coding, plan, w) && |w.cl.results| == |plan.jobs|
    ensures CanSucceedAlone(env, coding, plan, w)
  {
    hide WellNamed, Accounted, CanSucceed;
    var w' := World(After(w.sys, CloseOp(plan)), w.cl.(phase := Succeeded, finishAsked := true));
    var step := Close(Some(Call(CloseOp(plan))), true);
    assert StepTo(env, coding, plan, w, step, w');
    NothingToDo(env, coding, plan, w');
    FirstStep(env, coding, plan, w, step, w');
  }

  /** Every outstanding file stored in turn, then Finish. */
  lemma {:induction false} PoolCompletes(env: Env, coding: PercentCoding, plan: Plan, w: World)
    requires Ready(coding, plan, w) && OutstandingStorable(coding, plan, w)
    ensures CanSucceedAlone(env, coding, plan, w)
    decreases |plan.jobs| - |w.cl.results|, |plan.jobs| - w.cl.started
  {
    hide CanSucceedAlone, StepTo, OutstandingStorable, WellNamed, Tracked, Listed;
    if w.cl.inFlight != {} {
      var j :| j in w.cl.inFlight;
      var w' := AttemptKeepsReady(env, coding, plan, w, j);
      assert OurSave(coding, plan, TargetOf(coding, plan, j), plan.jobs[j].data);
      PoolCompletes(env, coding, plan, w');
      FirstStep(env, coding, plan, w, Attempt(j, Some(Call(SaveOp(coding, plan, j))), true), w');
    } else if w.cl.started < |plan.jobs| {
      var w' := TakeUpKeepsReady(env, coding, plan, w);
      PoolCompletes(env, coding, plan, w');
      FirstStep(env, coding, plan, w, TakeUp, w');
    } else {
      CloseSucceeds(env, coding, plan, w);
    }
  }

  // Exactly when

  lemma HopelessIsFatal(env: Env, coding: PercentCoding, plan: Plan, w: World, j: nat)
    requires Accounted(plan, w.cl) && j < |plan.jobs| && Hopeless(coding, plan, w, j)
    ensures !CanSucceed(env, coding, plan, w)
  {
    hide StepTo, VersionSpared, Hopeless, Accounted;
    if CanSucceed(env, coding, plan, w) {
      var ws: seq<World>, steps: seq<Step> :|
        Goes(env, coding, plan, ws, steps) && ws[0] == w && AllSpared(plan, ws, steps)
        && ws[|steps|].cl.phase == Succeeded;
      HopelessNeverSucceeds(env, coding, plan, ws, steps, 0, |steps|, j);
    }
  }

  lemma NotStorableIsFatal(env: Env, coding: PercentCoding, plan: Plan, w: World, j: nat)
    requires WellNamed(coding, plan) && Accounted(plan, w.cl) && j < |plan.jobs| && !Confirmed(w.cl, j)
    requires !Storable(w.sys.st.disk, plan.slot, TargetOf(coding, plan, j), plan.jobs[j].data)
    ensures !CanSucceed(env, coding, plan, w)
  {
    NotStorableIsStuck(w.sys.st.disk, plan.slot, TargetOf(coding, plan, j), plan.jobs[j].data);
    hide CanSucceed;
    HopelessIsFatal(env, coding, plan, w, j);
  }

  /**
   Half-way, with no failure reported: the client can still succeed if and only if each file that has not been
   reported can be stored.
   */
  lemma PoolCanSucceedExactlyWhen(env: Env, coding: PercentCoding, plan: Plan, w: World)
    requires Ready(coding, plan, w)
    ensures CanSucceed(env, coding, plan, w) <==> OutstandingStorable(coding, plan, w)
    ensures CanSucceedAlone(env, coding, plan, w) <==> OutstandingStorable(coding, plan, w)
  {
    hide Storable, TargetOf, CanSucceed, CanSucceedAlone, WellNamed, Accounted;
    if CanSucceedAlone(env, coding, plan, w) {
      AloneIsEnough(env, coding, plan, w);
    }
    if OutstandingStorable(coding, plan, w) {
      PoolCompletes(env, coding, plan, w);
      AloneIsEnough(env, coding, plan, w);
    } else {
      var j :| 0 <= j < |plan.jobs| && !Reported(w.cl, j)
        && !Storable(w.sys.st.disk, plan.slot, TargetOf(coding, plan, j), plan.jobs[j].data);
      NotStorableIsFatal(env, coding, plan, w, j);
    }
  }

  /** A client about to begin, on a version that it may open and that has its marker if it is open already. */
  ghost predicate CanBegin(coding: PercentCoding, plan: Plan, w: World) {
    && WellNamed(coding, plan) && ClientStart(plan, w.cl) && plan.jobs != [] && 0 < plan.parallel
    && StatusStep(w.sys.st, plan.slot, Uploading).1.Ok?
    && (InSession(w.sys.st, plan.slot) ==>
          plan.slot in w.sys.st.disk && MARKER in w.sys.st.disk[plan.slot].files)
  }

  lemma OpeningLeaves(s: State, slot: Slot)
    requires StatusStep(s, slot, Uploading).1.Ok?
    requires InSession(s, slot) ==> slot in s.disk && MARKER in s.disk[slot].files
    ensures var s' := StatusStep(s, slot, Uploading).0;
            && InSession(s', slot) && slot in s'.disk
            && s'.disk[slot].files.Keys == At(s.disk, slot).files.Keys + {MARKER}
            && s'.disk[slot].dirs == At(s.disk, slot).dirs
  {
    MarkerNotBlocked(At(s.disk, slot));
  }

  lemma OpeningKeepsStorable(s: State, slot: Slot, target: Option<Target>, data: Bytes)
    requires StatusStep(s, slot, Uploading).1.Ok? && NamesFile(target)
    requires InSession(s, slot) ==> slot in s.disk && MARKER in s.disk[slot].files
    ensures Storable(StatusStep(s, slot, Uploading).0.disk, slot, target, data) <==>
              Storable(s.disk, slot, target, data)
  {
  }

  ghost predicate EveryFileStorable(coding: PercentCoding, plan: Plan, disk: Disk) {
    forall j :: 0 <= j < |plan.jobs| ==> Storable(disk, plan.slot, TargetOf(coding, plan, j), plan.jobs[j].data)
  }

  lemma Begins(env: Env, coding: PercentCoding, plan: Plan, w: World) returns (w': World)
    requires CanBegin(coding, plan, w)
    ensures StepTo(env, coding, plan, w, Open(Some(Call(OpenOp(plan))), true), w') && Ready(coding, plan, w')
    ensures w'.cl == w.cl.(phase := Pooling)
    ensures OutstandingStorable(coding, plan, w') <==> EveryFileStorable(coding, plan, w.sys.st.disk)
  {
    w' := World(After(w.sys, OpenOp(plan)), w.cl.(phase := Pooling));
    StartIsAccounted(plan, w.cl);
    PhaseKeepsAccounts(plan, w.cl, w'.cl);
    OpeningLeaves(w.sys.st, plan.slot);
    hide StatusStep, TargetOf, Storable, Accounted;
    forall j | 0 <= j < |plan.jobs|
      ensures Storable(w'.sys.st.disk, plan.slot, TargetOf(coding, plan, j), plan.jobs[j].data) <==>
                Storable(w.sys.st.disk, plan.slot, TargetOf(coding, plan, j), plan.jobs[j].data)
    {
      OpeningKeepsStorable(w.sys.st, plan.slot, TargetOf(coding, plan, j), plan.jobs[j].data);
    }
  }

  /**
   Whatever the version holds: a client that may open it can succeed if and only if each of its files can be
   stored, that is, created, or for an empty file found there.
   */
  lemma CanSucceedExactlyWhen(env: Env, coding: PercentCoding, plan: Plan, w: World)
    requires CanBegin(coding, plan, w)
    ensures CanSucceed(env, coding, plan, w) <==> EveryFileStorable(coding, plan, w.sys.st.disk)
    ensures CanSucceedAlone(env, coding, plan, w) <==> EveryFileStorable(coding, plan, w.sys.st.disk)
  {
    hide CanSucceed, CanSucceedAlone, Storable, TargetOf;
    if CanSucceedAlone(env, coding, plan, w) {
      AloneIsEnough(env, coding, plan, w);
    }
    if EveryFileStorable(coding, plan, w.sys.st.disk) {
      var w' := Begins(env, coding, plan, w);
      hide StepTo;
      PoolCompletes(env, coding, plan, w');
      FirstStep(env, coding, plan, w, Open(Some(Call(OpenOp(plan))), true), w');
      AloneIsEnough(env, coding, plan, w);
    } else {
      var j :| 0 <= j < |plan.jobs|
        && !Storable(w.sys.st.disk, plan.slot, TargetOf(coding, plan, j), plan.jobs[j].data);
      StartIsAccounted(plan, w.cl);
      NotStorableIsFatal(env, coding, plan, w, j);
    }
  }

  lemma OursIsStorable(coding: PercentCoding, plan: Plan, disk: Disk, j: nat)
    requires WellNamed(coding, plan) && OnlyOurs(coding, plan, disk) && j < |plan.jobs|
    ensures Storable(disk, plan.slot, TargetOf(coding, plan, j), plan.jobs[j].data) <==>
              (plan.jobs[j].data == [] || TargetOf(coding, plan, j).value.path !in At(disk, plan.slot).files)
  {
  }

  /**
   In a version that holds nothing but this client's files, whole or in part, an upload can be completed if and
   only if it holds none of those that are not empty: it can be started anew, but not resumed.
   */
  lemma ResumesExactlyWhen(env: Env, coding: PercentCoding, plan: Plan, w: World)
    requires CanBegin(coding, plan, w) && OnlyOurs(coding, plan, w.sys.st.disk)
    ensures CanSucceedAlone(env, coding, plan, w) <==> CanSucceed(env, coding, plan, w)
    ensures CanSucceed(env, coding, plan, w) <==>
              forall j :: 0 <= j < |plan.jobs| && plan.jobs[j].data != [] ==>
                TargetOf(coding, plan, j).Some?
                && TargetOf(coding, plan, j).value.path !in At(w.sys.st.disk, plan.slot).files
  {
    hide CanSucceed, CanSucceedAlone, Storable, TargetOf, OnlyOurs;
    CanSucceedExactlyWhen(env, coding, plan, w);
    forall j | 0 <= j < |plan.jobs|
      ensures NamesFile(TargetOf(coding, plan, j))
      ensures Storable(w.sys.st.disk, plan.slot, TargetOf(coding, plan, j), plan.jobs[j].data) <==>
                (plan.jobs[j].data == [] || TargetOf(coding, plan, j).value.path !in At(w.sys.st.disk, plan.slot).files)
    {
      OursIsStorable(coding, plan, w.sys.st.disk, j);
    }
  }

  // A lost reply

  lemma FirstFileIsStored(coding: PercentCoding, plan: Plan, w: World)
    requires Ready(coding, plan, w) && OutstandingStorable(coding, plan, w)
    requires w.cl.results == [] && plan.jobs != [] && plan.jobs[0].data != []
    ensures Substantial(coding, plan, 0) && Succeeds(w.sys.st, SaveOp(coding, plan, 0))
  {
  }

  lemma ReplyIsLost(env: Env, coding: PercentCoding, plan: Plan, w: World) returns (w': World)
    requires Ready(coding, plan, w) && OutstandingStorable(coding, plan, w)
    requires w.cl.results == [] && 0 in w.cl.inFlight && plan.jobs != [] && plan.jobs[0].data != []
    ensures StepTo(env, coding, plan, w, Attempt(0, Some(Call(SaveOp(coding, plan, 0))), false), w')
    ensures Succeeds(w.sys.st, SaveOp(coding, plan, 0)) && !CanSucceed(env, coding, plan, w')
  {
    hide CanSucceed, Storable, TargetOf, SaveStep;
    w' := World(After(w.sys, SaveOp(coding, plan, 0)), AfterReport(w.cl, 0, false));
    var lost := Attempt(0, Some(Call(SaveOp(coding, plan, 0))), false);
    OwedJob(plan, w.cl, 0);
    assert StepTo(env, coding, plan, w, lost, w');
    StepKeepsAccounts(env, coding, plan, w, lost, w');
    FirstFileIsStored(coding, plan, w);
    LostReply(env, coding, plan, w, 0, w');
    hide StepTo, Accounted, Hopeless;
    HopelessIsFatal(env, coding, plan, w', 0);
  }

  /**
   From every start from which a client can succeed: its first file is stored, the reply is lost, and from being able
   to succeed it comes to where it no longer can.
   */
  lemma LostReplyRun(env: Env, coding: PercentCoding, plan: Plan, w: World) returns (ws: seq<World>, steps: seq<Step>)
    requires CanBegin(coding, plan, w) && CanSucceed(env, coding, plan, w) && plan.jobs[0].data != []
    ensures Upload(env, coding, plan, ws, steps) && ws[0] == w && |steps| == 3 && AllSpared(plan, ws, steps)
    ensures steps[2] == Attempt(0, Some(Call(SaveOp(coding, plan, 0))), false)
    ensures Succeeds(ws[2].sys.st, SaveOp(coding, plan, 0))
    ensures CanSucceed(env, coding, plan, ws[2]) && !CanSucceed(env, coding, plan, ws[3])
  {
    hide CanSucceed, Storable, TargetOf, StatusStep, SaveStep, StepTo, Accounted;
    CanSucceedExactlyWhen(env, coding, plan, w);
    var w1 := Begins(env, coding, plan, w);
    var w2 := TakeUpKeepsReady(env, coding, plan, w1);
    PoolCanSucceedExactlyWhen(env, coding, plan, w2);
    var w3 := ReplyIsLost(env, coding, plan, w2);
    var open, lost := Open(Some(Call(OpenOp(plan))), true), Attempt(0, Some(Call(SaveOp(coding, plan, 0))), false);
    ws, steps := [w, w1, w2, w3], [open, TakeUp, lost];
  }

  /** One such start: an empty store and one file. */
  lemma OneFileCanSucceed(env: Env) returns (coding: PercentCoding, plan: Plan, w: World)
    ensures CanBegin(coding, plan, w) && plan.jobs[0].data != []
    ensures CanSucceed(env, coding, plan, w) && CanSucceedAlone(env, coding, plan, w)
  {
    hide CanSucceed, CanSucceedAlone, IsHost;
    coding := PercentCoding(s => s, s => Some(s));
    var p: Path := ["x"];
    plan := Plan(Slot("a.b", 1), [Job("/" + Join(p), [1])], 1);
    var cl := Client(Opening, 0, {}, seq(1, _ => []), [], 1, 0, false);
    w := World(System(State(map[], map[], map[], map[]), map[], {}), cl);
    SaveTargetOfPlain(coding, p);
    assert TargetOf(coding, plan, 0) == Some(Target(p, false));
    MarkerNotBlocked(EMPTY_DIR);
    assert CanBegin(coding, plan, w);
    EmptyIsOurs(coding, plan, w.sys.st.disk);
    ResumesExactlyWhen(env, coding, plan, w);
  }
}
