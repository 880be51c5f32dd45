/**
 Uploading into an empty version that no other client writes to: then empty files arrive too, and a
 successful upload leaves exactly the local files.
 */
module UploadExactly {
  import opened Prelude
  import opened Paths
  import opened Disk
  import opened Caching
  import opened Storage
  import opened Retention
  import opened System
  import opened Recovery
  import opened UploadFiles

  predicate NamesFile(target: Option<Target>) {
    target.Some? && !target.value.dirOnly && target.value.path != [] && target.value.path[0] != MARKER[0]
  }

  /** Keys that name plain files, none a marker or inside one, none equal to or inside another. */
  ghost predicate WellNamed(coding: PercentCoding, plan: Plan) {
    && (forall j :: 0 <= j < |plan.jobs| ==> NamesFile(TargetOf(coding, plan, j)))
    && (forall i, j :: 0 <= i < |plan.jobs| && 0 <= j < |plan.jobs| && i != j ==>
          Apart(TargetOf(coding, plan, i).value.path, TargetOf(coding, plan, j).value.path))
  }

  ghost predicate OurFile(coding: PercentCoding, plan: Plan, p: Path, bytes: Bytes) {
    p == MARKER ||
    exists j :: 0 <= j < |plan.jobs| &&
      TargetOf(coding, plan, j) == Some(Target(p, false)) && bytes <= plan.jobs[j].data
  }

  ghost predicate OurDir(coding: PercentCoding, plan: Plan, p: Path) {
    exists j :: 0 <= j < |plan.jobs| &&
      TargetOf(coding, plan, j).Some? && p in Ancestors(TargetOf(coding, plan, j).value.path)
  }

  /** All that is in the version, apart from a marker, comes from these jobs, whole or in part. */
  ghost predicate OnlyOurs(coding: PercentCoding, plan: Plan, disk: Disk) {
    plan.slot in disk ==>
      && (forall p :: p in disk[plan.slot].files ==> OurFile(coding, plan, p, disk[plan.slot].files[p]))
      && (forall p :: p in disk[plan.slot].dirs ==> OurDir(coding, plan, p))
  }

  ghost predicate OurSave(coding: PercentCoding, plan: Plan, target: Option<Target>, data: Bytes) {
    exists j :: 0 <= j < |plan.jobs| && target == TargetOf(coding, plan, j) && data == plan.jobs[j].data
  }

  /** Whatever saves to the version saves one of these files: this client, or a late copy of its request. */
  ghost predicate NoOtherWriter(coding: PercentCoding, plan: Plan, step: Step) {
    EventOf(step).Some? ==>
      match OpOf(EventOf(step).value)
      case Save(slot, target, data) => slot == plan.slot ==> OurSave(coding, plan, target, data)
      case _ => true
  }

  /** What a save, complete or not, may add: directories around its target and the file, or part of it. */
  lemma SaveAdds(s: State, slot: Slot, target: Option<Target>, data: Bytes, left: Disk)
    requires left == SaveStep(s, slot, target, data).0.disk || Torn(s, Save(slot, target, data), left)
    requires left != s.disk
    ensures target.Some? && slot in left
    ensures forall p :: p in left[slot].files ==>
              || (p in At(s.disk, slot).files && left[slot].files[p] == At(s.disk, slot).files[p])
              || (p == target.value.path && left[slot].files[p] <= data)
    ensures left[slot].dirs <= At(s.disk, slot).dirs + Ancestors(target.value.path)
  {
  }

  /** Adding one of our files, or part of it, to what is only ours. */
  lemma OursGrows(coding: PercentCoding, plan: Plan, dir: Dir, left: Dir, j: nat)
    requires j < |plan.jobs| && NamesFile(TargetOf(coding, plan, j))
    requires forall p :: p in dir.files ==> OurFile(coding, plan, p, dir.files[p])
    requires forall p :: p in dir.dirs ==> OurDir(coding, plan, p)
    requires var t := TargetOf(coding, plan, j).value;
             && (forall p :: p in left.files ==>
                   || (p in dir.files && left.files[p] == dir.files[p])
                   || (p == t.path && left.files[p] <= plan.jobs[j].data))
             && left.dirs <= dir.dirs + Ancestors(t.path)
    ensures forall p :: p in left.files ==> OurFile(coding, plan, p, left.files[p])
    ensures forall p :: p in left.dirs ==> OurDir(coding, plan, p)
  {
  }

  lemma SaveKeepsOurs(
    coding: PercentCoding, plan: Plan, s: State, target: Option<Target>, data: Bytes, left: Disk)
    requires WellNamed(coding, plan) && OnlyOurs(coding, plan, s.disk) && OurSave(coding, plan, target, data)
    requires left == SaveStep(s, plan.slot, target, data).0.disk || Torn(s, Save(plan.slot, target, data), left)
    ensures OnlyOurs(coding, plan, left)
  {
    hide TargetOf, SaveStep, Torn, Ancestors, OurFile, OurDir;
    SaveFrame(s, plan.slot, target, data, left);
    if left != s.disk {
      SaveAdds(s, plan.slot, target, data, left);
      var j :| 0 <= j < |plan.jobs| && target == TargetOf(coding, plan, j) && data == plan.jobs[j].data;
      assert NamesFile(TargetOf(coding, plan, j));
      OursGrows(coding, plan, At(s.disk, plan.slot), left[plan.slot], j);
    }
  }

  lemma StatusKeepsOurs(coding: PercentCoding, plan: Plan, s: State, op: Op, left: Disk)
    requires OnlyOurs(coding, plan, s.disk) && op.Status? && (left == Apply(s, op).disk || Torn(s, op, left))
    ensures OnlyOurs(coding, plan, left)
  {
    hide StatusStep, OurDir, TargetOf;
    StatusFrame(s, op.slot, op.status, left);
    if op.slot == plan.slot && plan.slot in left {
      forall p | p in left[plan.slot].files ensures OurFile(coding, plan, p, left[plan.slot].files[p]) {
        assert p != MARKER ==> SameAt(left[plan.slot].files, At(s.disk, plan.slot).files, p);
      }
    }
  }

  lemma EventKeepsOurs(env: Env, coding: PercentCoding, plan: Plan, s: System, e: Event, s': System, step: Step)
    requires WellNamed(coding, plan) && OnlyOurs(coding, plan, s.st.disk) && Next(env, s, e, s')
    requires EventOf(step) == Some(e) && NoOtherWriter(coding, plan, step) && SparesSlot(s, e, plan.slot)
    ensures OnlyOurs(coding, plan, s'.st.disk)
  {
    hide WellNamed, TargetOf, WriteFile, TornWrite, Doomed, IsBoot, StatusStep, ReleaseTarget, OurSave, OurFile, OurDir;
    var op, left := OpOf(e), s'.st.disk;
    if op.Status? {
      StatusKeepsOurs(coding, plan, s.st, op, left);
    } else if op.Save? {
      if op.slot == plan.slot {
        SaveKeepsOurs(coding, plan, s.st, op.target, op.data, left);
      } else {
        SaveFrame(s.st, op.slot, op.target, op.data, left);
      }
    } else {
      SparedIsUnchanged(env, s, e, s', plan.slot);
    }
  }

  lemma StepKeepsOurs(env: Env, coding: PercentCoding, plan: Plan, w: World, step: Step, w': World)
    requires WellNamed(coding, plan) && OnlyOurs(coding, plan, w.sys.st.disk)
    requires StepTo(env, coding, plan, w, step, w') && NoOtherWriter(coding, plan, step) && VersionSpared(plan, w, step)
    ensures OnlyOurs(coding, plan, w'.sys.st.disk)
  {
    hide AfterReport, Succeeds, TargetOf, WellNamed, OnlyOurs, Next;
    if EventOf(step).Some? {
      EventKeepsOurs(env, coding, plan, w.sys, EventOf(step).value, w'.sys, step);
    }
  }

  /** In a version that is only ours, a save that reports success has its file there, empty or not. */
  lemma EverySuccessArrives(env: Env, coding: PercentCoding, plan: Plan, w: World, j: nat, e: Option<Event>, w': World)
    requires WellNamed(coding, plan) && OnlyOurs(coding, plan, w.sys.st.disk)
    requires j < |plan.jobs| && Requested(env, w.sys, SaveOp(coding, plan, j), e, true, w'.sys)
    ensures Arrived(coding, plan, w'.sys.st.disk, j)
  {
  }

  ghost predicate AllSafe(coding: PercentCoding, plan: Plan, w: World) {
    forall i :: 0 <= i < |w.cl.results| ==>
      && w.cl.results[i].job < |plan.jobs|
      && (w.cl.results[i].ok ==> Arrived(coding, plan, w.sys.st.disk, w.cl.results[i].job))
  }

  lemma StepKeepsAllSafe(env: Env, coding: PercentCoding, plan: Plan, w: World, step: Step, w': World)
    requires WellNamed(coding, plan) && OnlyOurs(coding, plan, w.sys.st.disk) && AllSafe(coding, plan, w)
    requires StepTo(env, coding, plan, w, step, w') && VersionSpared(plan, w, step)
    ensures AllSafe(coding, plan, w')
  {
    hide Arrived, TargetOf, Requested, VersionSpared, OnlyOurs;
    forall i | 0 <= i < |w'.cl.results|
      ensures w'.cl.results[i].job < |plan.jobs|
      ensures w'.cl.results[i].ok ==> Arrived(coding, plan, w'.sys.st.disk, w'.cl.results[i].job)
    {
      var outcome := w'.cl.results[i];
      if i < |w.cl.results| {
        assert outcome == w.cl.results[i];
        if outcome.ok {
          assert NamesFile(TargetOf(coding, plan, outcome.job));
          StepKeepsArrived(env, coding, plan, w, step, w', outcome.job);
        }
      } else {
        assert outcome == Outcome(step.job, step.ok, w.cl.counter);
        if step.ok {
          EverySuccessArrives(env, coding, plan, w, step.job, step.e, w');
        }
      }
    }
  }

  lemma {:induction false} ResultsAreAllSafe(
    env: Env, coding: PercentCoding, plan: Plan, ws: seq<World>, steps: seq<Step>, i: nat)
    requires Upload(env, coding, plan, ws, steps) && i < |ws|
    requires WellNamed(coding, plan) && OnlyOurs(coding, plan, ws[0].sys.st.disk)
    requires forall k :: 0 <= k < i ==> VersionSpared(plan, ws[k], steps[k]) && NoOtherWriter(coding, plan, steps[k])
    ensures OnlyOurs(coding, plan, ws[i].sys.st.disk) && AllSafe(coding, plan, ws[i])
  {
    hide StepTo, VersionSpared, NoOtherWriter, WellNamed, OnlyOurs, Arrived;
    if i > 0 {
      ResultsAreAllSafe(env, coding, plan, ws, steps, i - 1);
      hide AllSafe;
      assert StepTo(env, coding, plan, ws[i - 1], steps[i - 1], ws[i]);
      StepKeepsOurs(env, coding, plan, ws[i - 1], steps[i - 1], ws[i]);
      StepKeepsAllSafe(env, coding, plan, ws[i - 1], steps[i - 1], ws[i]);
    }
  }

  /** A version that does not exist, or holds nothing but a marker, starts out as only ours. */
  lemma EmptyIsOurs(coding: PercentCoding, plan: Plan, disk: Disk)
    requires plan.slot in disk ==> disk[plan.slot].files.Keys <= {MARKER} && disk[plan.slot].dirs == {}
    ensures OnlyOurs(coding, plan, disk)
  {
  }

  lemma StepAt(env: Env, coding: PercentCoding, plan: Plan, ws: seq<World>, steps: seq<Step>, i: nat)
    requires Upload(env, coding, plan, ws, steps) && i < |steps|
    ensures |ws| == |steps| + 1 && StepTo(env, coding, plan, ws[i], steps[i], ws[i + 1])
  {
  }

  /**
   When the client succeeds, the finished version holds exactly the local files: each of them, the
   empty ones too, with exactly its bytes, and nothing else.
   */
  lemma SuccessMeansExactly(
    env: Env, coding: PercentCoding, plan: Plan, ws: seq<World>, steps: seq<Step>, i: nat)
    requires Upload(env, coding, plan, ws, steps) && i < |steps| && steps[i].Close? && steps[i].ok
    requires WellNamed(coding, plan) && OnlyOurs(coding, plan, ws[0].sys.st.disk)
    requires forall k :: 0 <= k <= i ==> VersionSpared(plan, ws[k], steps[k]) && NoOtherWriter(coding, plan, steps[k])
    ensures plan.slot in ws[i + 1].sys.st.disk
    ensures var files := ws[i + 1].sys.st.disk[plan.slot].files;
            && (forall j :: 0 <= j < |plan.jobs| ==>
                  && TargetOf(coding, plan, j).Some?
                  && TargetOf(coding, plan, j).value.path in files
                  && files[TargetOf(coding, plan, j).value.path] == plan.jobs[j].data)
            && (forall p :: p in files ==>
                  exists j :: 0 <= j < |plan.jobs| && TargetOf(coding, plan, j) == Some(Target(p, false)))
  {
    hide Upload, VersionSpared, NoOtherWriter, TargetOf;
    StepAt(env, coding, plan, ws, steps, i);
    ResultsAreAllSafe(env, coding, plan, ws, steps, i + 1);
    SuccessCloses(env, coding, plan, ws[i], steps[i].e, ws[i + 1]);
    PoolAccounting(env, coding, plan, ws, steps, i + 1);
    var w := ws[i + 1];
    var disk, files := w.sys.st.disk, w.sys.st.disk[plan.slot].files;
    forall j | 0 <= j < |plan.jobs|
      ensures TargetOf(coding, plan, j).Some? && TargetOf(coding, plan, j).value.path in files
      ensures files[TargetOf(coding, plan, j).value.path] == plan.jobs[j].data
    {
      assert Reported(w.cl, j);
      var k :| 0 <= k < |w.cl.results| && w.cl.results[k].job == j;
      assert Arrived(coding, plan, disk, j);
    }
    forall p | p in files
      ensures exists j :: 0 <= j < |plan.jobs| && TargetOf(coding, plan, j) == Some(Target(p, false))
    {
      assert OurFile(coding, plan, p, files[p]);
    }
  }
}
