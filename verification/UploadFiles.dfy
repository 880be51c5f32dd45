/**
 The uploading client against the store: it opens a session, sends every local file through a bounded
 pool with up to three attempts each, and asks to finish only if every file got through. The network may lose
 requests and replies, the server may fail half-way or crash, and other clients act in between.
 */
module UploadFiles {
  import opened Prelude
  import opened Paths
  import opened Disk
  import opened Caching
  import opened Storage
  import opened System
  import opened Recovery

  const ATTEMPTS := 3

  datatype Job = Job(key: string, data: Bytes)

  /** What one call of `upload_files` is about to do. */
  datatype Plan = Plan(slot: Slot, jobs: seq<Job>, parallel: nat)

  datatype Outcome = Outcome(job: nat, ok: bool, count: nat)

  datatype Phase = Opening | Pooling | Succeeded | Failed

  /** `logs[j]` is what the attempts at job `j` have reported so far; jobs below `started` have been taken up. */
  datatype Client = Client(
    phase: Phase,
    started: nat,
    inFlight: set<nat>,
    logs: seq<seq<bool>>,
    results: seq<Outcome>,
    counter: nat,
    requests: nat,
    finishAsked: bool)

  datatype World = World(sys: System, cl: Client)

  /** A request names what the server does meanwhile, if anything, and whether a success comes back. */
  datatype Step =
    | Open(e: Option<Event>, ok: bool)
    | TakeUp
    | Attempt(job: nat, e: Option<Event>, ok: bool)
    | GiveUp
    | Close(e: Option<Event>, ok: bool)
    | Other(event: Event)

  // Retrying one file

  /** The reports of a finished retry loop: failures, then a success or the last allowed failure. */
  predicate Settled(log: seq<bool>) {
    && 0 < |log| <= ATTEMPTS
    && (forall k :: 0 <= k < |log| - 1 ==> !log[k])
    && (log[|log| - 1] || |log| == ATTEMPTS)
  }

  class Counter {
    var value: nat

    constructor ()
      ensures value == 1
    {
      value := 1;
    }

    method FetchAdd() returns (before: nat)
      modifies this
      ensures before == old(value) && value == old(value) + 1
    {
      before := value;
      value := value + 1;
    }
  }

  /** `retry_upload`; `network[k]` is what attempt `k` would report. */
  method RetryUpload(network: seq<bool>, count: Counter) returns (ok: bool, position: nat, ghost log: seq<bool>)
    requires |network| == 3
    modifies count
    ensures Settled(log) && log <= network && ok == log[|log| - 1]
    ensures ok <==> exists k :: 0 <= k < 3 && network[k]
    ensures position == old(count.value) && count.value == old(count.value) + 1
  {
    var retry := 0;
    while retry < ATTEMPTS
      invariant 0 <= retry <= ATTEMPTS
      invariant forall k :: 0 <= k < retry ==> !network[k]
      invariant count.value == old(count.value)
    {
      if network[retry] {
        position := count.FetchAdd();
        return true, position, network[..retry + 1];
      }
      retry := retry + 1;
    }
    position := count.FetchAdd();
    return false, position, network;
  }

  // The protocol

  function OpenOp(plan: Plan): Op { Status(plan.slot, Uploading) }

  function CloseOp(plan: Plan): Op { Status(plan.slot, Finish) }

  function TargetOf(coding: PercentCoding, plan: Plan, j: nat): Option<Target>
    requires j < |plan.jobs|
  {
    SaveTarget(coding, plan.jobs[j].key)
  }

  function SaveOp(coding: PercentCoding, plan: Plan, j: nat): Op
    requires j < |plan.jobs|
  {
    Save(plan.slot, TargetOf(coding, plan, j), plan.jobs[j].data)
  }

  predicate Succeeds(s: State, op: Op) {
    match op
    case Status(slot, status) => StatusStep(s, slot, status).1.Ok?
    case Save(slot, target, data) => SaveStep(s, slot, target, data).1.Ok?
    case _ => false
  }

  /**
   A request that never arrives, or that the server completes, breaks off or dies in; success is seen only if there
   was one.
   */
  ghost predicate Requested(env: Env, sys: System, op: Op, e: Option<Event>, ok: bool, sys': System) {
    match e
    case None => sys' == sys && !ok
    case Some(event) =>
      && OpOf(event) == op && Next(env, sys, event, sys')
      && (ok ==> event == Call(op) && Succeeds(sys.st, op))
  }

  ghost predicate ClientStart(plan: Plan, cl: Client) {
    cl == Client(if plan.jobs == [] then Failed else Opening, 0, {}, seq(|plan.jobs|, _ => []), [], 1, 0, false)
  }

  function AfterReport(cl: Client, j: nat, ok: bool): Client
    requires j < |cl.logs|
  {
    var log := cl.logs[j] + [ok];
    var logged := cl.(logs := cl.logs[j := log], requests := cl.requests + 1);
    if ok || |log| == ATTEMPTS then
      logged.(
        inFlight := cl.inFlight - {j}, results := cl.results + [Outcome(j, ok, cl.counter)], counter := cl.counter + 1)
    else
      logged
  }

  predicate AllOk(results: seq<Outcome>) {
    forall i :: 0 <= i < |results| ==> results[i].ok
  }

  ghost predicate StepTo(env: Env, coding: PercentCoding, plan: Plan, w: World, step: Step, w': World) {
    match step
    case Open(e, ok) =>
      && w.cl.phase == Opening
      && Requested(env, w.sys, OpenOp(plan), e, ok, w'.sys)
      && w'.cl == w.cl.(phase := if ok then Pooling else Failed)
    case TakeUp =>
      && w.cl.phase == Pooling && w.cl.started < |plan.jobs| && |w.cl.inFlight| < plan.parallel
      && w' == w.(cl := w.cl.(started := w.cl.started + 1, inFlight := w.cl.inFlight + {w.cl.started}))
    case Attempt(j, e, ok) =>
      && w.cl.phase == Pooling && j in w.cl.inFlight && j < |plan.jobs| == |w.cl.logs|
      && Requested(env, w.sys, SaveOp(coding, plan, j), e, ok, w'.sys)
      && w'.cl == AfterReport(w.cl, j, ok)
    case GiveUp =>
      && w.cl.phase == Pooling && |w.cl.results| == |plan.jobs| && !AllOk(w.cl.results)
      && w' == w.(cl := w.cl.(phase := Failed))
    case Close(e, ok) =>
      && w.cl.phase == Pooling && |w.cl.results| == |plan.jobs| && AllOk(w.cl.results)
      && Requested(env, w.sys, CloseOp(plan), e, ok, w'.sys)
      && w'.cl == w.cl.(phase := if ok then Succeeded else Failed, finishAsked := true)
    case Other(event) =>
      Next(env, w.sys, event, w'.sys) && w'.cl == w.cl
  }

  function EventOf(step: Step): Option<Event> {
    match step
    case Open(e, _) => e
    case Attempt(_, e, _) => e
    case Close(e, _) => e
    case Other(event) => Some(event)
    case _ => None
  }

  /** Client and store going on from any world. */
  ghost predicate Goes(env: Env, coding: PercentCoding, plan: Plan, ws: seq<World>, steps: seq<Step>) {
    && |ws| == |steps| + 1
    && forall i :: 0 <= i < |steps| ==> StepTo(env, coding, plan, ws[i], steps[i], ws[i + 1])
  }

  /** A run of the client from any state of the store. */
  ghost predicate Upload(env: Env, coding: PercentCoding, plan: Plan, ws: seq<World>, steps: seq<Step>) {
    Goes(env, coding, plan, ws, steps) && ClientStart(plan, ws[0].cl)
  }

  // Accounting of the pool

  function Sum(logs: seq<seq<bool>>): nat {
    if logs == [] then 0 else |logs[0]| + Sum(logs[1..])
  }

  lemma {:induction false} SumOneMore(logs: seq<seq<bool>>, j: nat, ok: bool)
    requires j < |logs|
    ensures Sum(logs[j := logs[j] + [ok]]) == Sum(logs) + 1
  {
    var more := logs[j := logs[j] + [ok]];
    if j == 0 {
      assert more[1..] == logs[1..];
    } else {
      assert more[1..] == logs[1..][j - 1 := logs[1..][j - 1] + [ok]];
      SumOneMore(logs[1..], j - 1, ok);
    }
  }

  lemma {:induction false} SumBounds(logs: seq<seq<bool>>)
    requires forall j :: 0 <= j < |logs| ==> Settled(logs[j])
    ensures |logs| <= Sum(logs) <= ATTEMPTS * |logs|
  {
    if logs != [] {
      assert Settled(logs[0]);
      SumBounds(logs[1..]);
    }
  }

  lemma {:induction false} SumOfNothing(logs: seq<seq<bool>>)
    requires forall j :: 0 <= j < |logs| ==> logs[j] == []
    ensures Sum(logs) == 0
  {
    if logs != [] {
      SumOfNothing(logs[1..]);
    }
  }

  /** An attempt is still owed to a job in flight: it has only failed, and fewer than three times. */
  predicate Pending(log: seq<bool>) {
    |log| < ATTEMPTS && forall k :: 0 <= k < |log| ==> !log[k]
  }

  ghost predicate Reported(cl: Client, j: nat) {
    exists i :: 0 <= i < |cl.results| && cl.results[i].job == j
  }

  ghost predicate Counted(plan: Plan, cl: Client) {
    && |cl.logs| == |plan.jobs| && cl.started <= |plan.jobs|
    && |cl.inFlight| <= plan.parallel && |cl.inFlight| + |cl.results| == cl.started
    && cl.counter == |cl.results| + 1
    && cl.requests == Sum(cl.logs)
  }

  /** Every job is waiting, in flight or reported, and only one of these. */
  ghost predicate Tracked(cl: Client) {
    && (forall j :: j in cl.inFlight ==> j < cl.started <= |cl.logs| && Pending(cl.logs[j]) && !Reported(cl, j))
    && (forall j :: 0 <= j < cl.started ==> j in cl.inFlight || Reported(cl, j))
    && (forall j :: cl.started <= j < |cl.logs| ==> cl.logs[j] == [])
  }

  ghost predicate Concluded(log: seq<bool>, ok: bool) {
    Settled(log) && ok == log[|log| - 1]
  }

  ghost predicate Listed(cl: Client) {
    && (forall i :: 0 <= i < |cl.results| ==>
          cl.results[i].job < cl.started <= |cl.logs| && cl.results[i].count == i + 1)
    && (forall i :: 0 <= i < |cl.results| ==> Concluded(cl.logs[cl.results[i].job], cl.results[i].ok))
    && (forall i, k :: 0 <= i < k < |cl.results| ==> cl.results[i].job != cl.results[k].job)
  }

  ghost predicate Phased(plan: Plan, cl: Client) {
    && (cl.phase == Opening ==> cl.started == 0)
    && (cl.finishAsked ==> |cl.results| == |plan.jobs| && AllOk(cl.results) && cl.phase in {Succeeded, Failed})
    && (cl.phase == Succeeded ==> cl.finishAsked)
    && (cl.phase == Failed && plan.jobs != [] && |cl.results| == |plan.jobs| && AllOk(cl.results) ==> cl.finishAsked)
  }

  ghost predicate Accounted(plan: Plan, cl: Client) {
    Counted(plan, cl) && Tracked(cl) && Listed(cl) && Phased(plan, cl)
  }

  lemma TakeUpKeepsAccounts(plan: Plan, cl: Client)
    requires Accounted(plan, cl) && cl.phase == Pooling && cl.started < |plan.jobs| && |cl.inFlight| < plan.parallel
    ensures Accounted(plan, cl.(started := cl.started + 1, inFlight := cl.inFlight + {cl.started}))
  {
  }

  /** A report that leaves the job in flight. */
  lemma RetryKeepsAccounts(plan: Plan, cl: Client, j: nat)
    requires Accounted(plan, cl) && cl.phase == Pooling && j in cl.inFlight && |cl.logs[j]| + 1 < ATTEMPTS
    ensures Accounted(plan, AfterReport(cl, j, false))
  {
    var cl' := AfterReport(cl, j, false);
    hide Sum, Settled;
    SumOneMore(cl.logs, j, false);
    forall k ensures Reported(cl', k) <==> Reported(cl, k) {
    }
    forall i | 0 <= i < |cl.results| ensures cl.results[i].job != j {
    }
  }

  lemma SettleReports(cl: Client, j: nat, ok: bool, k: nat)
    requires j < |cl.logs| && (ok || |cl.logs[j]| + 1 == ATTEMPTS)
    ensures Reported(AfterReport(cl, j, ok), k) <==> Reported(cl, k) || k == j
  {
    var cl', n := AfterReport(cl, j, ok), |cl.results|;
    assert cl'.results[n] == Outcome(j, ok, cl.counter) && cl'.results[..n] == cl.results;
    if Reported(cl, k) {
      var i :| 0 <= i < n && cl.results[i].job == k;
      assert cl'.results[i].job == k;
    }
    assert cl'.results[n].job == j;
  }

  lemma SettleKeepsTracked(cl: Client, j: nat, ok: bool)
    requires Tracked(cl) && j in cl.inFlight && (ok || |cl.logs[j]| + 1 == ATTEMPTS)
    ensures Tracked(AfterReport(cl, j, ok))
  {
    var cl' := AfterReport(cl, j, ok);
    forall k: nat ensures Reported(cl', k) <==> Reported(cl, k) || k == j {
      SettleReports(cl, j, ok, k);
    }
    hide Reported, Pending;
  }

  lemma SettleKeepsListed(cl: Client, j: nat, ok: bool)
    requires Listed(cl) && cl.counter == |cl.results| + 1
    requires j < cl.started <= |cl.logs| && Pending(cl.logs[j]) && !Reported(cl, j)
    requires ok || |cl.logs[j]| + 1 == ATTEMPTS
    ensures Listed(AfterReport(cl, j, ok))
  {
  }

  /** A report that settles the job. */
  lemma SettleKeepsAccounts(plan: Plan, cl: Client, j: nat, ok: bool)
    requires Accounted(plan, cl) && cl.phase == Pooling && j in cl.inFlight && (ok || |cl.logs[j]| + 1 == ATTEMPTS)
    ensures Accounted(plan, AfterReport(cl, j, ok))
  {
    SettleKeepsTracked(cl, j, ok);
    SettleKeepsListed(cl, j, ok);
    hide Sum, Tracked, Listed;
    SumOneMore(cl.logs, j, ok);
    assert |cl.inFlight - {j}| == |cl.inFlight| - 1;
  }

  lemma PhaseKeepsAccounts(plan: Plan, cl: Client, cl': Client)
    requires Accounted(plan, cl) && cl' == cl.(phase := cl'.phase, finishAsked := cl'.finishAsked) && Phased(plan, cl')
    ensures Accounted(plan, cl')
  {
  }

  lemma NothingStarted(plan: Plan, cl: Client)
    requires Accounted(plan, cl) && cl.phase == Opening
    ensures cl.results == []
  {
  }

  lemma StillOwed(plan: Plan, cl: Client, j: nat)
    requires Accounted(plan, cl) && j in cl.inFlight
    ensures j < |cl.logs| && Pending(cl.logs[j])
  {
  }

  lemma StepKeepsAccounts(env: Env, coding: PercentCoding, plan: Plan, w: World, step: Step, w': World)
    requires Accounted(plan, w.cl) && StepTo(env, coding, plan, w, step, w')
    ensures Accounted(plan, w'.cl)
  {
    hide Requested, Tracked, Listed, Counted, Next, AfterReport;
    match step
    case TakeUp => TakeUpKeepsAccounts(plan, w.cl);
    case Attempt(j, e, ok) =>
      StillOwed(plan, w.cl, j);
      if ok || |w.cl.logs[j]| + 1 == ATTEMPTS {
        SettleKeepsAccounts(plan, w.cl, j, ok);
      } else {
        RetryKeepsAccounts(plan, w.cl, j);
      }
    case Other(_) =>
    case Open(_, _) =>
      assert w.cl.results == [] by {
        NothingStarted(plan, w.cl);
      }
      PhaseKeepsAccounts(plan, w.cl, w'.cl);
    case _ => PhaseKeepsAccounts(plan, w.cl, w'.cl);
  }

  lemma StartIsAccounted(plan: Plan, cl: Client)
    requires ClientStart(plan, cl)
    ensures Accounted(plan, cl)
  {
    SumOfNothing(cl.logs);
  }

  lemma {:induction false} GoingIsAccounted(
    env: Env, coding: PercentCoding, plan: Plan, ws: seq<World>, steps: seq<Step>, i: nat)
    requires Goes(env, coding, plan, ws, steps) && i < |ws| && Accounted(plan, ws[0].cl)
    ensures Accounted(plan, ws[i].cl)
  {
    hide StepTo, Accounted;
    if i > 0 {
      GoingIsAccounted(env, coding, plan, ws, steps, i - 1);
      assert StepTo(env, coding, plan, ws[i - 1], steps[i - 1], ws[i]);
      StepKeepsAccounts(env, coding, plan, ws[i - 1], steps[i - 1], ws[i]);
    }
  }

  lemma PoolIsAccounted(env: Env, coding: PercentCoding, plan: Plan, ws: seq<World>, steps: seq<Step>, i: nat)
    requires Upload(env, coding, plan, ws, steps) && i < |ws|
    ensures Accounted(plan, ws[i].cl)
  {
    hide Goes, Accounted;
    StartIsAccounted(plan, ws[0].cl);
    GoingIsAccounted(env, coding, plan, ws, steps, i);
  }

  lemma AllReported(plan: Plan, cl: Client)
    requires Accounted(plan, cl) && |cl.results| == |plan.jobs|
    ensures forall j :: 0 <= j < |plan.jobs| ==> Reported(cl, j) && Settled(cl.logs[j])
  {
  }

  /**
   For every schedule of the pool and every fate of the requests: at most `parallel` files are in flight;
   reports are numbered 1, 2, ... as they appear and never name a file twice; and once all have reported, every
   file has, successes and failures add up, between n and 3n requests were made, and (when the client has
   ended) Finish was asked for exactly if none failed.
   */
  lemma PoolAccounting(env: Env, coding: PercentCoding, plan: Plan, ws: seq<World>, steps: seq<Step>, i: nat)
    requires Upload(env, coding, plan, ws, steps) && i < |ws|
    ensures var cl, n := ws[i].cl, |plan.jobs|;
            && |cl.inFlight| <= plan.parallel
            && |cl.results| <= n
            && (forall k :: 0 <= k < |cl.results| ==> cl.results[k].count == k + 1 && cl.results[k].job < n)
            && (forall k, l :: 0 <= k < l < |cl.results| ==> cl.results[k].job != cl.results[l].job)
            && (|cl.results| == n ==>
                  && (forall j :: 0 <= j < n ==> Reported(cl, j))
                  && n <= cl.requests <= 3 * n)
            && (cl.finishAsked ==> |cl.results| == n && AllOk(cl.results))
            && (n > 0 && |cl.results| == n && cl.phase in {Succeeded, Failed} ==>
                  (cl.finishAsked <==> AllOk(cl.results)))
            && (cl.phase == Succeeded ==> cl.finishAsked)
  {
    PoolIsAccounted(env, coding, plan, ws, steps, i);
    var cl, n := ws[i].cl, |plan.jobs|;
    if |cl.results| == n {
      AllReported(plan, cl);
      SumBounds(cl.logs);
    }
  }

  /** A client with no file to send fails at once and asks the server for nothing. */
  lemma {:induction false} NothingToUpload(
    env: Env, coding: PercentCoding, plan: Plan, ws: seq<World>, steps: seq<Step>, i: nat)
    requires Upload(env, coding, plan, ws, steps) && i < |ws| && plan.jobs == []
    ensures ws[i].cl.phase == Failed && ws[i].cl.requests == 0 && !ws[i].cl.finishAsked
    ensures i < |steps| ==> steps[i].Other?
  {
    hide Next, Requested;
    if i > 0 {
      NothingToUpload(env, coding, plan, ws, steps, i - 1);
      assert StepTo(env, coding, plan, ws[i - 1], steps[i - 1], ws[i]);
    }
    if i < |steps| {
      assert StepTo(env, coding, plan, ws[i], steps[i], ws[i + 1]);
    }
  }

  /** Whatever the server does about a request, or if it never hears of it, the client may hear of failure. */
  lemma AnyRequestMayFail(env: Env, s: System, op: Op, e: Event, s': System)
    ensures Requested(env, s, op, None, false, s)
    ensures OpOf(e) == op && Next(env, s, e, s') ==> Requested(env, s, op, Some(e), false, s')
  {
  }

  /** And anybody may do anything in between. */
  lemma OthersMayAct(env: Env, coding: PercentCoding, plan: Plan, w: World, e: Event, s': System)
    requires Next(env, w.sys, e, s')
    ensures StepTo(env, coding, plan, w, Other(e), World(s', w.cl))
  {
  }

  /** Something that the pool can do next: take up a job, or hear of one. */
  ghost predicate CanGoOn(env: Env, coding: PercentCoding, plan: Plan, w: World) {
    exists step: Step, w' :: (step.TakeUp? || step.Attempt?) && StepTo(env, coding, plan, w, step, w')
  }

  lemma GoesOn(env: Env, coding: PercentCoding, plan: Plan, w: World)
    requires Accounted(plan, w.cl) && w.cl.phase == Pooling && |w.cl.results| < |plan.jobs|
    ensures CanGoOn(env, coding, plan, w) <==> 0 < plan.parallel
    ensures w.cl.started < |plan.jobs| && |w.cl.inFlight| < plan.parallel ==>
              exists w' :: StepTo(env, coding, plan, w, TakeUp, w')
  {
    var taken := w.(cl := w.cl.(started := w.cl.started + 1, inFlight := w.cl.inFlight + {w.cl.started}));
    if w.cl.started < |plan.jobs| && |w.cl.inFlight| < plan.parallel {
      assert StepTo(env, coding, plan, w, TakeUp, taken);
    } else if w.cl.inFlight != {} {
      var j :| j in w.cl.inFlight;
      StillOwed(plan, w.cl, j);
      AnyRequestMayFail(env, w.sys, SaveOp(coding, plan, j), Call(Idle), w.sys);
      var told := World(w.sys, AfterReport(w.cl, j, false));
      assert StepTo(env, coding, plan, w, Attempt(j, None, false), told);
    }
  }

  /** The pool can always go on, as long as not all have reported, exactly if it has room for any job. */
  lemma PoolGoesOn(env: Env, coding: PercentCoding, plan: Plan, ws: seq<World>, steps: seq<Step>, i: nat)
    requires Upload(env, coding, plan, ws, steps) && i < |ws|
    requires ws[i].cl.phase == Pooling && |ws[i].cl.results| < |plan.jobs|
    ensures CanGoOn(env, coding, plan, ws[i]) <==> 0 < plan.parallel
    ensures ws[i].cl.started < |plan.jobs| && |ws[i].cl.inFlight| < plan.parallel ==>
              exists w' :: StepTo(env, coding, plan, ws[i], TakeUp, w')
  {
    PoolIsAccounted(env, coding, plan, ws, steps, i);
    hide Upload;
    GoesOn(env, coding, plan, ws[i]);
  }

  // Commit safety

  /** The file of job `j` is on the server, under its path, with its bytes. */
  ghost predicate Arrived(coding: PercentCoding, plan: Plan, disk: Disk, j: nat)
    requires j < |plan.jobs|
  {
    var target := TargetOf(coding, plan, j);
    target.Some? && HasFile(disk, plan.slot, target.value.path, plan.jobs[j].data)
  }

  /** Jobs that commit safety speaks of: not empty, and not the marker file itself. */
  predicate Substantial(coding: PercentCoding, plan: Plan, j: nat)
    requires j < |plan.jobs|
  {
    && plan.jobs[j].data != []
    && (TargetOf(coding, plan, j).Some? ==> TargetOf(coding, plan, j).value.path != MARKER)
  }

  ghost predicate Safe(coding: PercentCoding, plan: Plan, w: World) {
    forall i :: 0 <= i < |w.cl.results| ==>
      && w.cl.results[i].job < |plan.jobs|
      && (w.cl.results[i].ok && Substantial(coding, plan, w.cl.results[i].job) ==>
            Arrived(coding, plan, w.sys.st.disk, w.cl.results[i].job))
  }

  /** No delete, by whomever, removes the version being uploaded. */
  ghost predicate VersionSpared(plan: Plan, w: World, step: Step) {
    EventOf(step).Some? ==> SparesSlot(w.sys, EventOf(step).value, plan.slot)
  }

  lemma StepKeepsStored(
    env: Env, coding: PercentCoding, plan: Plan, w: World, step: Step, w': World, p: Path, bytes: Bytes)
    requires StepTo(env, coding, plan, w, step, w') && VersionSpared(plan, w, step)
    requires HasFile(w.sys.st.disk, plan.slot, p, bytes) && p != MARKER
    ensures HasFile(w'.sys.st.disk, plan.slot, p, bytes)
  {
    hide Next, SparesSlot, HasFile, TargetOf, Succeeds;
    if EventOf(step).Some? {
      StepKeepsFile(env, w.sys, EventOf(step).value, w'.sys, plan.slot, p, bytes);
    }
  }

  lemma {:induction false} StoredStays(
    env: Env, coding: PercentCoding, plan: Plan, ws: seq<World>, steps: seq<Step>, k: nat, i: nat,
    p: Path, bytes: Bytes)
    requires Goes(env, coding, plan, ws, steps) && k <= i < |ws|
    requires forall l :: k <= l < i ==> VersionSpared(plan, ws[l], steps[l])
    requires HasFile(ws[k].sys.st.disk, plan.slot, p, bytes) && p != MARKER
    ensures HasFile(ws[i].sys.st.disk, plan.slot, p, bytes)
    decreases i
  {
    hide StepTo, VersionSpared, HasFile;
    if k < i {
      StoredStays(env, coding, plan, ws, steps, k, i - 1, p, bytes);
      assert StepTo(env, coding, plan, ws[i - 1], steps[i - 1], ws[i]);
      StepKeepsStored(env, coding, plan, ws[i - 1], steps[i - 1], ws[i], p, bytes);
    }
  }

  lemma StepKeepsArrived(
    env: Env, coding: PercentCoding, plan: Plan, w: World, step: Step, w': World, j: nat)
    requires StepTo(env, coding, plan, w, step, w') && VersionSpared(plan, w, step) && j < |plan.jobs|
    requires Arrived(coding, plan, w.sys.st.disk, j) && TargetOf(coding, plan, j).value.path != MARKER
    ensures Arrived(coding, plan, w'.sys.st.disk, j)
  {
    hide StepTo, VersionSpared, HasFile, TargetOf;
    StepKeepsStored(env, coding, plan, w, step, w', TargetOf(coding, plan, j).value.path, plan.jobs[j].data);
  }

  /** Why a success can be believed: files are written once, so only the attempt that stored everything reports it. */
  lemma SuccessArrives(env: Env, coding: PercentCoding, plan: Plan, w: World, j: nat, e: Option<Event>, w': World)
    requires j < |plan.jobs| && Requested(env, w.sys, SaveOp(coding, plan, j), e, true, w'.sys)
    requires plan.jobs[j].data != []
    ensures Arrived(coding, plan, w'.sys.st.disk, j)
  {
  }

  lemma ArrivedHasTarget(coding: PercentCoding, plan: Plan, disk: Disk, j: nat)
    requires j < |plan.jobs| && Arrived(coding, plan, disk, j)
    ensures TargetOf(coding, plan, j).Some?
  {
  }

  lemma StepKeepsSafe(env: Env, coding: PercentCoding, plan: Plan, w: World, step: Step, w': World)
    requires Safe(coding, plan, w) && StepTo(env, coding, plan, w, step, w') && VersionSpared(plan, w, step)
    ensures Safe(coding, plan, w')
  {
    hide Arrived, TargetOf, Requested, VersionSpared;
    forall i | 0 <= i < |w'.cl.results|
      ensures w'.cl.results[i].job < |plan.jobs|
      ensures w'.cl.results[i].ok && Substantial(coding, plan, w'.cl.results[i].job) ==>
                Arrived(coding, plan, w'.sys.st.disk, w'.cl.results[i].job)
    {
      var outcome := w'.cl.results[i];
      if i < |w.cl.results| {
        assert outcome == w.cl.results[i];
        if outcome.ok && Substantial(coding, plan, outcome.job) {
          ArrivedHasTarget(coding, plan, w.sys.st.disk, outcome.job);
          StepKeepsArrived(env, coding, plan, w, step, w', outcome.job);
        }
      } else {
        assert outcome == Outcome(step.job, step.ok, w.cl.counter);
        if step.ok && Substantial(coding, plan, step.job) {
          SuccessArrives(env, coding, plan, w, step.job, step.e, w');
        }
      }
    }
  }

  lemma NoResultsYet(coding: PercentCoding, plan: Plan, w: World)
    requires w.cl.results == []
    ensures Safe(coding, plan, w)
  {
  }

  lemma {:induction false} ResultsAreSafe(
    env: Env, coding: PercentCoding, plan: Plan, ws: seq<World>, steps: seq<Step>, i: nat)
    requires Upload(env, coding, plan, ws, steps) && i < |ws|
    requires forall k :: 0 <= k < i ==> VersionSpared(plan, ws[k], steps[k])
    ensures Safe(coding, plan, ws[i])
  {
    hide StepTo, VersionSpared, Safe;
    if i == 0 {
      NoResultsYet(coding, plan, ws[0]);
    } else {
      ResultsAreSafe(env, coding, plan, ws, steps, i - 1);
      assert StepTo(env, coding, plan, ws[i - 1], steps[i - 1], ws[i]);
      StepKeepsSafe(env, coding, plan, ws[i - 1], steps[i - 1], ws[i]);
    }
  }

  /**
   Commit safety: if the client has succeeded, every file that is not empty is on the server under
   its key with exactly its bytes, whatever the schedule, the network, the crashes and the other clients did,
   provided only that the version was not deleted meanwhile.
   */
  lemma SuccessMeansArrived(
    env: Env, coding: PercentCoding, plan: Plan, ws: seq<World>, steps: seq<Step>, i: nat, j: nat)
    requires Upload(env, coding, plan, ws, steps) && i < |ws| && ws[i].cl.phase == Succeeded
    requires forall k :: 0 <= k < i ==> VersionSpared(plan, ws[k], steps[k])
    requires j < |plan.jobs| && Substantial(coding, plan, j)
    ensures Arrived(coding, plan, ws[i].sys.st.disk, j)
  {
    hide Upload, VersionSpared, Arrived, Substantial;
    PoolAccounting(env, coding, plan, ws, steps, i);
    ResultsAreSafe(env, coding, plan, ws, steps, i);
    assert Reported(ws[i].cl, j);
    var k :| 0 <= k < |ws[i].cl.results| && ws[i].cl.results[k].job == j;
    assert ws[i].cl.results[k].ok;
  }

  /** At the moment of success the session is closed and the marker gone. */
  lemma SuccessCloses(env: Env, coding: PercentCoding, plan: Plan, w: World, e: Option<Event>, w': World)
    requires StepTo(env, coding, plan, w, Close(e, true), w')
    ensures !InSession(w'.sys.st, plan.slot) && plan.slot in w'.sys.st.disk && !Marked(w'.sys.st.disk[plan.slot])
  {
  }

  // Why a retry or a second run may not complete an upload

  ghost predicate Confirmed(cl: Client, j: nat) {
    exists i :: 0 <= i < |cl.results| && cl.results[i].job == j && cl.results[i].ok
  }

  ghost predicate StandsInTheWay(dir: Dir, p: Path) {
    exists q :: q in Ancestors(p) && q != MARKER && q in dir.files
  }

  /**
   A save of `data` at `t` fails as long as the version is not deleted: there is something at the place already,
   and it would have to be written to, or a file stands where a directory is needed. (A marker does not count:
   Finish takes it away.)
   */
  ghost predicate Stuck(disk: Disk, slot: Slot, t: Target, data: Bytes) {
    slot in disk &&
    (|| (data != [] && t.path in disk[slot].dirs)
     || (data != [] && t.path != MARKER && t.path in disk[slot].files)
     || StandsInTheWay(disk[slot], t.path))
  }

  lemma StuckFails(s: State, slot: Slot, t: Target, data: Bytes)
    requires Stuck(s.disk, slot, t, data)
    ensures SaveStep(s, slot, Some(t), data).1.Err?
  {
  }

  lemma EventKeepsStuck(env: Env, s: System, e: Event, s': System, slot: Slot, t: Target, data: Bytes)
    requires Next(env, s, e, s') && SparesSlot(s, e, slot) && Stuck(s.st.disk, slot, t, data)
    ensures Stuck(s'.st.disk, slot, t, data)
  {
    hide Next, SparesSlot, Ancestors;
    var dir := s.st.disk[slot];
    if data != [] && t.path in dir.dirs {
      StepKeepsDir(env, s, e, s', slot, t.path);
    } else if data != [] && t.path != MARKER && t.path in dir.files {
      StepKeepsFile(env, s, e, s', slot, t.path, dir.files[t.path]);
    } else {
      var q :| q in Ancestors(t.path) && q != MARKER && q in dir.files;
      StepKeepsFile(env, s, e, s', slot, q, dir.files[q]);
    }
  }

  /** The client has not heard of success for a job, and never will. */
  ghost predicate Hopeless(coding: PercentCoding, plan: Plan, w: World, j: nat)
    requires j < |plan.jobs|
  {
    && !Confirmed(w.cl, j) && TargetOf(coding, plan, j).Some?
    && Stuck(w.sys.st.disk, plan.slot, TargetOf(coding, plan, j).value, plan.jobs[j].data)
  }

  lemma AttemptAtStuckFails(
    env: Env, coding: PercentCoding, plan: Plan, w: World, j: nat, e: Option<Event>, ok: bool, w': World)
    requires j < |plan.jobs| && Hopeless(coding, plan, w, j)
    requires Requested(env, w.sys, SaveOp(coding, plan, j), e, ok, w'.sys)
    ensures !ok
  {
    hide TargetOf, Next, Stuck, SaveStep;
    StuckFails(w.sys.st, plan.slot, TargetOf(coding, plan, j).value, plan.jobs[j].data);
  }

  lemma StepLeavesUnconfirmed(env: Env, coding: PercentCoding, plan: Plan, w: World, step: Step, w': World, j: nat)
    requires j < |plan.jobs| && Hopeless(coding, plan, w, j) && StepTo(env, coding, plan, w, step, w')
    ensures !Confirmed(w'.cl, j)
  {
    hide TargetOf, Requested, Stuck;
    if step.Attempt? && step.job == j {
      AttemptAtStuckFails(env, coding, plan, w, j, step.e, step.ok, w');
    }
    forall i | 0 <= i < |w'.cl.results| && w'.cl.results[i].job == j ensures !w'.cl.results[i].ok {
      if i < |w.cl.results| {
        assert w'.cl.results[i] == w.cl.results[i];
      } else {
        assert w'.cl.results[i] == Outcome(step.job, step.ok, w.cl.counter);
      }
    }
  }

  lemma StepKeepsHopeless(env: Env, coding: PercentCoding, plan: Plan, w: World, step: Step, w': World, j: nat)
    requires j < |plan.jobs| && Hopeless(coding, plan, w, j)
    requires StepTo(env, coding, plan, w, step, w') && VersionSpared(plan, w, step)
    ensures Hopeless(coding, plan, w', j)
  {
    StepLeavesUnconfirmed(env, coding, plan, w, step, w', j);
    hide Next, SparesSlot, Stuck, TargetOf, Succeeds, Confirmed;
    if EventOf(step).Some? {
      EventKeepsStuck(
        env, w.sys, EventOf(step).value, w'.sys, plan.slot, TargetOf(coding, plan, j).value, plan.jobs[j].data);
    }
  }

  lemma {:induction false} StaysHopeless(
    env: Env, coding: PercentCoding, plan: Plan, ws: seq<World>, steps: seq<Step>, k: nat, i: nat, j: nat)
    requires Goes(env, coding, plan, ws, steps) && k <= i < |ws|
    requires forall l :: k <= l < i ==> VersionSpared(plan, ws[l], steps[l])
    requires j < |plan.jobs| && Hopeless(coding, plan, ws[k], j)
    ensures Hopeless(coding, plan, ws[i], j)
    decreases i
  {
    hide StepTo, VersionSpared, Hopeless;
    if k < i {
      StaysHopeless(env, coding, plan, ws, steps, k, i - 1, j);
      assert StepTo(env, coding, plan, ws[i - 1], steps[i - 1], ws[i]);
      StepKeepsHopeless(env, coding, plan, ws[i - 1], steps[i - 1], ws[i], j);
    }
  }

  lemma SuccessConfirms(plan: Plan, cl: Client, j: nat)
    requires Accounted(plan, cl) && j < |plan.jobs| && !Confirmed(cl, j)
    ensures cl.phase != Succeeded
  {
    if |cl.results| == |plan.jobs| {
      AllReported(plan, cl);
      assert Reported(cl, j);
      var i :| 0 <= i < |cl.results| && cl.results[i].job == j;
      assert !cl.results[i].ok;
    }
  }

  /**
   Once the file of a job that is not empty is on the server, even in part, or cannot be put there, while the client
   has not heard of its success, the client no longer succeeds.
   */
  lemma HopelessNeverSucceeds(
    env: Env, coding: PercentCoding, plan: Plan, ws: seq<World>, steps: seq<Step>, k: nat, i: nat, j: nat)
    requires Goes(env, coding, plan, ws, steps) && k <= i < |ws| && Accounted(plan, ws[0].cl)
    requires forall l :: k <= l < i ==> VersionSpared(plan, ws[l], steps[l])
    requires j < |plan.jobs| && Hopeless(coding, plan, ws[k], j)
    ensures ws[i].cl.phase != Succeeded
  {
    hide Goes, VersionSpared, Stuck, TargetOf, Accounted, Confirmed;
    StaysHopeless(env, coding, plan, ws, steps, k, i, j);
    GoingIsAccounted(env, coding, plan, ws, steps, i);
    SuccessConfirms(plan, ws[i].cl, j);
  }

  lemma LostReply(env: Env, coding: PercentCoding, plan: Plan, w: World, j: nat, w': World)
    requires j < |plan.jobs| && Substantial(coding, plan, j) && Accounted(plan, w.cl)
    requires StepTo(env, coding, plan, w, Attempt(j, Some(Call(SaveOp(coding, plan, j))), false), w')
    requires Succeeds(w.sys.st, SaveOp(coding, plan, j))
    ensures Hopeless(coding, plan, w', j)
  {
    hide TargetOf;
    SaveSucceedsExactly(w.sys.st, plan.slot, TargetOf(coding, plan, j), plan.jobs[j].data);
    hide SaveStep;
    assert !Reported(w.cl, j);
    assert forall i :: 0 <= i < |w.cl.results| ==> w'.cl.results[i] == w.cl.results[i];
  }

  /** And a single lost reply to a save that succeeded makes the upload fail, whatever the retries do. */
  lemma LostReplyFails(
    env: Env, coding: PercentCoding, plan: Plan, ws: seq<World>, steps: seq<Step>, k: nat, i: nat, j: nat)
    requires Upload(env, coding, plan, ws, steps) && k < i < |ws|
    requires forall l :: k < l < i ==> VersionSpared(plan, ws[l], steps[l])
    requires j < |plan.jobs| && Substantial(coding, plan, j)
    requires steps[k] == Attempt(j, Some(Call(SaveOp(coding, plan, j))), false)
    requires Succeeds(ws[k].sys.st, SaveOp(coding, plan, j))
    ensures ws[i].cl.phase != Succeeded
  {
    hide VersionSpared, TargetOf, Next;
    assert StepTo(env, coding, plan, ws[k], steps[k], ws[k + 1]);
    PoolIsAccounted(env, coding, plan, ws, steps, k);
    PoolIsAccounted(env, coding, plan, ws, steps, 0);
    LostReply(env, coding, plan, ws[k], j, ws[k + 1]);
    hide Goes, Substantial, Hopeless, Accounted;
    HopelessNeverSucceeds(env, coding, plan, ws, steps, k + 1, i, j);
  }
}
