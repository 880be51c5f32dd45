/** The client's upload, a release and a request, put together. */
module EndToEnd {
  import opened Prelude
  import opened Paths
  import opened Disk
  import opened Caching
  import opened Storage
  import opened UploadFiles
  import opened UploadExactly
  import opened LocalFiles
  import opened Serving
  import Lifecycle

  /** A GET of the file at `p`, once the version at `slot` is online, answers with `bytes`. */
  ghost predicate Answers(
    env: Env, coding: PercentCoding, gunzip: Bytes -> Bytes, online: State, slot: Slot, p: Path, bytes: Bytes,
    accept: Option<string>, modified: Option<nat>)
  {
    var key := RequestKey(coding, coding.encode("/" + Join(p)));
    && key.Some? && Lookup(online.cache, slot.domain, key.value).Some?
    && var item := Lookup(online.cache, slot.domain, key.value).value;
       Fits(item) ==>
         var reply := ItemReply(item, online.disk, accept, None, modified);
         reply.status == 200 && Decoded(gunzip, reply) == bytes
  }

  lemma ReleasedIsAnswered(
    env: Env, coding: PercentCoding, gunzip: Bytes -> Bytes, s: State, slot: Slot, order: seq<Path>, p: Path,
    accept: Option<string>, modified: Option<nat>)
    requires coding.Lawful() && IsPlain(p) && forall b :: gunzip(env.gzip(b)) == b
    requires slot in s.disk && p in s.disk[slot].files
    requires CleanNames(env, slot, s.disk[slot].files) && IsListing(order, s.disk[slot].files.Keys)
    ensures Answers(
              env, coding, gunzip, Released(env, s, slot, order), slot, p, s.disk[slot].files[p], accept, modified)
  {
    hide CleanNames, KeyOf, MakeItem, RequestKey, ItemReply, IsPlain, Collect;
    var up := Lifecycle.SavedFile(p, s.disk[slot].files[p]);
    Lifecycle.ReleasedIsFound(env, coding, s, slot, order, up);
    if Fits(MakeItem(env, slot, up.path, up.data)) {
      Lifecycle.DownloadIsUpload(
        env, gunzip, coding, Released(env, s, slot, order), slot, coding.encode("/" + Join(p)), up, accept, modified);
    }
  }

  lemma CopyIsReleasable(
    env: Env, coding: PercentCoding, md5: Bytes -> string, seen: Disk, base: string, local: map<Path, Bytes>,
    walk: seq<Path>, plan: Plan, ws: seq<World>, steps: seq<Step>, i: nat)
    requires Prepared(env, md5, seen, base, local, walk, plan)
    requires forall q :: q in local ==> Survives(coding, base, q) && q[0] != MARKER[0]
    requires forall q, r :: q in local && r in local ==> q !in Ancestors(r)
    requires Upload(env, coding, plan, ws, steps) && i < |steps| && steps[i].Close? && steps[i].ok
    requires OnlyOurs(coding, plan, ws[0].sys.st.disk)
    requires forall k :: 0 <= k <= i ==> VersionSpared(plan, ws[k], steps[k]) && NoOtherWriter(coding, plan, steps[k])
    ensures |ws| == |steps| + 1
    ensures var done := ws[i + 1].sys.st;
            && plan.slot in done.disk && done.disk[plan.slot].files == local
            && ReleaseTarget(done, plan.slot.domain, Some(plan.slot.version)) == Ok(plan.slot.version)
  {
    hide Upload, VersionSpared, NoOtherWriter, OnlyOurs, Survives, Prepared;
    UploadIsACopy(env, coding, md5, seen, base, local, walk, plan, ws, steps, i);
    StepAt(env, coding, plan, ws, steps, i);
    SuccessCloses(env, coding, plan, ws[i], steps[i].e, ws[i + 1]);
  }

  /**
   A directory uploaded into an empty version through an unreliable network and then released is what
   visitors get: a GET of each local path is answered with the local file's bytes.
   */
  lemma UploadedDirectoryIsServed(
    env: Env, coding: PercentCoding, gunzip: Bytes -> Bytes, md5: Bytes -> string, seen: Disk, base: string,
    local: map<Path, Bytes>, walk: seq<Path>, plan: Plan, ws: seq<World>, steps: seq<Step>, i: nat,
    order: seq<Path>, p: Path, accept: Option<string>, modified: Option<nat>)
    requires coding.Lawful() && (forall b :: gunzip(env.gzip(b)) == b)
    requires Prepared(env, md5, seen, base, local, walk, plan)
    requires forall q :: q in local ==> Survives(coding, base, q) && q[0] != MARKER[0]
    requires forall q, r :: q in local && r in local ==> q !in Ancestors(r)
    requires Upload(env, coding, plan, ws, steps) && i < |steps| && steps[i].Close? && steps[i].ok
    requires OnlyOurs(coding, plan, ws[0].sys.st.disk)
    requires forall k :: 0 <= k <= i ==> VersionSpared(plan, ws[k], steps[k]) && NoOtherWriter(coding, plan, steps[k])
    requires CleanNames(env, plan.slot, local) && IsListing(order, local.Keys) && p in local
    ensures |ws| == |steps| + 1
    ensures var done := ws[i + 1].sys.st;
            && ReleaseTarget(done, plan.slot.domain, Some(plan.slot.version)) == Ok(plan.slot.version)
            && plan.slot in done.disk && done.disk[plan.slot].files == local
            && var online := Released(env, done, plan.slot, order);
               Answers(env, coding, gunzip, online, plan.slot, p, local[p], accept, modified)
  {
    hide Upload, VersionSpared, NoOtherWriter, OnlyOurs, CleanNames, Answers, Prepared, Released;
    CopyIsReleasable(env, coding, md5, seen, base, local, walk, plan, ws, steps, i);
    assert IsPlain(p);
    hide Survives, IsPlain;
    ReleasedIsAnswered(env, coding, gunzip, ws[i + 1].sys.st, plan.slot, order, p, accept, modified);
  }
}
