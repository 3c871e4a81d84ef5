/** The rows of `importer.jobs` and the statements the queue runs on them. */
module Jobs {
  import opened Wrappers

  type JobId = nat
  type Time = nat

  datatype Status = Queued | Running | Succeeded | Failed | Cancelled

  datatype Progress = Progress(read: nat, ok: nat, failed: nat)

  datatype Job = Job(
    id: JobId,
    created: Time,
    status: Status,
    attempts: nat,
    heartbeat: Option<Time>,
    finished: Option<Time>,
    progress: Progress,
    error: Option<string>)

  predicate Terminal(s: Status) {
    s in {Succeeded, Failed, Cancelled}
  }

  // ---- statements

  function Enqueued(id: JobId, now: Time): Job {
    Job(id, now, Queued, 0, None, None, Progress(0, 0, 0), None)
  }

  /** Row `i` is queued, free and no older row is. */
  predicate Oldest(jobs: seq<Job>, locked: set<JobId>, i: nat) {
    && i < |jobs| && jobs[i].status == Queued && jobs[i].id !in locked
    && forall j :: 0 <= j < |jobs| && jobs[j].status == Queued && jobs[j].id !in locked ==>
      jobs[i].created <= jobs[j].created
  }

  function Claimed(j: Job, now: Time): Job {
    j.(status := Running, attempts := j.attempts + 1, heartbeat := Some(now))
  }

  function Saved(j: Job, p: Progress, now: Time): Job {
    if j.status == Running then j.(progress := p, heartbeat := Some(now)) else j
  }

  function Finished(j: Job, status: Status, p: Progress, error: Option<string>, now: Time): Job {
    if j.status == Running then j.(status := status, progress := p, error := error, finished := Some(now)) else j
  }

  function CancelledAt(j: Job, now: Time): Job {
    if j.status in {Queued, Running} then j.(status := Cancelled, finished := Some(now)) else j
  }

  predicate Orphan(j: Job, stale: Time, now: Time) {
    j.status == Running && j.heartbeat.Some? && j.heartbeat.value + stale < now
  }

  function Requeued(j: Job, stale: Time, max: nat, now: Time): Job {
    if !Orphan(j, stale, now) then j
    else if j.attempts >= max then
      j.(status := Failed, error := Some("worker lost; retries exhausted"), finished := Some(now))
    else j.(status := Queued)
  }

  function RequeueAll(jobs: seq<Job>, stale: Time, max: nat, now: Time): (r: seq<Job>)
    ensures |r| == |jobs|
  {
    seq(|jobs|, i requires 0 <= i < |jobs| => Requeued(jobs[i], stale, max, now))
  }

  /** Position of the row with an ID. */
  function IndexOf(jobs: seq<Job>, id: JobId): (i: nat)
    ensures i < |jobs| ==> jobs[i].id == id
    ensures i >= |jobs| ==> i == |jobs| && forall j :: 0 <= j < |jobs| ==> jobs[j].id != id
  {
    if jobs == [] then 0
    else
      var n := |jobs| - 1;
      var i := IndexOf(jobs[..n], id);
      if i < n then i else if jobs[n].id == id then n else n + 1
  }

  // ---- one job's life

  /** What the columns of a job always say together. */
  predicate Sane(j: Job, max: nat) {
    && (j.status == Queued ==> j.attempts < max)
    && (j.status == Running ==> 1 <= j.attempts <= max && j.heartbeat.Some?)
    && j.attempts <= max
    && (j.finished.Some? <==> Terminal(j.status))
  }

  /** Status changes a job can still go through at most. */
  function Left(j: Job, max: nat): nat
    requires j.attempts <= max
  {
    if Terminal(j.status) then 0 else 2 * (max - j.attempts) + (if j.status == Running then 1 else 0)
  }

  // ---- the statements, column by column

  /** The columns no statement but a claim and an insert sets. */
  predicate SameJob(j: Job, k: Job) {
    k.id == j.id && k.created == j.created && k.attempts == j.attempts
  }

  /** A row as it is inserted. */
  predicate IsNew(k: Job, id: JobId, now: Time) {
    && k.id == id && k.created == now && k.status == Queued && k.attempts == 0
    && k.heartbeat.None? && k.finished.None? && k.error.None?
    && k.progress.read == 0 && k.progress.ok == 0 && k.progress.failed == 0
  }

  /** A claim starts the next attempt. */
  predicate Starts(j: Job, k: Job, now: Time) {
    && j.status == Queued && k.status == Running && k.attempts == j.attempts + 1 && k.heartbeat == Some(now)
    && k.id == j.id && k.created == j.created && k.progress == j.progress && k.error == j.error
    && k.finished == j.finished
  }

  predicate Reports(j: Job, k: Job, p: Progress, now: Time) {
    && j.status == Running && k.status == Running && k.progress == p && k.heartbeat == Some(now)
    && SameJob(j, k) && k.error == j.error && k.finished == j.finished
  }

  /** A running row ends as its worker says. */
  predicate Ends(j: Job, k: Job, status: Status, p: Progress, error: Option<string>, now: Time) {
    && j.status == Running && k.status == status && k.progress == p && k.error == error && k.finished == Some(now)
    && SameJob(j, k) && k.heartbeat == j.heartbeat
  }

  predicate Stops(j: Job, k: Job, now: Time) {
    && j.status in {Queued, Running} && k.status == Cancelled && k.finished == Some(now)
    && SameJob(j, k) && k.heartbeat == j.heartbeat && k.progress == j.progress && k.error == j.error
  }

  /** A row whose worker has not been heard of for longer than `stale`. */
  predicate Silent(j: Job, stale: Time, now: Time) {
    j.status == Running && j.heartbeat.Some? && now > j.heartbeat.value + stale
  }

  /** An orphan with attempts left waits again. */
  predicate Returns(j: Job, k: Job, max: nat) {
    && j.status == Running && j.attempts < max && k.status == Queued
    && SameJob(j, k) && k.heartbeat == j.heartbeat && k.progress == j.progress && k.error == j.error
    && k.finished == j.finished
  }

  /** An orphan that has used them up fails. */
  predicate GivesUp(j: Job, k: Job, max: nat, now: Time) {
    && j.status == Running && j.attempts >= max && k.status == Failed
    && k.error == Some("worker lost; retries exhausted") && k.finished == Some(now)
    && SameJob(j, k) && k.heartbeat == j.heartbeat && k.progress == j.progress
  }

  predicate Recovers(j: Job, k: Job, stale: Time, max: nat, now: Time) {
    if Silent(j, stale, now) then Returns(j, k, max) || GivesUp(j, k, max, now) else k == j
  }

  /** What each statement does to a row it applies to; to any other it does nothing. */
  lemma StatementsAre(
      j: Job, id: JobId, status: Status, p: Progress, error: Option<string>, stale: Time, max: nat, now: Time)
    ensures IsNew(Enqueued(id, now), id, now)
    ensures j.status == Queued ==> Starts(j, Claimed(j, now), now)
    ensures if j.status == Running then Reports(j, Saved(j, p, now), p, now) else Saved(j, p, now) == j
    ensures if j.status == Running then Ends(j, Finished(j, status, p, error, now), status, p, error, now)
      else Finished(j, status, p, error, now) == j
    ensures if j.status in {Queued, Running} then Stops(j, CancelledAt(j, now), now) else CancelledAt(j, now) == j
    ensures Recovers(j, Requeued(j, stale, max, now), stale, max, now)
  {
  }

  /** What one statement may do to a row: keep its status, or take one of the five changes of state. */
  ghost predicate RowStep(j: Job, k: Job, max: nat) {
    || k == j
    || (exists p, now :: Reports(j, k, p, now))
    || (exists now :: Starts(j, k, now))
    || (exists p, error, now :: Ends(j, k, k.status, p, error, now) && k.status in {Succeeded, Failed})
    || (exists now :: Stops(j, k, now))
    || Returns(j, k, max)
    || (exists now :: GivesUp(j, k, max, now))
  }

  /** Terminal states are absorbing, the columns stay sane and every change of status uses up one of those left. */
  lemma RowStepIsSane(j: Job, k: Job, max: nat)
    requires Sane(j, max) && RowStep(j, k, max)
    ensures Sane(k, max)
    ensures Terminal(j.status) ==> k == j
    ensures k.status != j.status ==> Left(k, max) < Left(j, max)
    ensures Left(k, max) <= Left(j, max)
  {
  }

  /** How often the status changes along the versions of a row. */
  function Changes(versions: seq<Job>): nat {
    if |versions| <= 1 then 0
    else
      var n := |versions| - 1;
      Changes(versions[..n]) + (if versions[n].status != versions[n - 1].status then 1 else 0)
  }

  ghost predicate Life(versions: seq<Job>, max: nat) {
    && versions != [] && Sane(versions[0], max)
    && forall i :: 0 <= i < |versions| - 1 ==> RowStep(versions[i], versions[i + 1], max)
  }

  /**
   Main result: from any point of its life a job changes status at most as often as it has left; a new one, `2 * max`
   times.
   */
  lemma {:induction false} BoundedLife(versions: seq<Job>, max: nat)
    requires Life(versions, max)
    ensures Sane(versions[|versions| - 1], max)
    ensures Changes(versions) + Left(versions[|versions| - 1], max) <= Left(versions[0], max)
    ensures versions[0].attempts == 0 && versions[0].status == Queued ==> Changes(versions) <= 2 * max
  {
    if |versions| > 1 {
      var n := |versions| - 1;
      BoundedLife(versions[..n], max);
      RowStepIsSane(versions[n - 1], versions[n], max);
    }
  }
}
