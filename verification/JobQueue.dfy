/** The queue as a protocol: any number of workers, a janitor, cancellations and crashes, in any order. */
module JobQueue {
  import opened Wrappers
  import opened Jobs

  type WorkerId = nat

  /** The job a live worker runs and when it last told the table so. */
  datatype Lease = Lease(job: JobId, beat: Time)

  datatype System = System(jobs: seq<Job>, holders: map<WorkerId, Lease>, now: Time)

  datatype Options = Options(stale: Time, max: nat)

  datatype Event =
    | Enqueue(id: JobId)
    | Claim(worker: WorkerId, row: nat, locked: set<JobId>)
    | Beat(worker: WorkerId, progress: Progress)
    | Finish(worker: WorkerId, status: Status, progress: Progress, error: Option<string>)
    | Crash(worker: WorkerId)
    | Cancel(id: JobId)
    | Recover
    | Tick(now: Time)

  function Update(jobs: seq<Job>, id: JobId, f: Job -> Job): (r: seq<Job>)
    ensures |r| == |jobs|
    ensures forall i :: 0 <= i < |jobs| ==> r[i] == jobs[i] || (jobs[i].id == id && r[i] == f(jobs[i]))
  {
    var i := IndexOf(jobs, id);
    if i < |jobs| then jobs[i := f(jobs[i])] else jobs
  }

  predicate Enabled(s: System, e: Event, o: Options) {
    match e
    case Enqueue(id) => forall i :: 0 <= i < |s.jobs| ==> s.jobs[i].id != id
    case Claim(w, i, locked) => w !in s.holders && Oldest(s.jobs, locked, i)
    case Beat(w, _) => w in s.holders
    case Finish(w, status, _, _) => w in s.holders && status in {Succeeded, Failed}
    case Crash(w) => w in s.holders
    case Cancel(_) => true
    case Recover => true
    case Tick(t) => s.now <= t
  }

  function Next(s: System, e: Event, o: Options): System
    requires Enabled(s, e, o)
  {
    match e
    case Enqueue(id) => s.(jobs := s.jobs + [Enqueued(id, s.now)])
    case Claim(w, i, _) =>
      s.(jobs := s.jobs[i := Claimed(s.jobs[i], s.now)], holders := s.holders[w := Lease(s.jobs[i].id, s.now)])
    case Beat(w, p) =>
      s.(jobs := Update(s.jobs, s.holders[w].job, j => Saved(j, p, s.now)),
         holders := s.holders[w := s.holders[w].(beat := s.now)])
    case Finish(w, status, p, error) =>
      s.(jobs := Update(s.jobs, s.holders[w].job, j => Finished(j, status, p, error, s.now)),
         holders := s.holders - {w})
    case Crash(w) => s.(holders := s.holders - {w})
    case Cancel(id) => s.(jobs := Update(s.jobs, id, j => CancelledAt(j, s.now)))
    case Recover => s.(jobs := RequeueAll(s.jobs, o.stale, o.max, s.now))
    case Tick(t) => s.(now := t)
  }

  // ---- invariants

  ghost predicate SaneTable(jobs: seq<Job>, max: nat) {
    && (forall i :: 0 <= i < |jobs| ==> Sane(jobs[i], max))
    && (forall i, j :: 0 <= i < j < |jobs| ==> jobs[i].id != jobs[j].id)
  }

  /** The row a live worker holds is running and no staler than the worker knows, or it has ended. */
  ghost predicate Held(jobs: seq<Job>, l: Lease) {
    var i := IndexOf(jobs, l.job);
    && i < |jobs|
    && (|| Terminal(jobs[i].status)
        || (jobs[i].status == Running && jobs[i].heartbeat.Some? && l.beat <= jobs[i].heartbeat.value))
  }

  /** No job has two live workers and no queued job has one. */
  ghost predicate Exclusive(s: System) {
    && (forall w :: w in s.holders ==> Held(s.jobs, s.holders[w]))
    && (forall v, w :: v in s.holders && w in s.holders && v != w ==> s.holders[v].job != s.holders[w].job)
  }

  /** Every live worker's last heartbeat is at most `stale` old. */
  ghost predicate Timely(s: System, o: Options) {
    forall w :: w in s.holders ==> s.now <= s.holders[w].beat + o.stale
  }

  /** What a step does to row `i`, column by column. */
  ghost predicate RowUnder(s: System, e: Event, o: Options, i: nat, j: Job, k: Job)
    requires Enabled(s, e, o)
  {
    match e
    case Claim(_, row, _) => if i == row then Starts(j, k, s.now) else k == j
    case Beat(w, p) => if j.id == s.holders[w].job && j.status == Running then Reports(j, k, p, s.now) else k == j
    case Finish(w, status, p, error) =>
      if j.id == s.holders[w].job && j.status == Running then Ends(j, k, status, p, error, s.now) else k == j
    case Cancel(id) => if j.id == id && j.status in {Queued, Running} then Stops(j, k, s.now) else k == j
    case Recover => Recovers(j, k, o.stale, o.max, s.now)
    case _ => k == j
  }

  /** Main result: each step sets the columns its statement names in the rows it names, and nothing else. */
  lemma StepIsExact(s: System, e: Event, o: Options, i: nat)
    requires SaneTable(s.jobs, o.max) && Enabled(s, e, o) && i < |s.jobs|
    ensures |Next(s, e, o).jobs| == |s.jobs| + (if e.Enqueue? then 1 else 0)
    ensures RowUnder(s, e, o, i, s.jobs[i], Next(s, e, o).jobs[i])
    ensures e.Enqueue? ==> IsNew(Next(s, e, o).jobs[|s.jobs|], e.id, s.now)
  {
    if IndexOf(s.jobs, s.jobs[i].id) != i {
      assert false;
    }
  }

  /** Every step takes each row through one of the allowed changes of state. */
  lemma StepIsRowStep(s: System, e: Event, o: Options, i: nat)
    requires SaneTable(s.jobs, o.max) && Enabled(s, e, o) && i < |s.jobs|
    ensures i < |Next(s, e, o).jobs| && RowStep(s.jobs[i], Next(s, e, o).jobs[i], o.max)
  {
    StepIsExact(s, e, o, i);
  }

  lemma StepKeepsSane(s: System, e: Event, o: Options)
    requires SaneTable(s.jobs, o.max) && o.max > 0 && Enabled(s, e, o)
    ensures SaneTable(Next(s, e, o).jobs, o.max)
  {
    var t := Next(s, e, o);
    forall i | 0 <= i < |s.jobs| ensures Sane(t.jobs[i], o.max) && t.jobs[i].id == s.jobs[i].id {
      StepIsRowStep(s, e, o, i);
      RowStepIsSane(s.jobs[i], t.jobs[i], o.max);
    }
  }

  lemma IndexIs(jobs: seq<Job>, i: nat)
    requires i < |jobs| && forall a, b :: 0 <= a < b < |jobs| ==> jobs[a].id != jobs[b].id
    ensures IndexOf(jobs, jobs[i].id) == i
  {
  }

  /** A row keeps its position through a step. */
  lemma IndexKept(s: System, e: Event, o: Options, id: JobId)
    requires SaneTable(s.jobs, o.max) && o.max > 0 && Enabled(s, e, o) && IndexOf(s.jobs, id) < |s.jobs|
    ensures IndexOf(Next(s, e, o).jobs, id) == IndexOf(s.jobs, id)
  {
    var i := IndexOf(s.jobs, id);
    StepKeepsSane(s, e, o);
    StepIsRowStep(s, e, o, i);
    IndexIs(Next(s, e, o).jobs, i);
  }

  /** Each step but recovery leaves the rows of other live workers held. */
  lemma HeldStays(s: System, e: Event, o: Options, w: WorkerId)
    requires SaneTable(s.jobs, o.max) && o.max > 0 && Enabled(s, e, o) && Exclusive(s)
    requires w in s.holders && w in Next(s, e, o).holders
    requires e.Recover? ==> s.now <= s.holders[w].beat + o.stale
    ensures Held(Next(s, e, o).jobs, Next(s, e, o).holders[w])
  {
    var l := s.holders[w];
    var i := IndexOf(s.jobs, l.job);
    assert Held(s.jobs, l);
    IndexKept(s, e, o, l.job);
    StepIsRowStep(s, e, o, i);
    if e.Beat? && e.worker == w {
      assert Next(s, e, o).jobs[i] == Saved(s.jobs[i], e.progress, s.now);
    }
  }

  lemma StepKeepsExclusive(s: System, e: Event, o: Options)
    requires SaneTable(s.jobs, o.max) && o.max > 0 && Enabled(s, e, o) && Exclusive(s)
    requires e.Recover? ==> Timely(s, o)
    ensures Exclusive(Next(s, e, o))
  {
    var t := Next(s, e, o);
    forall w | w in t.holders ensures Held(t.jobs, t.holders[w]) {
      if w in s.holders {
        HeldStays(s, e, o, w);
      } else {
        IndexIs(s.jobs, e.row);
        IndexKept(s, e, o, s.jobs[e.row].id);
      }
    }
    if e.Claim? {
      forall w | w in s.holders ensures s.holders[w].job != s.jobs[e.row].id {
        assert Held(s.jobs, s.holders[w]);
        IndexIs(s.jobs, e.row);
      }
    }
  }
}
