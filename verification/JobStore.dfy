/** The job table as the store changes it, statement by statement. */
module JobStore {
  import opened Wrappers
  import opened Jobs
  import opened JobQueue

  datatype Error = NotFound | AlreadyFinished

  /** How many of the first `n` rows a recovery touches. */
  function Orphans(jobs: seq<Job>, n: nat, stale: Time, now: Time): nat
    requires n <= |jobs|
  {
    if n == 0 then 0 else Orphans(jobs, n - 1, stale, now) + (if Orphan(jobs[n - 1], stale, now) then 1 else 0)
  }

  /** The recovery counts the rows it changes. */
  lemma {:induction false} OrphansAre(jobs: seq<Job>, n: nat, stale: Time, now: Time)
    requires n <= |jobs|
    ensures Orphans(jobs, n, stale, now) == |set i: nat | i < n && Silent(jobs[i], stale, now)|
  {
    if n > 0 {
      OrphansAre(jobs, n - 1, stale, now);
      var before := set i: nat | i < n - 1 && Silent(jobs[i], stale, now);
      assert (set i: nat | i < n && Silent(jobs[i], stale, now)) ==
        before + (if Silent(jobs[n - 1], stale, now) then {n - 1} else {});
    }
  }

  class Store {
    var jobs: seq<Job>

    constructor ()
      ensures jobs == []
    {
      jobs := [];
    }

    method Find(id: JobId) returns (i: nat)
      ensures i == IndexOf(jobs, id)
    {
      i := 0;
      while i < |jobs|
        invariant i <= |jobs| && IndexOf(jobs[..i], id) == i
      {
        assert jobs[..i + 1][..i] == jobs[..i];
        if jobs[i].id == id {
          Settles(jobs, i + 1, id);
          return;
        }
        i := i + 1;
      }
      assert jobs[..|jobs|] == jobs;
    }

    method Enqueue(id: JobId, now: Time)
      requires IndexOf(jobs, id) == |jobs|
      modifies this
      ensures jobs == old(jobs) + [Enqueued(id, now)]
      ensures IsNew(jobs[|old(jobs)|], id, now)
    {
      jobs := jobs + [Job(id, now, Queued, 0, None, None, Progress(0, 0, 0), None)];
    }

    /** Takes the oldest queued row no other claim has locked. */
    method Claim(locked: set<JobId>, now: Time) returns (j: Option<Job>, ghost row: nat)
      modifies this
      ensures j.Some? ==> Oldest(old(jobs), locked, row)
      ensures j.Some? ==> jobs == old(jobs)[row := Claimed(old(jobs)[row], now)] && j.value == jobs[row]
      ensures j.Some? ==> Starts(old(jobs)[row], j.value, now)
      ensures j.None? ==> jobs == old(jobs) && forall i :: 0 <= i < |jobs| && jobs[i].status == Queued ==>
        jobs[i].id in locked
    {
      var best: Option<nat> := None;
      var i := 0;
      row := 0;
      while i < |jobs|
        invariant i <= |jobs| && jobs == old(jobs)
        invariant best.None? ==> forall k :: 0 <= k < i && jobs[k].status == Queued ==> jobs[k].id in locked
        invariant best.Some? ==> best.value < i && Oldest(jobs[..i], locked, best.value)
      {
        var free := jobs[i].status == Queued && jobs[i].id !in locked;
        if free && (best.None? || jobs[i].created < jobs[best.value].created) {
          best := Some(i);
        }
        i := i + 1;
      }
      if best.None? {
        return None, 0;
      }
      assert jobs[..i] == jobs;
      row := best.value;
      var r := best.value;
      jobs := jobs[r := jobs[r].(status := Running, attempts := jobs[r].attempts + 1, heartbeat := Some(now))];
      j := Some(jobs[r]);
    }

    method SaveProgress(id: JobId, p: Progress, now: Time)
      modifies this
      ensures jobs == Update(old(jobs), id, j => Saved(j, p, now))
      ensures |jobs| == |old(jobs)| && forall i :: 0 <= i < |jobs| ==>
        if i == IndexOf(old(jobs), id) && old(jobs)[i].status == Running then Reports(old(jobs)[i], jobs[i], p, now)
        else jobs[i] == old(jobs)[i]
    {
      var i := Find(id);
      if i < |jobs| && jobs[i].status == Running {
        jobs := jobs[i := jobs[i].(progress := p, heartbeat := Some(now))];
      }
    }

    method Finish(id: JobId, status: Status, p: Progress, error: Option<string>, now: Time)
      modifies this
      ensures jobs == Update(old(jobs), id, j => Jobs.Finished(j, status, p, error, now))
      ensures |jobs| == |old(jobs)| && forall i :: 0 <= i < |jobs| ==>
        if i == IndexOf(old(jobs), id) && old(jobs)[i].status == Running
        then Ends(old(jobs)[i], jobs[i], status, p, error, now)
        else jobs[i] == old(jobs)[i]
    {
      var i := Find(id);
      if i < |jobs| && jobs[i].status == Running {
        jobs := jobs[i := jobs[i].(status := status, progress := p, error := error, finished := Some(now))];
      }
    }

    /**
     A queued or running job ends cancelled; a missing one and one that has ended are told apart and nothing changes.
     */
    method Cancel(id: JobId, now: Time) returns (r: Result<Job, Error>)
      modifies this
      ensures jobs == Update(old(jobs), id, j => CancelledAt(j, now))
      ensures |jobs| == |old(jobs)| && forall i :: 0 <= i < |jobs| ==>
        if i ==
          IndexOf(old(jobs), id) && old(jobs)[i].status in {Queued, Running} then Stops(old(jobs)[i], jobs[i], now)
        else jobs[i] == old(jobs)[i]
      ensures r == Err(NotFound) <==> forall i :: 0 <= i < |old(jobs)| ==> old(jobs)[i].id != id
      ensures r == Err(AlreadyFinished) <==>
        IndexOf(old(jobs), id) < |old(jobs)| && Terminal(old(jobs)[IndexOf(old(jobs), id)].status)
      ensures r.Ok? ==> r.value.id == id && r.value.status == Cancelled && r.value in jobs
    {
      var i := Find(id);
      if i < |jobs| && jobs[i].status in {Queued, Running} {
        jobs := jobs[i := jobs[i].(status := Cancelled, finished := Some(now))];
        return Ok(jobs[i]);
      }
      if i == |jobs| {
        return Err(NotFound);
      }
      match jobs[i].status {
        case Succeeded =>
        case Failed =>
        case Cancelled =>
      }
      return Err(AlreadyFinished);
    }

    /** Puts every orphan back or fails it, and counts them. */
    method RequeueOrphans(stale: Time, max: nat, now: Time) returns (n: nat)
      modifies this
      ensures jobs == RequeueAll(old(jobs), stale, max, now)
      ensures n == Orphans(old(jobs), |old(jobs)|, stale, now)
      ensures |jobs| == |old(jobs)| && forall i :: 0 <= i < |jobs| ==> Recovers(old(jobs)[i], jobs[i], stale, max, now)
      ensures n == |set i: nat | i < |jobs| && Silent(old(jobs)[i], stale, now)|
    {
      ghost var was := jobs;
      var i := 0;
      n := 0;
      while i < |jobs|
        invariant i <= |jobs| == |was|
        invariant forall k :: 0 <= k < i ==> jobs[k] == Requeued(was[k], stale, max, now)
        invariant forall k :: i <= k < |jobs| ==> jobs[k] == was[k]
        invariant n == Orphans(was, i, stale, now)
      {
        var j := jobs[i];
        if j.status == Running && j.heartbeat.Some? && j.heartbeat.value < now - stale {
          jobs := jobs[i := if j.attempts >= max
            then j.(status := Failed, error := Some("worker lost; retries exhausted"), finished := Some(now))
            else j.(status := Queued)];
          n := n + 1;
        }
        i := i + 1;
      }
      OrphansAre(was, |was|, stale, now);
    }
  }

  lemma {:induction false} Settles(jobs: seq<Job>, n: nat, id: JobId)
    requires 0 < n <= |jobs| && IndexOf(jobs[..n], id) < n
    ensures IndexOf(jobs, id) == IndexOf(jobs[..n], id)
    decreases |jobs|
  {
    if n < |jobs| {
      var m := |jobs| - 1;
      assert jobs[..m][..n] == jobs[..n];
      Settles(jobs[..m], n, id);
    } else {
      assert jobs[..n] == jobs;
    }
  }
}
