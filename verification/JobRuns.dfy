/** What holds over whole runs of the queue: exclusive leases and bounded waiting. */
module JobRuns {
  import opened Wrappers
  import opened Jobs
  import opened JobQueue

  ghost predicate Legal(s: System, events: seq<Event>, o: Options)
    decreases |events|
  {
    events == [] || (Enabled(s, events[0], o) && Legal(Next(s, events[0], o), events[1..], o))
  }

  ghost function After(s: System, events: seq<Event>, o: Options): System
    requires Legal(s, events, o)
    decreases |events|
  {
    if events == [] then s else After(Next(s, events[0], o), events[1..], o)
  }

  // ---- the life of one row

  /** The versions of row `i`, one after each step. */
  ghost function Versions(s: System, events: seq<Event>, o: Options, i: nat): seq<Job>
    requires Legal(s, events, o) && i < |s.jobs|
    decreases |events|
  {
    [s.jobs[i]] + if events == [] then [] else Versions(Next(s, events[0], o), events[1..], o, i)
  }

  /** They are a life: each step of the run takes the row through an allowed change or leaves it. */
  lemma {:induction false} VersionsAreLife(s: System, events: seq<Event>, o: Options, i: nat)
    requires SaneTable(s.jobs, o.max) && o.max > 0 && Legal(s, events, o) && i < |s.jobs|
    ensures var vs := Versions(s, events, o, i);
      |vs| == |events| + 1 && vs[0] == s.jobs[i] && Life(vs, o.max)
    ensures i < |After(s, events, o).jobs| && Versions(s, events, o, i)[|events|] == After(s, events, o).jobs[i]
    decreases |events|
  {
    if events != [] {
      var t := Next(s, events[0], o);
      StepKeepsSane(s, events[0], o);
      StepIsRowStep(s, events[0], o, i);
      VersionsAreLife(t, events[1..], o, i);
      LifeExtended(s.jobs[i], Versions(t, events[1..], o, i), o.max);
    }
  }

  lemma LifeExtended(j: Job, vs: seq<Job>, max: nat)
    requires Sane(j, max) && Life(vs, max) && RowStep(j, vs[0], max)
    ensures Life([j] + vs, max)
  {
    var all := [j] + vs;
    forall i | 0 <= i < |all| - 1 ensures RowStep(all[i], all[i + 1], max) {
      assert i > 0 ==> all[i] == vs[i - 1] && all[i + 1] == vs[i];
    }
  }

  /**
   Main result: whatever the workers, the janitor and cancellations do in a run, a job changes status at
   most as often as it had changes left, `2 * max` times if it was new, and once it has ended its row
   stays as it is.
   */
  lemma RunsChangeBounded(s: System, events: seq<Event>, o: Options, i: nat)
    requires SaneTable(s.jobs, o.max) && o.max > 0 && Legal(s, events, o) && i < |s.jobs|
    ensures i < |After(s, events, o).jobs| && Sane(After(s, events, o).jobs[i], o.max)
    ensures Changes(Versions(s, events, o, i)) + Left(After(s, events, o).jobs[i], o.max) <= Left(s.jobs[i], o.max)
    ensures s.jobs[i].status == Queued && s.jobs[i].attempts == 0 ==> Changes(Versions(s, events, o, i)) <= 2 * o.max
    ensures Terminal(s.jobs[i].status) ==> After(s, events, o).jobs[i] == s.jobs[i]
  {
    VersionsAreLife(s, events, o, i);
    BoundedLife(Versions(s, events, o, i), o.max);
    if Terminal(s.jobs[i].status) {
      LifeEnds(Versions(s, events, o, i), o.max);
    }
  }

  lemma {:induction false} LifeEnds(vs: seq<Job>, max: nat)
    requires Life(vs, max) && Terminal(vs[0].status)
    ensures vs[|vs| - 1] == vs[0]
  {
    if |vs| > 1 {
      RowStepIsSane(vs[0], vs[1], max);
      LifeEnds(vs[1..], max);
    }
  }

  // ---- how a job ended

  /** What can give job `j` the status it ends with: its worker's word, a recovery or a cancellation. */
  ghost predicate Causes(s: System, e: Event, o: Options, j: Job, status: Status) {
    match status
    case Succeeded => e.Finish? && e.status == Succeeded && e.worker in s.holders && s.holders[e.worker].job == j.id
    case Failed =>
      || (e.Finish? && e.status == Failed && e.worker in s.holders && s.holders[e.worker].job == j.id)
      || (e.Recover? && Silent(j, o.stale, s.now) && j.attempts >= o.max)
    case Cancelled => e == Cancel(j.id)
    case _ => false
  }

  /** Some step of the run gave row `i` the status it ended with, and was such a cause. */
  ghost predicate EndedBy(s: System, events: seq<Event>, o: Options, i: nat, status: Status)
    requires Legal(s, events, o)
    decreases |events|
  {
    events != [] && i < |s.jobs| && !Terminal(s.jobs[i].status) &&
    var t := Next(s, events[0], o);
    && i < |t.jobs|
    && (|| (t.jobs[i].status == status && Causes(s, events[0], o, s.jobs[i], status))
        || EndedBy(t, events[1..], o, i, status))
  }

  /** Main result: a job that has ended in a run did so by a step that says so. */
  lemma {:induction false} EndsForAReason(s: System, events: seq<Event>, o: Options, i: nat)
    requires SaneTable(s.jobs, o.max) && o.max > 0 && Legal(s, events, o) && i < |s.jobs| && !Terminal(s.jobs[i].status)
    ensures i < |After(s, events, o).jobs|
    ensures Terminal(After(s, events, o).jobs[i].status) ==>
      EndedBy(s, events, o, i, After(s, events, o).jobs[i].status)
    decreases |events|
  {
    if events != [] {
      var t := Next(s, events[0], o);
      StepIsExact(s, events[0], o, i);
      StepKeepsSane(s, events[0], o);
      if Terminal(t.jobs[i].status) {
        RunsChangeBounded(t, events[1..], o, i);
      } else {
        EndsForAReason(t, events[1..], o, i);
      }
    }
  }

  // ---- exclusive leases

  /** Whenever orphans are looked for, each live worker has reported within the last `stale`. */
  ghost predicate Punctual(s: System, events: seq<Event>, o: Options)
    requires Legal(s, events, o)
    decreases |events|
  {
    events != [] ==> (events[0].Recover? ==> Timely(s, o)) && Punctual(Next(s, events[0], o), events[1..], o)
  }

  /**
   Main result: with punctual heartbeats no interleaving gives a job two live workers, or leaves one on a queued job.
   */
  lemma {:induction false} RunsAreExclusive(s: System, events: seq<Event>, o: Options)
    requires SaneTable(s.jobs, o.max) && o.max > 0 && Exclusive(s)
    requires Legal(s, events, o) && Punctual(s, events, o)
    ensures SaneTable(After(s, events, o).jobs, o.max) && Exclusive(After(s, events, o))
    decreases |events|
  {
    if events != [] {
      StepKeepsSane(s, events[0], o);
      StepKeepsExclusive(s, events[0], o);
      RunsAreExclusive(Next(s, events[0], o), events[1..], o);
    }
  }

  /** The row of this live worker would go back to the queue now. */
  ghost predicate Lost(s: System, l: Lease, o: Options) {
    var i := IndexOf(s.jobs, l.job);
    i < |s.jobs| && Orphan(s.jobs[i], o.stale, s.now) && s.jobs[i].attempts < o.max
  }

  /**
   Exactly when recovery is safe: no live worker's job is stale with attempts left. Missed heartbeats are the only
   danger.
   */
  lemma RecoverIsSafeExactly(s: System, o: Options)
    requires SaneTable(s.jobs, o.max) && o.max > 0 && Exclusive(s)
    ensures Exclusive(Next(s, Recover, o)) <==> forall w :: w in s.holders ==> !Lost(s, s.holders[w], o)
    ensures Timely(s, o) ==> Exclusive(Next(s, Recover, o))
  {
    var t := Next(s, Recover, o);
    forall w | w in s.holders ensures Held(t.jobs, t.holders[w]) <==> !Lost(s, s.holders[w], o) {
      var l := s.holders[w];
      assert Held(s.jobs, l);
      IndexKept(s, Recover, o, l.job);
      assert t.jobs[IndexOf(s.jobs, l.job)] == Requeued(s.jobs[IndexOf(s.jobs, l.job)], o.stale, o.max, s.now);
    }
    if Timely(s, o) {
      StepKeepsExclusive(s, Recover, o);
    }
  }

  function LateEvents(o: Options, p: Progress): seq<Event> {
    [Enqueue(7), Claim(1, 0, {}), Tick(o.stale + 1), Recover, Claim(2, 0, {}), Finish(1, Failed, p, None)]
  }

  function LateJob(status: Status, attempts: nat, beat: Option<Time>, finished: Option<Time>, p: Progress): Job {
    Job(7, 0, status, attempts, beat, finished, p, None)
  }

  function LateStates(o: Options, p: Progress): seq<System> {
    var zero, t := Progress(0, 0, 0), o.stale + 1;
    [System([], map[], 0),
     System([Enqueued(7, 0)], map[], 0),
     System([LateJob(Running, 1, Some(0), None, zero)], map[1 := Lease(7, 0)], 0),
     System([LateJob(Running, 1, Some(0), None, zero)], map[1 := Lease(7, 0)], t),
     System([LateJob(Queued, 1, Some(0), None, zero)], map[1 := Lease(7, 0)], t),
     System([LateJob(Running, 2, Some(t), None, zero)], map[1 := Lease(7, 0), 2 := Lease(7, t)], t),
     System([LateJob(Failed, 2, Some(t), Some(t), p)], map[2 := Lease(7, t)], t)]
  }

  lemma LateStep(o: Options, p: Progress, i: nat)
    requires o.max >= 2 && i < 6
    ensures Enabled(LateStates(o, p)[i], LateEvents(o, p)[i], o)
    ensures LateStates(o, p)[i + 1] == Next(LateStates(o, p)[i], LateEvents(o, p)[i], o)
  {
    var s, t, e := LateStates(o, p)[i], LateStates(o, p)[i + 1], LateEvents(o, p)[i];
    if i == 5 {
      IndexIs(s.jobs, 0);
      assert e.status in {Succeeded, Failed};
      assert s.holders - {1} == t.holders;
    }
    assert Next(s, e, o).jobs == t.jobs;
  }

  /**
   The table has no fencing: a worker that misses its heartbeats shares its job with the next one, and ends that one's
   attempt.
   */
  lemma LateWorkerEndsNewerAttempt(o: Options, p: Progress)
    requires o.max >= 2
    ensures Legal(System([], map[], 0), LateEvents(o, p), o)
    ensures !Exclusive(LateStates(o, p)[5])
    ensures After(System([], map[], 0), LateEvents(o, p), o) ==
      System(
        [LateJob(Failed, 2, Some(o.stale + 1), Some(o.stale + 1), p)], map[2 := Lease(7, o.stale + 1)], o.stale + 1)
  {
    forall i | 0 <= i < 6
      ensures Enabled(LateStates(o, p)[i], LateEvents(o, p)[i], o)
      ensures LateStates(o, p)[i + 1] == Next(LateStates(o, p)[i], LateEvents(o, p)[i], o)
    {
      LateStep(o, p, i);
    }
    LegalRun(LateStates(o, p), LateEvents(o, p), o);
    var h := LateStates(o, p)[5].holders;
    assert 1 in h && 2 in h && h[1].job == h[2].job;
  }

  /** A run spelled out state by state. */
  lemma {:induction false} LegalRun(states: seq<System>, events: seq<Event>, o: Options)
    requires |states| == |events| + 1
    requires forall i :: 0 <= i < |events| ==>
      Enabled(states[i], events[i], o) && states[i + 1] == Next(states[i], events[i], o)
    ensures Legal(states[0], events, o) && After(states[0], events, o) == states[|events|]
  {
    if events != [] {
      LegalRun(states[1..], events[1..], o);
    }
  }

  // ---- bounded waiting

  /** Claims a row older than row `i`, or as old, can still take. */
  function Debt(jobs: seq<Job>, i: nat, k: nat, max: nat): nat
    requires i < |jobs| && k < |jobs|
  {
    if k != i && jobs[k].created <= jobs[i].created && !Terminal(jobs[k].status) && jobs[k].attempts <= max
    then max - jobs[k].attempts else 0
  }

  function Debts(jobs: seq<Job>, i: nat, n: nat, max: nat): nat
    requires i < |jobs| && n <= |jobs|
  {
    if n == 0 then 0 else Debts(jobs, i, n - 1, max) + Debt(jobs, i, n - 1, max)
  }

  /** Rows ahead of row `i` in the queue, each with the attempts it has left. */
  function Ahead(jobs: seq<Job>, i: nat, max: nat): nat
    requires i < |jobs|
  {
    Debts(jobs, i, |jobs|, max)
  }

  /** Job `i` waits through the run: it stays queued and free, every claim takes another row, new jobs are younger. */
  ghost predicate Waits(s: System, events: seq<Event>, o: Options, i: nat)
    requires Legal(s, events, o)
    decreases |events|
  {
    && i < |s.jobs| && s.jobs[i].status == Queued
    && (events != [] ==>
      && (events[0].Claim? ==> events[0].row != i && s.jobs[i].id !in events[0].locked)
      && (events[0].Enqueue? ==> s.jobs[i].created < s.now)
      && Waits(Next(s, events[0], o), events[1..], o, i))
  }

  function Claims(events: seq<Event>): nat {
    if events == [] then 0 else (if events[0].Claim? then 1 else 0) + Claims(events[1..])
  }

  lemma {:induction false} DebtsFall(a: seq<Job>, b: seq<Job>, i: nat, n: nat, r: nat, max: nat)
    requires i < |a| && i < |b| && n <= |a| && n <= |b|
    requires forall k :: 0 <= k < n ==> Debt(b, i, k, max) + (if k == r then 1 else 0) <= Debt(a, i, k, max)
    ensures Debts(b, i, n, max) + (if r < n then 1 else 0) <= Debts(a, i, n, max)
  {
    if n > 0 {
      DebtsFall(a, b, i, n - 1, r, max);
    }
  }

  /**
   A step never adds to what is ahead of a waiting job; a claim of another job takes one away, and takes no younger
   one.
   */
  lemma StepPaysDebt(s: System, e: Event, o: Options, i: nat)
    requires SaneTable(s.jobs, o.max) && o.max > 0 && Enabled(s, e, o) && i < |s.jobs| && s.jobs[i].status == Queued
    requires e.Claim? ==> e.row != i && s.jobs[i].id !in e.locked
    requires e.Enqueue? ==> s.jobs[i].created < s.now
    ensures i < |Next(s, e, o).jobs|
    ensures e.Claim? ==> s.jobs[e.row].created <= s.jobs[i].created
    ensures Ahead(Next(s, e, o).jobs, i, o.max) + (if e.Claim? then 1 else 0) <= Ahead(s.jobs, i, o.max)
  {
    var t := Next(s, e, o);
    var n := |s.jobs|;
    var r := if e.Claim? then e.row else n;
    StepIsRowStep(s, e, o, i);
    forall k | 0 <= k < n ensures Debt(t.jobs, i, k, o.max) + (if k == r then 1 else 0) <= Debt(s.jobs, i, k, o.max) {
      StepIsRowStep(s, e, o, k);
    }
    DebtsFall(s.jobs, t.jobs, i, n, r, o.max);
  }

  /**
   Main result: while a job waits, at most the claims still ahead of it happen, whatever is requeued or cancelled
   meanwhile.
   */
  lemma {:induction false} WaitingIsBounded(s: System, events: seq<Event>, o: Options, i: nat)
    requires SaneTable(s.jobs, o.max) && o.max > 0 && Legal(s, events, o) && Waits(s, events, o, i)
    ensures Claims(events) <= Ahead(s.jobs, i, o.max)
    decreases |events|
  {
    if events != [] {
      StepPaysDebt(s, events[0], o, i);
      StepKeepsSane(s, events[0], o);
      WaitingIsBounded(Next(s, events[0], o), events[1..], o, i);
    }
  }
}
