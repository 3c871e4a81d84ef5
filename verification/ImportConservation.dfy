/** No row of an import is lost or counted twice, in any interleaving of its sends. */
module ImportConservation {
  import opened Wrappers
  import opened ImportRun

  // ---- sums over the batches

  lemma {:induction false} TotalUpdate(flights: seq<Flight>, i: nat, f: Flight, g: Flight -> int)
    requires i < |flights|
    ensures Total(flights[i := f], g) == Total(flights, g) - g(flights[i]) + g(f)
  {
    var n := |flights| - 1;
    if i < n {
      TotalUpdate(flights[..n], i, f, g);
      assert flights[i := f][..n] == flights[..n][i := f];
    } else {
      assert flights[i := f][..n] == flights[..n];
    }
  }

  lemma TotalAppend(flights: seq<Flight>, f: Flight, g: Flight -> int)
    ensures Total(flights + [f], g) == Total(flights, g) + g(f)
  {
    assert (flights + [f])[..|flights|] == flights;
  }

  lemma {:induction false} FailuresUpdate(flights: seq<Flight>, i: nat, f: Flight, more: multiset<Failure>)
    requires i < |flights| && Failures(f) == Failures(flights[i]) + more
    ensures AllFailures(flights[i := f]) == AllFailures(flights) + more
  {
    var n := |flights| - 1;
    if i < n {
      FailuresUpdate(flights[..n], i, f, more);
      assert flights[i := f][..n] == flights[..n][i := f];
      AddedLast(AllFailures(flights[..n]), more, Failures(flights[n]));
    } else {
      assert flights[i := f][..n] == flights[..n];
      AddedLater(AllFailures(flights[..n]), Failures(flights[n]), more);
    }
  }

  lemma AddedLast(a: multiset<Failure>, more: multiset<Failure>, b: multiset<Failure>)
    ensures (a + more) + b == (a + b) + more
  {
  }

  lemma AddedLater(a: multiset<Failure>, b: multiset<Failure>, more: multiset<Failure>)
    ensures a + (b + more) == (a + b) + more
  {
  }

  lemma FailuresAppend(flights: seq<Flight>, f: Flight)
    ensures AllFailures(flights + [f]) == AllFailures(flights) + Failures(f)
  {
    assert (flights + [f])[..|flights|] == flights;
  }

  lemma {:induction false} BatchesUpdate(flights: seq<Flight>, i: nat, f: Flight)
    requires i < |flights| && f.rows == flights[i].rows
    ensures Batches(flights[i := f]) == Batches(flights)
  {
    var n := |flights| - 1;
    if i < n {
      BatchesUpdate(flights[..n], i, f);
      assert flights[i := f][..n] == flights[..n][i := f];
    } else {
      assert flights[i := f][..n] == flights[..n];
    }
  }

  lemma BatchesAppend(flights: seq<Flight>, f: Flight)
    ensures Batches(flights + [f]) == Batches(flights) + f.rows
  {
    assert (flights + [f])[..|flights|] == flights;
  }

  // ---- invariant

  /** Every batch is full but the last, which the end of the file may cut short. */
  ghost predicate Sized(p: Plan, s: Run) {
    && (!s.ended && !s.cancelled ==> |s.buffer| < p.size)
    && forall i :: 0 <= i < |s.flights| ==> FlightSized(p, s, i)
  }

  ghost predicate FlightSized(p: Plan, s: Run, i: nat)
    requires i < |s.flights|
  {
    && (|s.flights[i].rows| == p.size || (s.ended && i == |s.flights| - 1 && 1 <= |s.flights[i].rows| <= p.size))
    && (s.flights[i].standing.Answered? ==> s.flights[i].standing.next <= |s.flights[i].rows|)
  }

  /** The batches, what was dropped and the buffer are the accepted rows in order. */
  ghost predicate Ordered(p: Plan, input: seq<Record>, s: Run)
    requires Valid(p)
  {
    && s.read <= |input|
    && (Batches(s.flights) + s.dropped) + s.buffer == Accepted(p, input, s.read)
    && (!s.cancelled ==> s.dropped == [])
  }

  /** The report holds the failed rows, and the counters agree. */
  ghost predicate Reported(p: Plan, input: seq<Record>, s: Run)
    requires Valid(p)
  {
    && s.read <= |input|
    && multiset(s.report) == Refused(p, input, s.read) + AllFailures(s.flights)
    && s.failed == |s.report|
  }

  ghost predicate Summed(s: Run) {
    s.ok == Total(s.flights, Written)
  }

  ghost predicate Invariant(p: Plan, input: seq<Record>, s: Run)
    requires Valid(p)
  {
    Ordered(p, input, s) && Reported(p, input, s) && Summed(s) && Sized(p, s)
  }

  lemma FlushOrdered(p: Plan, input: seq<Record>, s: Run, noticed: bool)
    requires Valid(p) && Ordered(p, input, s) && !s.cancelled
    ensures Ordered(p, input, Flushed(s, noticed))
    ensures noticed || s.buffer == [] ==> Flushed(s, noticed).flights == s.flights
  {
    if s.buffer != [] {
      BatchesAppend(s.flights, Flight(s.buffer, Waiting));
      assert Batches(s.flights) + [] == Batches(s.flights);
      assert (Batches(s.flights) + s.buffer) + [] == Batches(s.flights) + s.buffer;
    }
  }

  lemma FlushReported(p: Plan, input: seq<Record>, s: Run, noticed: bool)
    requires Valid(p) && Reported(p, input, s) && Summed(s)
    ensures Reported(p, input, Flushed(s, noticed)) && Summed(Flushed(s, noticed))
  {
    if s.buffer != [] && !noticed {
      var f := Flight(s.buffer, Waiting);
      FailuresAppend(s.flights, f);
      TotalAppend(s.flights, f, Written);
    }
  }

  lemma FlushSized(p: Plan, s: Run, noticed: bool, ended: bool)
    requires Valid(p) && !s.ended && (forall i :: 0 <= i < |s.flights| ==> FlightSized(p, s, i))
    requires if ended then |s.buffer| < p.size else |s.buffer| == p.size
    ensures Sized(p, Flushed(s, noticed).(ended := ended))
  {
    var t := Flushed(s, noticed).(ended := ended);
    forall i | 0 <= i < |t.flights| ensures FlightSized(p, t, i) {
      assert i < |s.flights| ==> FlightSized(p, s, i);
    }
  }

  lemma AddedOrdered(p: Plan, input: seq<Record>, s: Run)
    requires Valid(p) && Ordered(p, input, s) && s.read < |input| && !s.cancelled
    ensures Ordered(p, input, Added(p, s, input[s.read]))
  {
    if Problem(p, input[s.read]).None? {
      var sent, row := Batches(s.flights) + s.dropped, Row(p, input, s.read);
      assert sent + (s.buffer + [row]) == (sent + s.buffer) + [row];
    }
  }

  lemma RefusedSome(p: Plan, input: seq<Record>, n: nat, f: Failure)
    requires Valid(p) && n < |input| && Problem(p, input[n]) == Some(f.reason) && f.line == p.first + n
    requires f.rec == input[n].fields
    ensures Refused(p, input, n + 1) == Refused(p, input, n) + multiset{f}
  {
  }

  lemma OneMoreReported(p: Plan, input: seq<Record>, s: Run, t: Run, f: Failure)
    requires Valid(p) && Reported(p, input, s) && s.read < |input|
    requires Refused(p, input, s.read + 1) == Refused(p, input, s.read) + multiset{f}
    requires t == Rejected(s.(read := s.read + 1), f)
    ensures Reported(p, input, t)
  {
    OneMore(s.report, Refused(p, input, s.read), AllFailures(s.flights), f);
  }

  lemma RejectedReported(p: Plan, input: seq<Record>, s: Run)
    requires Valid(p) && Reported(p, input, s) && s.read < |input| && Problem(p, input[s.read]).Some?
    ensures Reported(p, input, Added(p, s, input[s.read]))
  {
    var f := Failure(p.first + s.read, Problem(p, input[s.read]).value, input[s.read].fields);
    var t := Added(p, s, input[s.read]);
    AddedRejects(p, s, input[s.read], f);
    RefusedSome(p, input, s.read, f);
    OneMoreReported(p, input, s, t, f);
  }

  lemma AddedRejects(p: Plan, s: Run, rec: Record, f: Failure)
    requires Valid(p) && Problem(p, rec) == Some(f.reason) && f.line == p.first + s.read && f.rec == rec.fields
    ensures Added(p, s, rec) == Rejected(s.(read := s.read + 1), f)
  {
  }

  lemma BufferedReported(p: Plan, input: seq<Record>, s: Run)
    requires Valid(p) && Reported(p, input, s) && s.read < |input| && Problem(p, input[s.read]).None?
    ensures Reported(p, input, Added(p, s, input[s.read]))
  {
  }

  lemma OneMore(report: seq<Failure>, a: multiset<Failure>, b: multiset<Failure>, f: Failure)
    requires multiset(report) == a + b
    ensures multiset(report + [f]) == (a + multiset{f}) + b
  {
  }

  lemma FullKeeps(p: Plan, input: seq<Record>, u: Run, noticed: bool)
    requires Valid(p) && Ordered(p, input, u) && Reported(p, input, u) && Summed(u) && !u.cancelled && !u.ended
    requires |u.buffer| == p.size
    requires forall i :: 0 <= i < |u.flights| ==> FlightSized(p, u, i)
    ensures Invariant(p, input, Flushed(u, noticed))
  {
    FlushOrdered(p, input, u, noticed);
    FlushReported(p, input, u, noticed);
    FlushSized(p, u, noticed, false);
    assert Flushed(u, noticed).(ended := false) == Flushed(u, noticed);
  }

  lemma ReadKeeps(p: Plan, input: seq<Record>, s: Run, noticed: bool)
    requires Valid(p) && Invariant(p, input, s) && Enabled(p, input, s, Read(noticed))
    ensures Invariant(p, input, Taken(p, s, input[s.read], noticed))
  {
    var u := Added(p, s, input[s.read]);
    AddedOrdered(p, input, s);
    if Problem(p, input[s.read]).None? {
      BufferedReported(p, input, s);
    } else {
      RejectedReported(p, input, s);
    }
    SameSizes(p, s, u);
    if Problem(p, input[s.read]).None? && |u.buffer| == p.size {
      FullKeeps(p, input, u, noticed);
    }
  }

  lemma SameSizes(p: Plan, s: Run, u: Run)
    requires u.flights == s.flights && u.ended == s.ended
    requires forall i :: 0 <= i < |s.flights| ==> FlightSized(p, s, i)
    ensures forall i :: 0 <= i < |u.flights| ==> FlightSized(p, u, i)
  {
    forall i | 0 <= i < |u.flights| ensures FlightSized(p, u, i) {
      assert FlightSized(p, s, i);
    }
  }

  lemma EndKeeps(p: Plan, input: seq<Record>, s: Run, noticed: bool)
    requires Valid(p) && Invariant(p, input, s) && Enabled(p, input, s, End(noticed))
    ensures Invariant(p, input, Next(p, input, s, End(noticed)))
  {
    FlushOrdered(p, input, s, noticed);
    FlushReported(p, input, s, noticed);
    FlushSized(p, s, noticed, true);
  }

  /** A change of where one batch stands, with the failures and the written rows it brings. */
  lemma StandingKeeps(p: Plan, input: seq<Record>, s: Run, t: Run, i: nat, f: Flight, more: seq<Failure>)
    requires Valid(p) && Invariant(p, input, s) && i < |s.flights| && f.rows == s.flights[i].rows
    requires f.standing.Answered? ==> f.standing.next <= |f.rows|
    requires Failures(f) == Failures(s.flights[i]) + multiset(more)
    requires t == s.(
      flights := s.flights[i := f],
      report := s.report + more,
      failed := s.failed + |more|,
      ok := s.ok - Written(s.flights[i]) + Written(f),
      aborted := t.aborted)
    ensures Invariant(p, input, t)
  {
    BatchesUpdate(s.flights, i, f);
    FailuresUpdate(s.flights, i, f, multiset(more));
    TotalUpdate(s.flights, i, f, Written);
    forall j | 0 <= j < |t.flights| ensures FlightSized(p, t, j) {
      assert FlightSized(p, s, j);
    }
  }

  lemma StopKeeps(p: Plan, input: seq<Record>, s: Run)
    requires Valid(p) && Invariant(p, input, s)
    ensures Invariant(p, input, s.(ended := true))
  {
    forall i | 0 <= i < |s.flights| ensures FlightSized(p, s.(ended := true), i) {
      assert FlightSized(p, s, i);
    }
  }

  lemma CountedIs(s: Run, i: nat, f: Flight, more: seq<Failure>)
    requires i < |s.flights| && s.flights[i].standing.Answered? && s.flights[i].standing.next < |s.flights[i].rows|
    requires f == s.flights[i].(standing := Answered(s.flights[i].standing.reasons, s.flights[i].standing.next + 1))
    requires
      var k, g := s.flights[i].standing.next, s.flights[i];
      more == if k in g.standing.reasons then [Failure(g.rows[k].line, g.standing.reasons[k], g.rows[k].rec)] else []
    ensures Failures(f) == Failures(s.flights[i]) + multiset(more)
    ensures Counted(s, i) == s.(flights := s.flights[i := f], report := s.report + more, failed := s.failed + |more|)
  {
    if more == [] {
      assert s.report + more == s.report;
    }
  }

  lemma AccountKeeps(p: Plan, input: seq<Record>, s: Run, i: nat)
    requires Valid(p) && Invariant(p, input, s) && Enabled(p, input, s, Account(i))
    ensures Invariant(p, input, Counted(s, i))
  {
    var g := s.flights[i];
    var k := g.standing.next;
    var f := g.(standing := Answered(g.standing.reasons, k + 1));
    var more := if k in g.standing.reasons then [Failure(g.rows[k].line, g.standing.reasons[k], g.rows[k].rec)] else [];
    CountedIs(s, i, f, more);
    StandingKeeps(p, input, s, Counted(s, i), i, f, more);
  }

  /** A change of standing that brings no failures. */
  lemma QuietKeeps(p: Plan, input: seq<Record>, s: Run, t: Run, i: nat, standing: Standing)
    requires Valid(p) && Invariant(p, input, s) && i < |s.flights|
    requires standing.Answered? ==> standing.next <= |s.flights[i].rows|
    requires Failures(s.flights[i].(standing := standing)) == Failures(s.flights[i])
    requires t == s.(flights := s.flights[i := s.flights[i].(standing := standing)], ok := t.ok, aborted := t.aborted)
    requires t.ok == s.ok - Written(s.flights[i]) + Written(s.flights[i].(standing := standing))
    ensures Invariant(p, input, t)
  {
    assert s.report + [] == s.report;
    StandingKeeps(p, input, s, t, i, s.flights[i].(standing := standing), []);
  }

  lemma StepKeeps(p: Plan, input: seq<Record>, s: Run, e: Event)
    requires Valid(p) && Invariant(p, input, s) && Enabled(p, input, s, e)
    ensures Invariant(p, input, Next(p, input, s, e))
  {
    match e
    case Read(noticed) => ReadKeeps(p, input, s, noticed);
    case End(noticed) => EndKeeps(p, input, s, noticed);
    case Stop => StopKeeps(p, input, s);
    case Account(i) => AccountKeeps(p, input, s, i);
    case Conclude(i) => QuietKeeps(p, input, s, Concluded(s, i), i, Done(s.flights[i].standing.reasons));
    case Answer(i, reasons) => QuietKeeps(p, input, s, Next(p, input, s, e), i, Answered(reasons, 0));
    case Lose(i) => QuietKeeps(p, input, s, Next(p, input, s, e), i, Lost);
  }

  // ---- runs

  ghost predicate Legal(p: Plan, input: seq<Record>, s: Run, events: seq<Event>)
    requires Valid(p)
    decreases |events|
  {
    events == [] || (Enabled(p, input, s, events[0]) && Legal(p, input, Next(p, input, s, events[0]), events[1..]))
  }

  ghost function After(p: Plan, input: seq<Record>, s: Run, events: seq<Event>): Run
    requires Valid(p) && Legal(p, input, s, events)
    decreases |events|
  {
    if events == [] then s else After(p, input, Next(p, input, s, events[0]), events[1..])
  }

  /** A run and one more event. */
  lemma {:induction false} Extend(p: Plan, input: seq<Record>, s: Run, events: seq<Event>, e: Event)
    requires Valid(p) && Legal(p, input, s, events) && Enabled(p, input, After(p, input, s, events), e)
    ensures Legal(p, input, s, events + [e])
    ensures After(p, input, s, events + [e]) == Next(p, input, After(p, input, s, events), e)
    decreases |events|
  {
    if events != [] {
      assert (events + [e])[1..] == events[1..] + [e];
      Extend(p, input, Next(p, input, s, events[0]), events[1..], e);
    } else {
      assert [e][1..] == [];
      assert events + [e] == [e];
    }
  }

  lemma {:induction false} RunsKeep(p: Plan, input: seq<Record>, s: Run, events: seq<Event>)
    requires Valid(p) && Invariant(p, input, s) && Legal(p, input, s, events)
    ensures Invariant(p, input, After(p, input, s, events))
    decreases |events|
  {
    if events != [] {
      StepKeeps(p, input, s, events[0]);
      RunsKeep(p, input, Next(p, input, s, events[0]), events[1..]);
    }
  }

  // ---- conservation

  /** Every reason names a row of the batch. */
  predicate InRange(f: Flight) {
    f.standing.Done? ==> forall k :: k in f.standing.reasons ==> 0 <= k < |f.rows|
  }

  lemma {:induction false} HitsAre(reasons: map<int, Reason>, n: nat)
    ensures Hits(reasons, n) == |set k | k in reasons && 0 <= k < n|
  {
    var now := set k | k in reasons && 0 <= k < n;
    if n == 0 {
      assert now == {};
    } else {
      HitsAre(reasons, n - 1);
      var before := set k | k in reasons && 0 <= k < n - 1;
      assert now == if n - 1 in reasons then before + {n - 1} else before;
    }
  }

  /** A batch counts out exactly when core's reasons name its rows only; otherwise rows go missing from the count. */
  lemma StraysAre(f: Flight)
    ensures Strays(f) >= 0
    ensures Strays(f) == 0 <==> InRange(f)
  {
    if f.standing.Done? {
      var reasons := f.standing.reasons;
      var known := set k | k in reasons && 0 <= k < |f.rows|;
      HitsAre(reasons, |f.rows|);
      assert known <= reasons.Keys;
      assert |reasons.Keys - known| == |reasons| - |known|;
      if Strays(f) == 0 {
        assert reasons.Keys - known == {};
      } else {
        assert reasons.Keys - known != {};
      }
    }
  }

  lemma {:induction false} StraysTotal(flights: seq<Flight>)
    ensures Total(flights, Strays) >= 0
    ensures Total(flights, Strays) == 0 <==> forall i :: 0 <= i < |flights| ==> InRange(flights[i])
  {
    if flights != [] {
      var n := |flights| - 1;
      StraysTotal(flights[..n]);
      StraysAre(flights[n]);
      assert (forall i :: 0 <= i < |flights| ==> InRange(flights[i])) <==>
        (InRange(flights[n]) && forall i :: 0 <= i < n ==> InRange(flights[..n][i])) by {
        if InRange(flights[n]) && forall i :: 0 <= i < n ==> InRange(flights[..n][i]) {
          forall i | 0 <= i < |flights| ensures InRange(flights[i]) {
            assert i < n ==> flights[..n][i] == flights[i];
          }
        }
      }
    }
  }

  lemma {:induction false} RowFailuresCount(rows: seq<BatchRow>, reasons: map<int, Reason>, n: nat)
    requires n <= |rows|
    ensures |RowFailures(rows, reasons, n)| == Hits(reasons, n)
  {
    if n > 0 {
      RowFailuresCount(rows, reasons, n - 1);
    }
  }

  /** Each batch: its rows are written, failed, under way or given up, less the strays. */
  lemma {:induction false} RowsAddUp(flights: seq<Flight>)
    requires forall i :: 0 <= i < |flights| && flights[i].standing.Answered? ==>
      flights[i].standing.next <= |flights[i].rows|
    ensures |Batches(flights)| == Total(flights, Written) + |AllFailures(flights)| + Total(flights, InFlight) +
      Total(flights, Given) + Total(flights, Strays)
  {
    if flights != [] {
      var f := flights[|flights| - 1];
      RowsAddUp(flights[..|flights| - 1]);
      match f.standing
      case Answered(reasons, next) => RowFailuresCount(f.rows, reasons, next);
      case Done(reasons) => RowFailuresCount(f.rows, reasons, |f.rows|);
      case _ =>
    }
  }

  /** Rows written, failed, buffered, under way, and given up with a batch or dropped on cancellation. */
  function Accounted(s: Run): int {
    s.ok + s.failed + |s.buffer| + Total(s.flights, InFlight) + Total(s.flights, Given) + |s.dropped|
  }

  /**
   Main result: at every point of every run the rows read are all accounted for, exactly when core's answers named
   rows they were sent.
   */
  lemma Conservation(p: Plan, input: seq<Record>, events: seq<Event>)
    requires Valid(p) && Legal(p, input, START, events)
    ensures
      var s := After(p, input, START, events);
      s.read == Accounted(s) <==> forall i :: 0 <= i < |s.flights| ==> InRange(s.flights[i])
  {
    RunsKeep(p, input, START, events);
    var s := After(p, input, START, events);
    forall i | 0 <= i < |s.flights| && s.flights[i].standing.Answered?
      ensures s.flights[i].standing.next <= |s.flights[i].rows|
    {
      assert FlightSized(p, s, i);
    }
    RowsAddUp(s.flights);
    StraysTotal(s.flights);
    EveryRecordGoesOneWay(p, input, s.read);
    assert |multiset(s.report)| == |s.report|;
    assert |Batches(s.flights) + s.dropped + s.buffer| == |Accepted(p, input, s.read)|;
  }

  ghost predicate Clean(s: Run) {
    && s.ended && !s.cancelled && !s.aborted
    && forall i :: 0 <= i < |s.flights| ==> s.flights[i].standing.Done?
  }

  lemma {:induction false} NoneUnderWay(flights: seq<Flight>)
    requires forall i :: 0 <= i < |flights| ==> flights[i].standing.Done?
    ensures Total(flights, InFlight) == 0 && Total(flights, Given) == 0
  {
    if flights != [] {
      NoneUnderWay(flights[..|flights| - 1]);
    }
  }

  /** A file that has ended without a failure was read to the end and has nothing buffered. */
  ghost predicate EndedEmpty(input: seq<Record>, s: Run) {
    s.ended && !s.cancelled && !s.aborted ==> s.read == |input| && s.buffer == []
  }

  lemma StepEndsEmpty(p: Plan, input: seq<Record>, s: Run, e: Event)
    requires Valid(p) && Enabled(p, input, s, e) && EndedEmpty(input, s)
    ensures EndedEmpty(input, Next(p, input, s, e))
  {
  }

  lemma {:induction false} RunsEndEmpty(p: Plan, input: seq<Record>, s: Run, events: seq<Event>)
    requires Valid(p) && Legal(p, input, s, events) && EndedEmpty(input, s)
    ensures EndedEmpty(input, After(p, input, s, events))
    decreases |events|
  {
    if events != [] {
      StepEndsEmpty(p, input, s, events[0]);
      RunsEndEmpty(p, input, Next(p, input, s, events[0]), events[1..]);
    }
  }

  /** The batches of a clean run: full but for the last, and together the accepted rows in order. */
  ghost predicate SentInOrder(p: Plan, input: seq<Record>, s: Run)
    requires Valid(p)
  {
    && Batches(s.flights) == Accepted(p, input, |input|)
    && (forall i :: 0 <= i < |s.flights| - 1 ==> |s.flights[i].rows| == p.size)
    && (forall i :: 0 <= i < |s.flights| ==> 1 <= |s.flights[i].rows| <= p.size)
  }

  /**
   Main result: a run that ends cleanly has sent the accepted rows in order, each once; every row read was written or
   is in the report, once.
   */
  lemma CleanFinish(p: Plan, input: seq<Record>, events: seq<Event>, s: Run)
    requires Valid(p) && Legal(p, input, START, events) && s == After(p, input, START, events) && Clean(s)
    ensures s.read == |input| && SentInOrder(p, input, s)
    ensures multiset(s.report) == Refused(p, input, |input|) + AllFailures(s.flights) && s.failed == |s.report|
    ensures s.read == s.ok + s.failed <==> forall i :: 0 <= i < |s.flights| ==> InRange(s.flights[i])
  {
    RunsKeep(p, input, START, events);
    RunsEndEmpty(p, input, START, events);
    Conservation(p, input, events);
    NoneUnderWay(s.flights);
    assert (Batches(s.flights) + s.dropped) + s.buffer == Batches(s.flights);
    forall i | 0 <= i < |s.flights|
      ensures 1 <= |s.flights[i].rows| <= p.size && (i < |s.flights| - 1 ==> |s.flights[i].rows| == p.size)
    {
      assert FlightSized(p, s, i);
    }
  }
}
