/** The import handler's loops: reading, flushing, sending with retries and accounting for core's answer. */
module ImportHandler {
  import opened Wrappers
  import opened ImportRun
  import opened ImportConservation

  // ---- core's answer

  datatype Problem = Problem(code: nat, text: string, field: Option<string>)

  /** An entry of `results` may hold no error; an entry of `errors` always is one. */
  datatype Result = Result(index: int, error: Option<Problem>)

  datatype Response = Response(results: seq<Result>, errors: seq<(int, Problem)>)

  function ReasonOf(p: Problem): Reason {
    Core(p.code, p.text, p.field)
  }

  function Named(results: seq<Result>): map<int, Reason> {
    if results == [] then map[]
    else
      var r := results[|results| - 1];
      var m := Named(results[..|results| - 1]);
      if r.error.Some? then m[r.index := ReasonOf(r.error.value)] else m
  }

  function Overlaid(m: map<int, Reason>, errors: seq<(int, Problem)>): map<int, Reason> {
    if errors == [] then m
    else Overlaid(m, errors[..|errors| - 1])[errors[|errors| - 1].0 := ReasonOf(errors[|errors| - 1].1)]
  }

  /** The reason each row failed for, by its index in the batch. */
  function Reasons(r: Response): map<int, Reason> {
    Overlaid(Named(r.results), r.errors)
  }

  function Everyone(n: nat, status: nat): map<int, Reason> {
    if n == 0 then map[] else Everyone(n - 1, status)[n - 1 := RejectedBatch(status)]
  }

  // ---- calls to core

  datatype Reply = Answered(response: Response) | Status(code: nat) | Unreachable

  datatype Posted = Success(response: Response) | Refused(status: nat) | GivenUp

  predicate Retryable(r: Reply) {
    r.Unreachable? || (r.Status? && (r.code >= 500 || r.code == 429))
  }

  /**
   Calls made in all, the `k`-th of them next: after a failure worth it another, as long as the job lives and retries
   are left.
   */
  function Calls(core: nat -> Reply, over: nat -> bool, retries: nat, k: nat): (n: nat)
    ensures n > k
    decreases if k < retries then retries - k else 0
  {
    if Retryable(core(k)) && !over(k) && k < retries then Calls(core, over, retries, k + 1) else k + 1
  }

  /** What the last call comes to; a refusal stands even if the job is over by then. */
  function Verdict(reply: Reply): Posted {
    match reply
    case Answered(response) => Success(response)
    case Status(code) => if Retryable(reply) then GivenUp else Refused(code)
    case Unreachable => GivenUp
  }

  /** Where a sent batch ends up. */
  function Landing(posted: Posted, rows: nat): Standing {
    match posted
    case Success(r) => Done(Reasons(r))
    case Refused(status) => Done(Everyone(rows, status))
    case GivenUp => Lost
  }

  function Wait(base: nat, k: nat): nat {
    if k == 0 then base else 2 * Wait(base, k - 1)
  }

  function Waits(base: nat, n: nat): seq<nat> {
    if n == 0 then [] else Waits(base, n - 1) + [Wait(base, n - 1)]
  }

  /**
   Every call but the last failed in a way worth another; the last did not, or the job was over, or no retry was left.
   */
  lemma {:induction false} CallsAre(core: nat -> Reply, over: nat -> bool, retries: nat, k: nat)
    requires k <= retries
    ensures k < Calls(core, over, retries, k) <= retries + 1
    ensures forall j :: k <= j < Calls(core, over, retries, k) - 1 ==> Retryable(core(j)) && !over(j)
    ensures
      var last := Calls(core, over, retries, k) - 1;
      !Retryable(core(last)) || over(last) || last == retries
    decreases retries - k
  {
    if Retryable(core(k)) && !over(k) && k < retries {
      CallsAre(core, over, retries, k + 1);
    }
  }

  /** A job whose context does not end. */
  predicate Never(k: nat) {
    false
  }

  // ---- the same by status codes

  /** An answer, or a refusal that another call would not change: below 500 and not 429. */
  predicate Final(r: Reply) {
    r.Answered? || (r.Status? && r.code < 500 && r.code != 429)
  }

  /** What a posted batch came to by its last reply. */
  predicate CameTo(posted: Posted, r: Reply) {
    match posted
    case Success(response) => r == Reply.Answered(response)
    case Refused(status) => r == Status(status) && status < 500 && status != 429
    case GivenUp => r.Unreachable? || (r.Status? && (r.code >= 500 || r.code == 429))
  }

  /** The calls go on up to the first final reply, and no further than retries and the life of the job allow. */
  predicate PostedAs(core: nat -> Reply, over: nat -> bool, retries: nat, posted: Posted, calls: nat) {
    && 1 <= calls <= retries + 1 && CameTo(posted, core(calls - 1))
    && (forall i :: 0 <= i < calls - 1 ==> !Final(core(i)) && !over(i))
    && (Final(core(calls - 1)) || over(calls - 1) || calls == retries + 1)
  }

  lemma CallsArePosted(core: nat -> Reply, over: nat -> bool, retries: nat)
    ensures var calls := Calls(core, over, retries, 0);
      PostedAs(core, over, retries, Verdict(core(calls - 1)), calls)
  {
    CallsAre(core, over, retries, 0);
  }

  /** Main result: the first final reply counts, if it comes within the retries and the life of the job. */
  lemma FirstFinalCounts(core: nat -> Reply, over: nat -> bool, retries: nat, j: nat, posted: Posted, calls: nat)
    requires PostedAs(core, over, retries, posted, calls) && j <= retries && Final(core(j))
    requires forall i :: 0 <= i < j ==> !Final(core(i)) && !over(i)
    ensures calls == j + 1 && !posted.GivenUp?
    ensures core(j).Answered? ==> posted == Success(core(j).response)
    ensures core(j).Status? ==> posted == Refused(core(j).code)
  {
    var last: nat := calls - 1;
    assert last < j ==> !Final(core(last)) && !over(last);
  }

  /** If none does, all calls are made and the batch is given up; a core that answers 503 for ever is such a case. */
  lemma NoFinalGivesUp(core: nat -> Reply, over: nat -> bool, retries: nat, posted: Posted, calls: nat)
    requires PostedAs(core, over, retries, posted, calls)
    requires forall i :: 0 <= i <= retries ==> !Final(core(i)) && !over(i)
    ensures calls == retries + 1 && posted.GivenUp?
  {
  }

  /** The waits double, from the configured one. */
  predicate Doubling(waits: seq<nat>, base: nat) {
    && (waits != [] ==> waits[0] == base)
    && forall i :: 0 < i < |waits| ==> waits[i] == 2 * waits[i - 1]
  }

  lemma {:induction false} WaitsDouble(base: nat, n: nat)
    ensures |Waits(base, n)| == n && Doubling(Waits(base, n), base)
    ensures n > 0 ==> Waits(base, n)[n - 1] == Wait(base, n - 1)
  {
    if n > 0 {
      WaitsDouble(base, n - 1);
    }
  }

  // ---- the reasons of an answer

  /** Entry `i` of `errors` is the last about row `k`. */
  ghost predicate LastError(errors: seq<(int, Problem)>, k: int, i: nat) {
    i < |errors| && errors[i].0 == k && forall j :: i < j < |errors| ==> errors[j].0 != k
  }

  ghost predicate LastResult(results: seq<Result>, k: int, i: nat) {
    && i < |results| && results[i].index == k && results[i].error.Some?
    && forall j :: i < j < |results| && results[j].index == k ==> results[j].error.None?
  }

  predicate Says(reason: Reason, p: Problem) {
    reason.Core? && reason.code == p.code && reason.text == p.text && reason.field == p.field
  }

  lemma {:induction false} NamedAre(results: seq<Result>, k: int)
    ensures k in Named(results) <==> exists i: nat :: LastResult(results, k, i)
    ensures forall i: nat :: LastResult(results, k, i) ==> Says(Named(results)[k], results[i].error.value)
  {
    if results != [] {
      var n := |results| - 1;
      NamedAre(results[..n], k);
      if results[n].index == k && results[n].error.Some? {
        assert LastResult(results, k, n);
      } else {
        forall i: nat | i < n ensures LastResult(results, k, i) <==> LastResult(results[..n], k, i) {
          assert results[..n][i] == results[i];
        }
      }
    }
  }

  lemma {:induction false} OverlaidAre(m: map<int, Reason>, errors: seq<(int, Problem)>, k: int)
    ensures k in Overlaid(m, errors) <==> k in m || exists i: nat :: LastError(errors, k, i)
    ensures forall i: nat :: LastError(errors, k, i) ==> Says(Overlaid(m, errors)[k], errors[i].1)
    ensures (forall i: nat :: !LastError(errors, k, i)) && k in m ==> Overlaid(m, errors)[k] == m[k]
  {
    if errors != [] {
      var n := |errors| - 1;
      OverlaidAre(m, errors[..n], k);
      if errors[n].0 == k {
        assert LastError(errors, k, n);
      } else {
        forall i: nat | i < n ensures LastError(errors, k, i) <==> LastError(errors[..n], k, i) {
          assert errors[..n][i] == errors[i];
        }
      }
    }
  }

  /** Main result: a row has a reason exactly if an entry names it, the last one counts, and `errors` over `results`. */
  lemma ReasonsAre(r: Response, k: int)
    ensures k in Reasons(r) <==>
      (exists i: nat :: LastError(r.errors, k, i)) || exists i: nat :: LastResult(r.results, k, i)
    ensures forall i: nat :: LastError(r.errors, k, i) ==> Says(Reasons(r)[k], r.errors[i].1)
    ensures (forall i: nat :: !LastError(r.errors, k, i)) ==>
      forall i: nat :: LastResult(r.results, k, i) ==> Says(Reasons(r)[k], r.results[i].error.value)
  {
    NamedAre(r.results, k);
    OverlaidAre(Named(r.results), r.errors, k);
  }

  /** A refused batch fails in all its rows, and for its status. */
  lemma {:induction false} EveryoneIs(n: nat, status: nat)
    ensures forall k :: k in Everyone(n, status) <==> 0 <= k < n
    ensures forall k :: 0 <= k < n ==> Everyone(n, status)[k] == RejectedBatch(status)
  {
    if n > 0 {
      EveryoneIs(n - 1, status);
    }
  }

  /** Main result: what a sent batch comes to: an answer's reasons, one refusal for all its rows, or nothing. */
  lemma LandingIs(posted: Posted, rows: nat)
    ensures posted.Success? ==> Landing(posted, rows) == Done(Reasons(posted.response))
    ensures posted.GivenUp? ==> Landing(posted, rows).Lost?
    ensures posted.Refused? ==>
      && Landing(posted, rows).Done?
      && var reasons := Landing(posted, rows).reasons;
      && |reasons| == rows && forall k :: 0 <= k < rows ==> k in reasons && reasons[k] == RejectedBatch(posted.status)
  {
    if posted.Refused? {
      EveryoneIs(rows, posted.status);
      EveryoneSize(rows, posted.status);
    }
  }

  lemma {:induction false} EveryoneSize(n: nat, status: nat)
    ensures |Everyone(n, status)| == n
  {
    if n > 0 {
      EveryoneSize(n - 1, status);
      EveryoneIs(n - 1, status);
    }
  }

  class Handler {
    const plan: Plan
    const retries: nat
    const backoff: nat

    var read: nat
    var ok: int
    var failed: nat
    var buffer: seq<BatchRow>
    var flights: seq<Flight>
    var dropped: seq<BatchRow>
    var report: seq<Failure>
    var cancelled: bool
    var aborted: bool
    var ended: bool

    function State(): Run
      reads this
    {
      Run(read, ok, failed, buffer, flights, dropped, report, cancelled, aborted, ended)
    }

    constructor (plan: Plan, retries: nat, backoff: nat)
      ensures State() == START && this.plan == plan && this.retries == retries && this.backoff == backoff
    {
      this.plan, this.retries, this.backoff := plan, retries, backoff;
      read, ok, failed, buffer, flights, dropped, report := 0, 0, 0, [], [], [], [];
      cancelled, aborted, ended := false, false, false;
    }

    method Fail(line: nat, reason: Reason, rec: seq<string>)
      modifies `failed, `report
      ensures State() == Rejected(old(State()), Failure(line, reason, rec))
    {
      failed := failed + 1;
      report := report + [Failure(line, reason, rec)];
    }

    /** `noticed`: the status check is due and finds the job cancelled. */
    method Flush(noticed: bool)
      modifies `buffer, `dropped, `flights, `cancelled
      ensures State() == Flushed(old(State()), noticed)
    {
      if |buffer| == 0 {
        return;
      }
      var b := buffer;
      buffer := [];
      if noticed {
        dropped, cancelled := b, true;
        return;
      }
      flights := flights + [Flight(b, Waiting)];
    }

    method Take(r: Record, noticed: bool)
      requires Valid(plan)
      modifies this
      ensures State() == Taken(plan, old(State()), r, noticed)
    {
      var line := plan.first + read;
      read := read + 1;
      if r.Malformed? {
        Fail(line, MalformedCsv(r.error), r.fields);
      } else if |r.fields| != plan.columns {
        Fail(line, ColumnCount(plan.columns, |r.fields|), r.fields);
      } else if Empty(r.fields[plan.key]) {
        Fail(line, EmptyKey(plan.keyName), r.fields);
      } else {
        buffer := buffer + [BatchRow(line, r.fields)];
        if |buffer| == plan.size {
          Flush(noticed);
        }
      }
    }

    /**
     Posts a batch, again after failures worth it: `core` answers each call, `over` says when the job's context has
     ended.
     */
    method Post(core: nat -> Reply, over: nat -> bool) returns (r: Posted, calls: nat, waits: seq<nat>)
      ensures calls == Calls(core, over, retries, 0)
      ensures r == Verdict(core(calls - 1))
      ensures waits == Waits(backoff, calls - 1)
      ensures PostedAs(core, over, retries, r, calls)
      ensures |waits| == calls - 1 && Doubling(waits, backoff)
    {
      CallsArePosted(core, over, retries);
      WaitsDouble(backoff, Calls(core, over, retries, 0) - 1);
      var wait, attempt := backoff, 0;
      waits := [];
      while true
        invariant attempt <= retries && Calls(core, over, retries, attempt) == Calls(core, over, retries, 0)
        invariant wait == Wait(backoff, attempt) && waits == Waits(backoff, attempt)
        decreases retries - attempt
      {
        var reply := core(attempt);
        if reply.Answered? || over(attempt) || (reply.Status? && !Retryable(reply)) || attempt >= retries {
          return Verdict(reply), attempt + 1, waits;
        }
        waits := waits + [wait];
        wait := wait * 2;
        attempt := attempt + 1;
      }
    }

    method ReasonsOf(r: Response) returns (m: map<int, Reason>)
      ensures m == Reasons(r)
    {
      m := map[];
      var i := 0;
      while i < |r.results|
        invariant i <= |r.results| && m == Named(r.results[..i])
      {
        assert r.results[..i + 1][..i] == r.results[..i];
        if r.results[i].error.Some? {
          m := m[r.results[i].index := ReasonOf(r.results[i].error.value)];
        }
        i := i + 1;
      }
      assert r.results[..i] == r.results;
      var j := 0;
      while j < |r.errors|
        invariant j <= |r.errors| && m == Overlaid(Named(r.results), r.errors[..j])
      {
        assert r.errors[..j + 1][..j] == r.errors[..j];
        m := m[r.errors[j].0 := ReasonOf(r.errors[j].1)];
        j := j + 1;
      }
      assert r.errors[..j] == r.errors;
    }

    /** The events so far, as the protocol tells them, have led here. */
    ghost predicate Tells(input: seq<Record>, events: seq<Event>)
      requires Valid(plan)
      reads this
    {
      Legal(plan, input, START, events) && After(plan, input, START, events) == State()
    }

    /** One row of an answered batch. */
    method Account(i: nat, ghost input: seq<Record>, ghost events: seq<Event>) returns (ghost later: seq<Event>)
      requires Valid(plan) && i < |flights| && flights[i].standing.Answered?
      requires flights[i].standing.next < |flights[i].rows|
      requires Tells(input, events)
      modifies `flights, `failed, `report
      ensures State() == Counted(old(State()), i) && Tells(input, later)
    {
      later := events + [ImportRun.Account(i)];
      Extend(plan, input, START, events, ImportRun.Account(i));
      var rows, reasons, k := flights[i].rows, flights[i].standing.reasons, flights[i].standing.next;
      flights := flights[i := Flight(rows, ImportRun.Answered(reasons, k + 1))];
      if k in reasons {
        Fail(rows[k].line, reasons[k], rows[k].rec);
      }
    }

    method Begin(i: nat, reasons: map<int, Reason>, ghost input: seq<Record>, ghost events: seq<Event>)
      returns (ghost later: seq<Event>)
      requires Valid(plan) && i < |flights| && flights[i].standing.Waiting? && Tells(input, events)
      modifies `flights
      ensures Tells(input, later)
      ensures flights == old(flights)[i := Flight(old(flights)[i].rows, ImportRun.Answered(reasons, 0))]
    {
      later := events + [Answer(i, reasons)];
      Extend(plan, input, START, events, Answer(i, reasons));
      flights := flights[i := Flight(flights[i].rows, ImportRun.Answered(reasons, 0))];
    }

    /** Fails the rows core gave a reason for, one by one; the others count as written. */
    method Settle(i: nat, reasons: map<int, Reason>, ghost input: seq<Record>, ghost events: seq<Event>)
      returns (ghost later: seq<Event>)
      requires Valid(plan) && i < |flights| && flights[i].standing.Waiting? && Tells(input, events)
      modifies `flights, `ok, `failed, `report
      ensures Tells(input, later) && flights == old(flights)[i := Flight(old(flights)[i].rows, Done(reasons))]
      ensures ok == old(ok) + |flights[i].rows| - |reasons|
    {
      var rows, k := flights[i].rows, 0;
      later := Begin(i, reasons, input, events);
      while k < |rows|
        invariant k <= |rows| && Tells(input, later) && ok == old(ok)
        invariant flights == old(flights)[i := Flight(rows, ImportRun.Answered(reasons, k))]
      {
        later := Account(i, input, later);
        k := k + 1;
      }
      later := Conclude(i, input, later);
    }

    method Conclude(i: nat, ghost input: seq<Record>, ghost events: seq<Event>) returns (ghost later: seq<Event>)
      requires Valid(plan) && i < |flights| && flights[i].standing.Answered?
      requires flights[i].standing.next == |flights[i].rows|
      requires Tells(input, events)
      modifies `flights, `ok
      ensures State() == Concluded(old(State()), i) && Tells(input, later)
    {
      later := events + [ImportRun.Conclude(i)];
      Extend(plan, input, START, events, ImportRun.Conclude(i));
      ok := ok + |flights[i].rows| - |flights[i].standing.reasons|;
      flights := flights[i := Flight(flights[i].rows, Done(flights[i].standing.reasons))];
    }

    /** Sends batch `i` and accounts for its rows; a batch core keeps refusing to take ends the import. */
    method Send(i: nat, core: nat -> Reply, ghost input: seq<Record>, ghost events: seq<Event>)
      returns (posted: Posted, ghost later: seq<Event>)
      requires Valid(plan) && i < |flights| && flights[i].standing.Waiting? && Tells(input, events)
      modifies `flights, `ok, `failed, `report, `aborted
      ensures Tells(input, later)
      ensures posted == Verdict(core(Calls(core, Never, retries, 0) - 1))
      ensures flights == old(flights)[i := Flight(old(flights)[i].rows, Landing(posted, |old(flights)[i].rows|))]
      ensures aborted <==> old(aborted) || posted.GivenUp?
      ensures PostedAs(core, Never, retries, posted, Calls(core, Never, retries, 0))
    {
      var calls, waits;
      posted, calls, waits := Post(core, Never);
      match posted
      case GivenUp =>
        Extend(plan, input, START, events, Lose(i));
        later := events + [Lose(i)];
        flights, aborted := flights[i := flights[i].(standing := Lost)], true;
      case Refused(status) =>
        later := Settle(i, Everyone(|flights[i].rows|, status), input, events);
      case Success(response) =>
        var reasons := ReasonsOf(response);
        later := Settle(i, reasons, input, events);
    }

    predicate Landed()
      reads `flights, `aborted
    {
      forall i :: 0 <= i < |flights| ==> flights[i].standing.Done? || (aborted && flights[i].standing.Lost?)
    }

    /** Reads a record and sends the batch it may complete. */
    method Step(input: seq<Record>, core: (nat, nat) -> Reply, noticed: bool, ghost events: seq<Event>)
      returns (ghost later: seq<Event>)
      requires Valid(plan) && Tells(input, events) && Landed() && read < |input| && !cancelled && !ended
      modifies this
      ensures Tells(input, later) && Landed() && read == old(read) + 1 && !ended
    {
      Extend(plan, input, START, events, Read(noticed));
      later := events + [Read(noticed)];
      var sent: nat := |flights|;
      Take(input[read], noticed);
      if |flights| > sent {
        var posted;
        posted, later := Send(sent, (k: nat) => core(sent, k), input, later);
      }
    }

    /** The end of the file: the last batch goes out. */
    method Last(input: seq<Record>, core: (nat, nat) -> Reply, noticed: bool, ghost events: seq<Event>)
      returns (ghost later: seq<Event>)
      requires Valid(plan) && Tells(input, events) && Landed() && read == |input| && !cancelled && !ended
      modifies this
      ensures Tells(input, later) && Landed() && ended
    {
      Extend(plan, input, START, events, End(noticed));
      later := events + [End(noticed)];
      var sent: nat := |flights|;
      Flush(noticed);
      ended := true;
      if |flights| > sent {
        var posted;
        posted, later := Send(sent, (k: nat) => core(sent, k), input, later);
      }
    }

    /**
     The whole file with one send at a time: `core(i, k)` answers the `k`-th call for batch `i`,
     `noticed(n)` says whether a status check after `n` records finds the job cancelled.
     */
    method Process(input: seq<Record>, core: (nat, nat) -> Reply, noticed: nat -> bool)
      returns (ghost events: seq<Event>)
      requires Valid(plan) && State() == START
      modifies this
      ensures Tells(input, events)
      ensures Clean(State()) <==> !cancelled && !aborted
    {
      events := [];
      while read < |input| && !cancelled && !aborted
        invariant Tells(input, events) && !ended && Landed()
        decreases |input| - read
      {
        events := Step(input, core, noticed(read), events);
      }
      if !cancelled && !aborted {
        RunsKeep(plan, input, START, events);
        events := Last(input, core, noticed(read), events);
      }
    }
  }
}
