/** An import's rows: read, checked, batched, sent to core side by side and accounted for. */
module ImportRun {
  import opened Wrappers

  datatype Record = Parsed(fields: seq<string>) | Malformed(error: string, fields: seq<string>)

  datatype Reason =
    | MalformedCsv(error: string)
    | ColumnCount(expected: nat, got: nat)
    | EmptyKey(column: string)
    | RejectedBatch(status: nat)
    | Core(code: nat, text: string, field: Option<string>)

  datatype BatchRow = BatchRow(line: nat, rec: seq<string>)

  datatype Failure = Failure(line: nat, reason: Reason, rec: seq<string>)

  /** The resolved header and the batch size; `first` is the line of the first data record. */
  datatype Plan = Plan(columns: nat, key: nat, keyName: string, first: nat, size: nat)

  predicate Valid(p: Plan) {
    p.key < p.columns && p.size >= 1
  }

  /** The white space Go's `strings.TrimSpace` strips. */
  predicate IsGoSpace(c: char) {
    || '\t' <= c <= '\r' || c == ' ' || c == '\U{85}' || c == '\U{A0}' || c ==
      '\U{1680}' || '\U{2000}' <= c <= '\U{200A}'
    || c == '\U{2028}' || c == '\U{2029}' || c == '\U{202F}' || c == '\U{205F}' || c == '\U{3000}'
  }

  predicate Empty(s: string) {
    forall i :: 0 <= i < |s| ==> IsGoSpace(s[i])
  }

  /** What is wrong with a record before core has seen it. */
  function Problem(p: Plan, r: Record): Option<Reason>
    requires Valid(p)
  {
    if r.Malformed? then Some(MalformedCsv(r.error))
    else if |r.fields| != p.columns then Some(ColumnCount(p.columns, |r.fields|))
    else if Empty(r.fields[p.key]) then Some(EmptyKey(p.keyName))
    else None
  }

  // ---- state

  /**
   Where a batch stands: sent, answered with the reasons of its failed rows and accounted up to `next`, done, or given
   up.
   */
  datatype Standing = Waiting | Answered(reasons: map<int, Reason>, next: nat) | Done(reasons: map<int, Reason>) | Lost

  datatype Flight = Flight(rows: seq<BatchRow>, standing: Standing)

  datatype Run = Run(
    read: nat,
    ok: int,
    failed: nat,
    buffer: seq<BatchRow>,
    flights: seq<Flight>,
    dropped: seq<BatchRow>,
    report: seq<Failure>,
    cancelled: bool,
    aborted: bool,
    ended: bool)

  datatype Event =
    | Read(noticed: bool)
    | End(noticed: bool)
    | Stop
    | Answer(flight: nat, reasons: map<int, Reason>)
    | Account(flight: nat)
    | Conclude(flight: nat)
    | Lose(flight: nat)

  const START := Run(0, 0, 0, [], [], [], [], false, false, false)

  /** Sends the buffered rows off, or drops them when the job is noticed to be cancelled. */
  function Flushed(s: Run, noticed: bool): Run {
    if s.buffer == [] then s
    else if noticed then s.(buffer := [], dropped := s.buffer, cancelled := true)
    else s.(buffer := [], flights := s.flights + [Flight(s.buffer, Waiting)])
  }

  function Rejected(s: Run, f: Failure): Run {
    s.(failed := s.failed + 1, report := s.report + [f])
  }

  /** A record read: failed at once, or buffered. */
  function Added(p: Plan, s: Run, r: Record): Run
    requires Valid(p)
  {
    var line, t := p.first + s.read, s.(read := s.read + 1);
    match Problem(p, r)
    case Some(reason) => Rejected(t, Failure(line, reason, r.fields))
    case None => t.(buffer := t.buffer + [BatchRow(line, r.fields)])
  }

  function Taken(p: Plan, s: Run, r: Record, noticed: bool): Run
    requires Valid(p)
  {
    var t := Added(p, s, r);
    if Problem(p, r).None? && |t.buffer| == p.size then Flushed(t, noticed) else t
  }

  function Counted(s: Run, i: nat): Run
    requires i < |s.flights| && s.flights[i].standing.Answered? && s.flights[i].standing.next < |s.flights[i].rows|
  {
    var f := s.flights[i];
    var k := f.standing.next;
    var t := s.(flights := s.flights[i := f.(standing := f.standing.(next := k + 1))]);
    if k in f.standing.reasons then Rejected(t, Failure(f.rows[k].line, f.standing.reasons[k], f.rows[k].rec)) else t
  }

  /** The rest of a batch counts as written: its rows less the reasons, whatever those name. */
  function Concluded(s: Run, i: nat): Run
    requires i < |s.flights| && s.flights[i].standing.Answered?
  {
    var f := s.flights[i];
    s.(ok := s.ok + |f.rows| - |f.standing.reasons|,
       flights := s.flights[i := f.(standing := Done(f.standing.reasons))])
  }

  predicate Enabled(p: Plan, input: seq<Record>, s: Run, e: Event) {
    match e
    case Read(_) => s.read < |input| && !s.cancelled && !s.ended
    case End(_) => s.read == |input| && !s.cancelled && !s.ended
    case Stop => s.aborted && !s.ended
    case Answer(i, _) => i < |s.flights| && s.flights[i].standing.Waiting?
    case Account(i) => i < |s.flights| && s.flights[i].standing.Answered?
      && s.flights[i].standing.next < |s.flights[i].rows|
    case Conclude(i) => i < |s.flights| && s.flights[i].standing.Answered? && s.flights[i].standing.next ==
      |s.flights[i].rows|
    case Lose(i) => i < |s.flights| && s.flights[i].standing.Waiting?
  }

  function Next(p: Plan, input: seq<Record>, s: Run, e: Event): Run
    requires Valid(p) && Enabled(p, input, s, e)
  {
    match e
    case Read(noticed) => Taken(p, s, input[s.read], noticed)
    case End(noticed) => Flushed(s, noticed).(ended := true)
    case Stop => s.(ended := true)
    case Answer(i, reasons) => s.(flights := s.flights[i := s.flights[i].(standing := Answered(reasons, 0))])
    case Account(i) => Counted(s, i)
    case Conclude(i) => Concluded(s, i)
    case Lose(i) => s.(flights := s.flights[i := s.flights[i].(standing := Lost)], aborted := true)
  }

  // ---- what the input says

  function Row(p: Plan, input: seq<Record>, i: nat): BatchRow
    requires i < |input|
  {
    BatchRow(p.first + i, input[i].fields)
  }

  /** Records core gets to see, in order. */
  function Accepted(p: Plan, input: seq<Record>, n: nat): seq<BatchRow>
    requires Valid(p) && n <= |input|
  {
    if n == 0 then []
    else Accepted(p, input, n - 1) + (if Problem(p, input[n - 1]).None? then [Row(p, input, n - 1)] else [])
  }

  /** Records that fail here. */
  function Refused(p: Plan, input: seq<Record>, n: nat): multiset<Failure>
    requires Valid(p) && n <= |input|
  {
    if n == 0 then multiset{}
    else
      Refused(p, input, n - 1) +
      match Problem(p, input[n - 1])
      case None => multiset{}
      case Some(reason) => multiset{Failure(p.first + n - 1, reason, input[n - 1].fields)}
  }

  lemma {:induction false} EveryRecordGoesOneWay(p: Plan, input: seq<Record>, n: nat)
    requires Valid(p) && n <= |input|
    ensures |Accepted(p, input, n)| + |Refused(p, input, n)| == n
  {
    if n > 0 {
      EveryRecordGoesOneWay(p, input, n - 1);
    }
  }

  // ---- what the batches say

  function Batches(flights: seq<Flight>): seq<BatchRow> {
    if flights == [] then [] else Batches(flights[..|flights| - 1]) + flights[|flights| - 1].rows
  }

  /** Reasons that name one of the first `n` rows. */
  function Hits(reasons: map<int, Reason>, n: nat): nat {
    if n == 0 then 0 else Hits(reasons, n - 1) + (if n - 1 in reasons then 1 else 0)
  }

  function RowFailures(rows: seq<BatchRow>, reasons: map<int, Reason>, n: nat): multiset<Failure>
    requires n <= |rows|
  {
    if n == 0 then multiset{}
    else
      RowFailures(rows, reasons, n - 1) +
      if n - 1 in reasons then multiset{Failure(rows[n - 1].line, reasons[n - 1], rows[n - 1].rec)} else multiset{}
  }

  /** Rows of a batch accounted as failed so far. */
  function Failures(f: Flight): multiset<Failure> {
    match f.standing
    case Answered(reasons, next) => if next <= |f.rows| then RowFailures(f.rows, reasons, next) else multiset{}
    case Done(reasons) => RowFailures(f.rows, reasons, |f.rows|)
    case _ => multiset{}
  }

  function AllFailures(flights: seq<Flight>): multiset<Failure> {
    if flights == [] then multiset{} else AllFailures(flights[..|flights| - 1]) + Failures(flights[|flights| - 1])
  }

  function Written(f: Flight): int {
    if f.standing.Done? then |f.rows| - |f.standing.reasons| else 0
  }

  function InFlight(f: Flight): int {
    match f.standing
    case Waiting => |f.rows|
    case Answered(reasons, next) => |f.rows| - Hits(reasons, next)
    case _ => 0
  }

  function Given(f: Flight): int {
    if f.standing.Lost? then |f.rows| else 0
  }

  /** Reasons for rows the batch does not have. */
  function Strays(f: Flight): int {
    if f.standing.Done? then |f.standing.reasons| - Hits(f.standing.reasons, |f.rows|) else 0
  }

  function Total(flights: seq<Flight>, g: Flight -> int): int {
    if flights == [] then 0 else Total(flights[..|flights| - 1], g) + g(flights[|flights| - 1])
  }

  // ---- records by what is wrong with them

  /** There is a character in it that is not white space. */
  predicate HasText(s: string) {
    exists i :: 0 <= i < |s| && !IsGoSpace(s[i])
  }

  /** Main result: what is reported of a record, and that every other one is passed on. */
  lemma ProblemIs(p: Plan, r: Record)
    requires Valid(p)
    ensures Problem(p, r).None? <==> r.Parsed? && |r.fields| == p.columns && HasText(r.fields[p.key])
    ensures r.Malformed? ==> Problem(p, r) == Some(MalformedCsv(r.error))
    ensures r.Parsed? && |r.fields| != p.columns ==> Problem(p, r) == Some(ColumnCount(p.columns, |r.fields|))
    ensures r.Parsed? && |r.fields| == p.columns && !HasText(r.fields[p.key]) ==>
      Problem(p, r) == Some(EmptyKey(p.keyName))
  {
  }

  lemma {:induction false} AcceptedHave(p: Plan, input: seq<Record>, n: nat, row: BatchRow)
    requires Valid(p) && n <= |input|
    ensures row in Accepted(p, input, n) <==>
      exists i :: 0 <= i < n && Problem(p, input[i]).None? && row == BatchRow(p.first + i, input[i].fields)
  {
    if n > 0 {
      AcceptedHave(p, input, n - 1, row);
    }
  }

  lemma {:induction false} RefusedHave(p: Plan, input: seq<Record>, n: nat, f: Failure)
    requires Valid(p) && n <= |input|
    ensures f in Refused(p, input, n) <==> exists i :: 0 <= i < n && FailsAs(p, input[i], i, f)
    ensures Refused(p, input, n)[f] <= 1 && (f in Refused(p, input, n) ==> f.line < p.first + n)
  {
    if n > 0 {
      RefusedHave(p, input, n - 1, f);
    }
  }

  /** Record `i` is reported with its line, its reason and what was read of it. */
  predicate FailsAs(p: Plan, r: Record, i: nat, f: Failure)
    requires Valid(p)
  {
    f.line == p.first + i && Problem(p, r) == Some(f.reason) && f.rec == r.fields
  }

  lemma {:induction false} RowFailuresHave(rows: seq<BatchRow>, reasons: map<int, Reason>, n: nat, f: Failure)
    requires n <= |rows|
    ensures f in RowFailures(rows, reasons, n) <==>
      exists i :: 0 <= i < n && i in reasons && f == Failure(rows[i].line, reasons[i], rows[i].rec)
  {
    if n > 0 {
      RowFailuresHave(rows, reasons, n - 1, f);
    }
  }
}
