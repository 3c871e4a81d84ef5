/** An import batch answered by the contact write engine. */
module ImportIntoCore {
  import opened Wrappers
  import FieldValues
  import Tables
  import KeyResolver
  import RelationalRows
  import BatchChecks
  import BatchRefinement
  import opened ImportRun
  import opened ImportConservation
  import opened ImportHandler

  /** The engine's results as the response carries them; `say` words an error. */
  function Answers(results: seq<BatchChecks.ItemResult>, say: BatchChecks.ItemError -> ImportHandler.Problem)
    : (r: seq<ImportHandler.Result>)
    ensures |r| == |results|
    ensures forall i :: 0 <= i < |results| ==>
      r[i].index == results[i].index && (r[i].error.Some? <==> results[i].error.Some?)
  {
    seq(|results|, i requires 0 <= i < |results| =>
      var e := results[i].error;
      ImportHandler.Result(results[i].index, if e.Some? then Some(say(e.value)) else None))
  }

  lemma {:induction false} NamedInOrder(results: seq<ImportHandler.Result>, k: int)
    requires forall i :: 0 <= i < |results| ==> results[i].index == i
    ensures k in Named(results) <==> 0 <= k < |results| && results[k].error.Some?
  {
    if results != [] {
      NamedInOrder(results[..|results| - 1], k);
    }
  }

  /**
   Main result: the engine's answer to a batch always counts out, and fails exactly the rows whose items it did not
   accept.
   */
  lemma EngineCountsOut(
      s: Tables.Store, b: BatchChecks.Batch, f: Flight, say: BatchChecks.ItemError -> ImportHandler.Problem)
    requires |b.items| == |f.rows|
    requires
      var results := BatchChecks.Results(s, Tables.LiveFields(s.fields), b, s.nextField);
      f.standing == Done(Reasons(Response(Answers(results, say), [])))
    ensures InRange(f) && Strays(f) == 0
    ensures
      var results := BatchChecks.Results(s, Tables.LiveFields(s.fields), b, s.nextField);
      forall i :: 0 <= i < |f.rows| ==> (i in f.standing.reasons <==> results[i].id.None?)
  {
    var results := BatchChecks.Results(s, Tables.LiveFields(s.fields), b, s.nextField);
    var answers := Answers(results, say);
    forall i | 0 <= i < |results| ensures results[i].index == i && (results[i].id.None? <==> results[i].error.Some?) {
      var p := BatchRefinement.EveryItemAnswered(s, b, i);
    }
    forall k ensures k in f.standing.reasons <==> 0 <= k < |answers| && answers[k].error.Some? {
      NamedInOrder(answers, k);
    }
    StraysAre(f);
  }

  // ---- targets other than contacts

  ghost predicate Reported(errors: seq<(int, ImportHandler.Problem)>, k: int) {
    exists i :: 0 <= i < |errors| && errors[i].0 == k
  }

  lemma {:induction false} OverlaidHas(errors: seq<(int, ImportHandler.Problem)>, k: int)
    ensures k in Overlaid(map[], errors) <==> Reported(errors, k)
  {
    if errors != [] {
      var n := |errors| - 1;
      OverlaidHas(errors[..n], k);
      if i :| 0 <= i < n && errors[..n][i].0 == k {
        assert errors[i].0 == k;
      }
      if i :| 0 <= i < |errors| && errors[i].0 == k {
        assert i < n ==> errors[..n][i].0 == k;
      }
    }
  }

  /** An answer that reports rows of the batch only, as `errors`, counts out and fails exactly those. */
  lemma ErrorsCountOut(f: Flight, errors: seq<(int, ImportHandler.Problem)>)
    requires f.standing == Done(Reasons(Response([], errors)))
    requires forall i :: 0 <= i < |errors| ==> 0 <= errors[i].0 < |f.rows|
    ensures InRange(f) && Strays(f) == 0
    ensures forall k :: k in f.standing.reasons <==> Reported(errors, k)
  {
    forall k ensures k in f.standing.reasons <==> Reported(errors, k) {
      OverlaidHas(errors, k);
    }
    StraysAre(f);
  }

  /** The errors of a list or relational call as the response carries them. */
  function Worded(errors: seq<(nat, nat)>, say: nat -> ImportHandler.Problem): (r: seq<(int, ImportHandler.Problem)>)
    ensures |r| == |errors| && forall i :: 0 <= i < |errors| ==> r[i].0 == errors[i].0
  {
    seq(|errors|, i requires 0 <= i < |errors| => (errors[i].0 as int, say(errors[i].1)))
  }

  /**
   So does the answer of a relational upsert: it fails exactly the rows it reports, and counts the others as written.
   */
  lemma RelationalCountsOut(
    f: Flight, table: nat, columns: map<string, FieldValues.FieldDef>, found: map<string, Tables.Id>,
    rows: seq<RelationalRows.RowInput>, say: nat -> ImportHandler.Problem)
    requires |rows| == |f.rows|
    requires f.standing ==
      Done(Reasons(Response([], Worded(RelationalRows.Errors(table, columns, found, rows, |rows|), say))))
    ensures InRange(f) && Strays(f) == 0
    ensures forall i :: 0 <= i < |rows| ==>
      (i in f.standing.reasons <==> RelationalRows.RowError(table, columns, found, rows, i).Some?)
  {
    var errors := RelationalRows.Errors(table, columns, found, rows, |rows|);
    RelationalRows.ErrorsAre(table, columns, found, rows, |rows|, 0);
    ErrorsCountOut(f, Worded(errors, say));
    forall i | 0 <= i < |rows|
      ensures i in f.standing.reasons <==> RelationalRows.RowError(table, columns, found, rows, i).Some?
    {
      RelationalRows.ErrorsAre(table, columns, found, rows, |rows|, i);
      if Reported(Worded(errors, say), i) {
        var k :| 0 <= k < |errors| && Worded(errors, say)[k].0 == i;
        assert errors[k].0 == i;
      }
      if k :| 0 <= k < |errors| && errors[k].0 == i {
        assert Worded(errors, say)[k].0 == i;
      }
    }
  }

  function NotFound(errors: seq<nat>): seq<(nat, nat)> {
    seq(|errors|, i requires 0 <= i < |errors| => (errors[i], BatchChecks.NOT_FOUND))
  }

  /** And that of a list call, which reports the values that name nobody. */
  lemma ListCountsOut(
    f: Flight, s: Tables.Store, key: KeyResolver.Key, values: seq<string>, errors: seq<nat>,
      say: nat -> ImportHandler.Problem)
    requires |values| == |f.rows|
    requires forall i :: i in errors <==> 0 <= i < |values| && KeyResolver.Lookup(s, key, values[i]).None?
    requires f.standing == Done(Reasons(Response([], Worded(NotFound(errors), say))))
    ensures InRange(f) && Strays(f) == 0
    ensures forall i :: 0 <= i < |values| ==>
      (i in f.standing.reasons <==> KeyResolver.Lookup(s, key, values[i]).None?)
  {
    var coded := NotFound(errors);
    forall i | 0 <= i < |errors| ensures errors[i] in errors && Worded(coded, say)[i].0 == errors[i] {
    }
    ErrorsCountOut(f, Worded(coded, say));
    forall i | 0 <= i < |values| ensures i in f.standing.reasons <==> i in errors {
      if i in errors {
        var k :| 0 <= k < |errors| && errors[k] == i;
        assert Worded(coded, say)[k].0 == i;
      }
      if Reported(Worded(coded, say), i) {
        var k :| 0 <= k < |errors| && Worded(coded, say)[k].0 == i;
        assert errors[k] == i;
      }
    }
  }
}
