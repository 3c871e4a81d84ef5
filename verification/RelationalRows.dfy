/**
 Upserts of rows in a relational table: contacts found and rows checked, then the valid rows written in one
 transaction.
 */
module RelationalRows {
  import opened Wrappers
  import opened FieldValues
  import opened Tables
  import opened KeyResolver
  import opened Database
  import opened TenantRuns
  import BatchChecks
  import ContactsWriteService

  const NO_TABLE: nat := 2017

  /** A row as sent; its data in the order of its properties. */
  datatype RowInput = RowInput(keyValue: string, rowKey: string, data: seq<(string, Raw)>)

  // ---- one row

  /** The error of the first bad value. */
  function ColumnError(columns: map<string, FieldDef>, data: seq<(string, Raw)>): Option<nat> {
    if data == [] then None
    else
      var head, (name, raw) := ColumnError(columns, data[..|data| - 1]), data[|data| - 1];
      if head.Some? then head
      else if name !in columns then Some(BatchChecks.NO_FIELD)
      else if NormalizeValue(columns[name], raw).Err? then Some(BAD_VALUE) else None
  }

  /** The row it would be, if its contact is found and its values are good. */
  function Candidate(
      table: nat, columns: map<string, FieldDef>, found: map<string, Id>, row: RowInput): Option<RelationalRow>
  {
    if row.keyValue in found && ColumnError(columns, row.data).None?
    then Some(RelationalRow(table, found[row.keyValue], row.rowKey)) else None
  }

  /** What the first `n` rows come to. */
  function Valid(
      table: nat, columns: map<string, FieldDef>, found: map<string, Id>, rows: seq<RowInput>,
        n: nat): set<RelationalRow>
    requires n <= |rows|
  {
    if n == 0 then {}
    else
      var r := Candidate(table, columns, found, rows[n - 1]);
      Valid(table, columns, found, rows, n - 1) + (if r.Some? then {r.value} else {})
  }

  lemma {:induction false} ValidHas(
    table: nat, columns: map<string, FieldDef>, found: map<string, Id>, rows: seq<RowInput>, n: nat, r: RelationalRow)
    requires n <= |rows|
    ensures r in Valid(table, columns, found, rows, n) <==>
      exists i :: 0 <= i < n && Candidate(table, columns, found, rows[i]) == Some(r)
  {
    if n > 0 {
      ValidHas(table, columns, found, rows, n - 1, r);
    }
  }

  /** What is reported of row `i`: contact not found, a bad value, or the same row before it. */
  function RowError(
      table: nat, columns: map<string, FieldDef>, found: map<string, Id>, rows: seq<RowInput>, i: nat): Option<nat>
    requires i < |rows|
  {
    if rows[i].keyValue !in found then Some(BatchChecks.NOT_FOUND)
    else if ColumnError(columns, rows[i].data).Some? then ColumnError(columns, rows[i].data)
    else if RelationalRow(table, found[rows[i].keyValue], rows[i].rowKey) in Valid(table, columns, found, rows, i)
    then Some(BatchChecks.NO_KEY) else None
  }

  /** Errors by index, in order. */
  function Errors(
      table: nat, columns: map<string, FieldDef>, found: map<string, Id>, rows: seq<RowInput>, n: nat): seq<(nat, nat)>
    requires n <= |rows|
  {
    if n == 0 then []
    else
      var e := RowError(table, columns, found, rows, n - 1);
      Errors(table, columns, found, rows, n - 1) + (if e.Some? then [(n - 1, e.value)] else [])
  }

  // ---- the service

  datatype Outcome = Refused(code: nat) | Written(upserted: nat, errors: seq<(nat, nat)>)

  class Service {
    const db: Tenant
    const keys: ContactsWriteService.Service

    constructor (db: Tenant, keys: ContactsWriteService.Service)
      requires keys.db == db
      ensures this.db == db && this.keys == keys
    {
      this.db, this.keys := db, keys;
    }

    /** Sorts the rows into errors and rows to write. */
    method Check(table: nat, columns: map<string, FieldDef>, found: map<string, Id>, rows: seq<RowInput>)
      returns (errors: seq<(nat, nat)>, valid: set<RelationalRow>)
      ensures errors == Errors(table, columns, found, rows, |rows|)
      ensures valid == Valid(table, columns, found, rows, |rows|)
      ensures |valid| + |errors| == |rows|
    {
      errors, valid := [], {};
      for i := 0 to |rows|
        invariant errors == Errors(table, columns, found, rows, i) && valid == Valid(table, columns, found, rows, i)
        invariant |valid| + |errors| == i
      {
        errors, valid := CheckRow(table, columns, found, rows, i, errors, valid);
      }
    }

    /** Row `i` joins the errors or the rows to write. */
    method CheckRow(
      table: nat, columns: map<string, FieldDef>, found: map<string, Id>, rows: seq<RowInput>, i: nat,
      errors: seq<(nat, nat)>, valid: set<RelationalRow>)
      returns (e: seq<(nat, nat)>, v: set<RelationalRow>)
      requires i < |rows|
      requires errors == Errors(table, columns, found, rows, i) && valid == Valid(table, columns, found, rows, i)
      ensures e == Errors(table, columns, found, rows, i + 1) && v == Valid(table, columns, found, rows, i + 1)
      ensures |v| + |e| == |valid| + |errors| + 1
    {
      e, v := errors, valid;
      CheckNext(table, columns, found, rows, i);
      if rows[i].keyValue !in found {
        e := errors + [(i, BatchChecks.NOT_FOUND)];
        return;
      }
      var bad := ColumnError(columns, rows[i].data);
      if bad.Some? {
        e := errors + [(i, bad.value)];
        return;
      }
      var r := RelationalRow(table, found[rows[i].keyValue], rows[i].rowKey);
      if r in valid {
        assert valid + {r} == valid;
        e := errors + [(i, BatchChecks.NO_KEY)];
      } else {
        v := valid + {r};
      }
    }

    static lemma CheckNext(
        table: nat, columns: map<string, FieldDef>, found: map<string, Id>, rows: seq<RowInput>, i: nat)
      requires i < |rows|
      ensures var e := RowError(table, columns, found, rows, i);
        Errors(table, columns, found, rows, i + 1) ==
          Errors(table, columns, found, rows, i) + (if e.Some? then [(i, e.value)] else [])
      ensures var r := Candidate(table, columns, found, rows[i]); var v := Valid(table, columns, found, rows, i);
        Valid(table, columns, found, rows, i + 1) == if r.Some? then v + {r.value} else v
    {
    }

    method Keys(rows: seq<RowInput>) returns (values: seq<string>)
      ensures |values| == |rows| && forall i :: 0 <= i < |rows| ==> values[i] == rows[i].keyValue
    {
      values := [];
      for i := 0 to |rows|
        invariant |values| == i && forall j :: 0 <= j < i ==> values[j] == rows[j].keyValue
      {
        values := values + [rows[i].keyValue];
      }
    }

    /** The transaction, some time after the contacts were found. */
    method Write(valid: set<RelationalRow>)
      modifies db`relational
      ensures db.State() == old(db.State()).(relational := old(db.relational) + valid)
    {
      db.relational := db.relational + valid;
    }

    /** `columns` are those of the table, if there is one. With no other writer, the run of look-up and transaction. */
    method Upsert(table: nat, columns: Option<map<string, FieldDef>>, key: Key, rows: seq<RowInput>)
      returns (r: Outcome, ghost valid: set<RelationalRow>)
      requires UniqueColumns(db.contacts) && keys.db == db
      modifies db`relational
      ensures r.Refused? <==> columns.None? || !KeyExists(db.fields, key)
      ensures r.Refused? ==>
        db.State() == old(db.State()) && r.code == if columns.None? then 2017 else 2009
      ensures r.Written? ==> r.upserted == |valid| && r.upserted + |r.errors| == |rows|
      ensures r.Written? ==> WrittenAlone(old(db.State()), valid, db.State())
    {
      valid := {};
      if columns.None? {
        return Refused(NO_TABLE), valid;
      }
      if !KeyExists(db.fields, key) {
        return Refused(BatchChecks.BAD_KEY), valid;
      }
      var values := Keys(rows);
      var found := keys.Resolve(key, values);
      var errors, checked := Check(table, columns.value, found, rows);
      valid := checked;
      FoundAreLive(db.State(), table, columns.value, key, found, rows, valid);
      WritingAlone(db.State(), valid);
      Write(checked);
      r := Written(|checked|, errors);
    }
  }

  /** A row to write is about a live contact that its key value names. */
  lemma FoundAreLive(
    s: Store, table: nat, columns: map<string, FieldDef>, key: Key, found: map<string, Id>, rows: seq<RowInput>,
    valid: set<RelationalRow>)
    requires forall i :: 0 <= i < |rows| ==> ContactsWriteService.Finds(s, key, found, rows[i].keyValue)
    requires valid == Valid(table, columns, found, rows, |rows|)
    ensures forall r :: r in valid ==> Live(s.contacts, r.contact)
  {
    forall r | r in valid ensures Live(s.contacts, r.contact) {
      ValidHas(table, columns, found, rows, |rows|, r);
      var i :| 0 <= i < |rows| && Candidate(table, columns, found, rows[i]) == Some(r);
      assert ContactsWriteService.Finds(s, key, found, rows[i].keyValue);
    }
  }

  /** The look-up and the write of these rows, with nothing between, leave `t`. */
  ghost predicate WrittenAlone(s: Store, valid: set<RelationalRow>, t: Store) {
    Leads(Idle(s), [FindRowContacts(0, valid), WriteRows(0)], Idle(t))
  }

  lemma WritingAlone(s: Store, valid: set<RelationalRow>)
    requires forall r :: r in valid ==> Live(s.contacts, r.contact)
    ensures WrittenAlone(s, valid, s.(relational := s.relational + valid))
  {
    var found := Moved(Idle(s), FindRowContacts(0, valid));
    assert found.flights - {0} == map[];
    OneAction(found, WriteRows(0));
    assert [FindRowContacts(0, valid), WriteRows(0)][1..] == [WriteRows(0)];
  }

  ghost predicate Reported(errors: seq<(nat, nat)>, i: nat) {
    exists k :: 0 <= k < |errors| && errors[k].0 == i
  }

  /** Exactly the rows with an error are reported, each once. */
  lemma {:induction false} ErrorsAre(
    table: nat, columns: map<string, FieldDef>, found: map<string, Id>, rows: seq<RowInput>, n: nat, i: nat)
    requires n <= |rows|
    ensures forall k :: 0 <= k < |Errors(table, columns, found, rows, n)| ==>
      Errors(table, columns, found, rows, n)[k].0 < n
    ensures forall j, k :: 0 <= j < k < |Errors(table, columns, found, rows, n)| ==>
      Errors(table, columns, found, rows, n)[j].0 < Errors(table, columns, found, rows, n)[k].0
    ensures Reported(Errors(table, columns, found, rows, n), i) <==>
      i < n && RowError(table, columns, found, rows, i).Some?
  {
    if n > 0 {
      ErrorsAre(table, columns, found, rows, n - 1, i);
      var head, e := Errors(table, columns, found, rows, n - 1), RowError(table, columns, found, rows, n - 1);
      if e.Some? {
        assert Errors(table, columns, found, rows, n)[|head|].0 == n - 1;
      }
      if k :| 0 <= k < |head| && head[k].0 == i {
        assert Errors(table, columns, found, rows, n)[k].0 == i;
      }
    }
  }

  // ---- rows by what is wrong with them

  /** The code of a value: no such column, or one the column does not take. */
  function ValueCode(columns: map<string, FieldDef>, v: (string, Raw)): Option<nat> {
    if v.0 !in columns then Some(2011)
    else if NormalizeValue(columns[v.0], v.1).Err? then Some(2010) else None
  }

  /** Value `i` is the first bad one. */
  predicate FirstBad(columns: map<string, FieldDef>, data: seq<(string, Raw)>, i: nat) {
    && i < |data| && ValueCode(columns, data[i]).Some?
    && forall j :: 0 <= j < i ==> ValueCode(columns, data[j]).None?
  }

  lemma {:induction false} ColumnErrorIs(columns: map<string, FieldDef>, data: seq<(string, Raw)>)
    ensures ColumnError(columns, data).None? <==> forall i :: 0 <= i < |data| ==> ValueCode(columns, data[i]).None?
    ensures ColumnError(columns, data).Some? ==>
      exists i: nat :: FirstBad(columns, data, i) && ColumnError(columns, data) == ValueCode(columns, data[i])
  {
    if data != [] {
      var n := |data| - 1;
      ColumnErrorIs(columns, data[..n]);
      if ColumnError(columns, data[..n]).Some? {
        var i: nat :| FirstBad(columns, data[..n], i) && ColumnError(columns, data[..n]) ==
          ValueCode(columns, data[..n][i]);
        assert FirstBad(columns, data, i);
      } else {
        assert forall i :: 0 <= i < n ==> data[i] == data[..n][i];
        assert ColumnError(columns, data).Some? ==> FirstBad(columns, data, n);
      }
    }
  }

  ghost predicate AllTaken(columns: map<string, FieldDef>, row: RowInput) {
    forall i :: 0 <= i < |row.data| ==> ValueCode(columns, row.data[i]).None?
  }

  /** Row `j` is good in itself and about the same contact and row key as row `i`. */
  ghost predicate SameRow(columns: map<string, FieldDef>, found: map<string, Id>, rows: seq<RowInput>, i: nat, j: nat)
    requires i < |rows| && j < |rows|
  {
    && rows[i].keyValue in found && rows[j].keyValue in found && AllTaken(columns, rows[j])
    && found[rows[j].keyValue] == found[rows[i].keyValue] && rows[j].rowKey == rows[i].rowKey
  }

  ghost predicate Repeated(columns: map<string, FieldDef>, found: map<string, Id>, rows: seq<RowInput>, i: nat)
    requires i < |rows|
  {
    exists j :: 0 <= j < i && SameRow(columns, found, rows, i, j)
  }

  /**
   Main result: a row whose contact is not found fails with 2008; one with bad values for the first of them, with
   2011 or 2010; one that repeats an earlier good row with 2014; every other one is written.
   */
  lemma RowErrorIs(table: nat, columns: map<string, FieldDef>, found: map<string, Id>, rows: seq<RowInput>, i: nat)
    requires i < |rows|
    ensures var e := RowError(table, columns, found, rows, i);
      && (rows[i].keyValue !in found ==> e == Some(2008))
      && (rows[i].keyValue in found && !AllTaken(columns, rows[i]) ==>
           exists k: nat :: FirstBad(columns, rows[i].data, k) && e == ValueCode(columns, rows[i].data[k]))
      && (rows[i].keyValue in found && AllTaken(columns, rows[i]) ==>
           e == if Repeated(columns, found, rows, i) then Some(2014) else None)
  {
    ColumnErrorIs(columns, rows[i].data);
    if rows[i].keyValue in found && AllTaken(columns, rows[i]) {
      var r := RelationalRow(table, found[rows[i].keyValue], rows[i].rowKey);
      ValidHas(table, columns, found, rows, i, r);
      forall j | 0 <= j < i
        ensures Candidate(table, columns, found, rows[j]) == Some(r) <==> SameRow(columns, found, rows, i, j)
      {
        ColumnErrorIs(columns, rows[j].data);
      }
    }
  }
}
