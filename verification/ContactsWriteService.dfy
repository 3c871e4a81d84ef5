/** The batch write engine: validation, then one transaction, on tables updated in place. */
module ContactsWriteService {
  import opened Wrappers
  import opened Text
  import opened FieldValues
  import opened Tables
  import opened BatchCommit
  import opened KeyResolver
  import opened BatchChecks
  import opened BatchTheorems
  import opened BatchRefinement
  import opened TenantOps
  import opened Database

  /** An item with no error so far. */
  function Undecided(i: nat, k: string): ItemResult {
    ItemResult(i, KeyOption(k), None, false, [], None)
  }

  /** The result of item `i` once its key and fields are checked. */
  function ScreenedResult(defs: map<nat, FieldDef>, b: Batch, i: nat): ItemResult
    requires i < |b.items|
  {
    var k := KeyText(b.items[i], b.key);
    match Screened(defs, b.key, b.items, i)
    case Err(e) => Failed(i, k, e)
    case Ok(_) => Undecided(i, k)
  }

  function KeyedResult(b: Batch, i: nat): ItemResult
    requires i < |b.items|
  {
    var k := KeyText(b.items[i], b.key);
    match KeyError(b.key, b.items, i)
    case Some(e) => Failed(i, k, e)
    case None => Undecided(i, k)
  }

  function Tabulated<T>(n: nat, f: nat --> T): (r: seq<T>)
    requires forall i: nat :: i < n ==> f.requires(i)
    ensures |r| == n
  {
    if n == 0 then [] else Tabulated(n - 1, f) + [f(n - 1)]
  }

  lemma {:induction false} TabulatedAt<T>(n: nat, f: nat --> T, i: nat)
    requires i < n && forall k: nat :: k < n ==> f.requires(k)
    ensures Tabulated(n, f)[i] == f(i)
  {
    if i < n - 1 {
      TabulatedAt(n - 1, f, i);
    }
  }

  function KeyedResults(b: Batch, n: nat): (r: seq<ItemResult>)
    requires n <= |b.items|
    ensures |r| == n
  {
    Tabulated(n, (i: nat) requires i < |b.items| => KeyedResult(b, i))
  }

  lemma KeyedAt(b: Batch, n: nat, i: nat)
    requires i < n <= |b.items|
    ensures KeyedResults(b, n)[i] == KeyedResult(b, i)
  {
    TabulatedAt(n, (i: nat) requires i < |b.items| => KeyedResult(b, i), i);
  }

  /** Normalized values of field `f` claimed by the first `n` items still standing. */
  function SetterNorms(pending: seq<Pending>, errors: seq<Option<ItemError>>, f: nat, n: nat): set<string>
    requires n <= |pending| == |errors|
  {
    if n == 0 then {}
    else
      SetterNorms(pending, errors, f, n - 1) +
      (if Setter(pending, errors, f, n - 1) then {JsNorm(f, Claim(pending[n - 1], f).value)} else {})
  }

  lemma {:induction false} SetterNormsHas(
      pending: seq<Pending>, errors: seq<Option<ItemError>>, f: nat, n: nat, x: string)
    requires n <= |pending| == |errors|
    ensures x in SetterNorms(pending, errors, f, n) <==>
      exists j :: 0 <= j < n && Setter(pending, errors, f, j) && JsNorm(f, Claim(pending[j], f).value) == x
  {
    if n > 0 { SetterNormsHas(pending, errors, f, n - 1, x); }
  }

  lemma FieldErrorIs(s: Store, pending: seq<Pending>, errors: seq<Option<ItemError>>, f: nat, i: nat)
    requires i < |pending| == |errors|
    ensures AfterField(s, pending, errors, f)[i] ==
      if !Setter(pending, errors, f, i) then errors[i]
      else if JsNorm(f, Claim(pending[i], f).value) in SetterNorms(pending, errors, f, i)
      then Some(ItemError(NO_KEY, Some(FieldKey(f))))
      else if Lookup(s, FieldKey(f), Claim(pending[i], f).value) in {None, Some(pending[i].id)} then None
      else Some(ItemError(EXISTS, Some(FieldKey(f))))
  {
    if Setter(pending, errors, f, i) {
      SetterNormsHas(pending, errors, f, i, JsNorm(f, Claim(pending[i], f).value));
    }
  }

  /** The transaction, put together from its steps. */
  lemma CommitIs(
    s: Store, defs: map<nat, FieldDef>, valid: seq<Pending>, source: string, explicit: Option<ConsentInput>, t: Store)
    requires RowsFound(s.contacts, Existing(valid))
    requires var changes := BatchChanges(s.contacts, valid, source);
      && PutRows(s.contacts, changes) == Some(t.contacts)
      && SyncUnique(s.uniq, defs, changes) == Some(t.uniq)
      && t.consents == s.consents + ConsentRows(changes, explicit)
      && (forall i :: 0 <= i < |changes| ==> changes[i].contact in t.contacts)
      && t.events ==
        s.events + ConsentEvents(ConsentRows(changes, explicit)) + Snapshots(t.contacts, s.members, changes)
    requires t == s.(contacts := t.contacts, uniq := t.uniq, consents := t.consents, events := t.events)
    ensures Commit(s, defs, valid, source, explicit) == Some(t)
  {
  }

  lemma CommitRefused(
      s: Store, defs: map<nat, FieldDef>, valid: seq<Pending>, source: string, explicit: Option<ConsentInput>)
    requires RowsFound(s.contacts, Existing(valid)) ==>
      var cs :=
        BatchChanges(s.contacts, valid, source); PutRows(s.contacts, cs).None? || SyncUnique(s.uniq, defs, cs).None?
    ensures Commit(s, defs, valid, source, explicit).None?
  {
  }

  lemma {:induction false} PutRowsConcat(contacts: map<Id, Contact>, a: seq<Change>, c: seq<Change>)
    ensures PutRows(contacts, a).Some? ==> PutRows(contacts, a + c) == PutRows(PutRows(contacts, a).value, c)
    ensures PutRows(contacts, a).None? ==> PutRows(contacts, a + c).None?
  {
    if c == [] {
      assert a + c == a;
    } else {
      var n := |c| - 1;
      assert (a + c)[..|a| + n] == a + c[..n] && (a + c)[|a| + n] == c[n];
      PutRowsConcat(contacts, a, c[..n]);
    }
  }

  /** Every row to update is there, and the unique indexes take them all. */
  ghost predicate RowsAccepted(contacts: map<Id, Contact>, ps: seq<Pending>, source: string) {
    RowsFound(contacts, Existing(ps)) && PutRows(contacts, BatchChanges(contacts, ps, source)).Some?
  }

  class Service {
    const db: Tenant

    constructor (db: Tenant)
      ensures this.db == db
    {
      this.db := db;
    }

    // ---- key resolution

    /** The rows of the lookup query, by their key column. */
    method Query(key: Key, keys: set<string>) returns (rows: map<string, Id>)
      requires UniqueColumns(db.contacts)
      ensures forall v :: KeyNorm(key, v) in keys ==> (KeyNorm(key, v) in rows <==> Lookup(db.State(), key, v).Some?)
      ensures forall v :: KeyNorm(key, v) in keys && KeyNorm(key, v) in rows ==>
        Lookup(db.State(), key, v) == Some(rows[KeyNorm(key, v)])
    {
      ghost var s := db.State();
      rows := map[];
      if key.FieldKey? && !IsColumn(key.field) {
        var todo := db.uniq.Keys;
        while todo != {}
          invariant todo <= db.uniq.Keys
          invariant forall k :: k in rows ==>
            (key.field, k) in db.uniq && db.uniq[(key.field, k)] == rows[k] && Live(db.contacts, rows[k])
          invariant forall u ::
            u in db.uniq.Keys - todo && u.0 == key.field && u.1 in keys && Live(db.contacts, db.uniq[u]) ==> u.1 in rows
          decreases todo
        {
          var u :| u in todo;
          todo := todo - {u};
          if u.0 == key.field && u.1 in keys && Live(db.contacts, db.uniq[u]) {
            rows := rows[u.1 := db.uniq[u]];
          }
        }
      } else if !key.OtherKey? {
        var todo := db.contacts.Keys;
        while todo != {}
          invariant todo <= db.contacts.Keys
          invariant forall k :: k in rows ==>
            Live(db.contacts, rows[k]) && KeyColumn(db.contacts, key, rows[k]) == Some(k)
          invariant forall c :: c in db.contacts.Keys - todo && Live(db.contacts, c) ==>
            Fetched(db.contacts, key, keys, c, rows)
          decreases todo
        {
          var c :| c in todo;
          todo := todo - {c};
          var k := KeyColumn(db.contacts, key, c);
          if Live(db.contacts, c) && k.Some? && k.value in keys {
            rows := rows[k.value := c];
          }
        }
      }
      forall v | KeyNorm(key, v) in keys
        ensures KeyNorm(key, v) in rows ==> Lookup(s, key, v) == Some(rows[KeyNorm(key, v)])
        ensures Lookup(s, key, v).Some? ==> KeyNorm(key, v) in rows
      {
        if KeyNorm(key, v) in rows {
          LookupUnique(s, key, v, rows[KeyNorm(key, v)]);
        }
      }
    }

    /** The contact of each value that has one. */
    method Resolve(key: Key, values: seq<string>) returns (found: map<string, Id>)
      requires UniqueColumns(db.contacts)
      ensures Resolves(db.State(), key, values, found)
    {
      var keys: set<string> := {};
      for i := 0 to |values|
        invariant forall j :: 0 <= j < i ==> KeyNorm(key, values[j]) in keys
      {
        keys := keys + {KeyNorm(key, values[i])};
      }
      var rows := Query(key, keys);
      found := map[];
      for i := 0 to |values|
        invariant forall j :: 0 <= j < i ==> (values[j] in found <==> Lookup(db.State(), key, values[j]).Some?)
        invariant forall v :: v in found ==> v in values && Lookup(db.State(), key, v) == Some(found[v])
      {
        var k := KeyNorm(key, values[i]);
        if k in rows {
          found := found[values[i] := rows[k]];
        }
      }
    }

    // ---- validation

    /** Fails items without a key and items that repeat one. */
    method Keyed(b: Batch) returns (results: seq<ItemResult>)
      ensures |results| == |b.items| && results == KeyedResults(b, |b.items|)
    {
      var seen: set<string> := {};
      results := [];
      for i := 0 to |b.items|
        invariant seen == SeenKeys(b.key, b.items, i)
        invariant |results| == i && results == KeyedResults(b, i)
      {
        var r;
        r, seen := KeyItem(b, i, seen);
        results := results + [r];
      }
    }

    method KeyItem(b: Batch, i: nat, before: set<string>) returns (r: ItemResult, seen: set<string>)
      requires i < |b.items| && before == SeenKeys(b.key, b.items, i)
      ensures r == KeyedResult(b, i) && seen == SeenKeys(b.key, b.items, i + 1)
    {
      var k := KeyText(b.items[i], b.key);
      seen := before;
      if Blank(k) || KeyNorm(b.key, k) in seen {
        r := Failed(i, k, ItemError(NO_KEY, None));
      } else {
        r := Undecided(i, k);
      }
      if !Blank(k) {
        seen := seen + {KeyNorm(b.key, k)};
      }
    }

    /** Normalizes the fields of an item up to the first bad one. */
    method Validate(defs: map<nat, FieldDef>, key: Key, item: Item) returns (r: Result<FieldSet, ItemError>)
      ensures r == Fields(defs, key, item)
    {
      r := Ok([]);
      var n := 0;
      while n < |item| && r.Ok?
        invariant n <= |item| && r == Fields(defs, key, item[..n])
      {
        assert item[..n + 1][..n] == item[..n];
        var (k, raw) := item[n];
        if !(k == IdKey && key == IdKey) {
          match FieldError(defs, k, raw)
          case Ok(v) =>
            assert Fields(defs, key, item[..n + 1]) == Ok(r.value + [(k.field, v)]);
            r := Ok(r.value + [(k.field, v)]);
          case Err(e) => r := Err(e);
        }
        n := n + 1;
      }
      ErrorStays(defs, key, item, n);
    }

    static lemma ErrorStays(defs: map<nat, FieldDef>, key: Key, item: Item, n: nat)
      requires n <= |item| && (n == |item| || Fields(defs, key, item[..n]).Err?)
      ensures Fields(defs, key, item) == Fields(defs, key, item[..n])
      decreases |item|
    {
      if n == |item| {
        assert item[..n] == item;
      } else {
        var m := |item| - 1;
        assert item[..m][..n] == item[..n];
        ErrorStays(defs, key, item[..m], n);
      }
    }

    // ---- unique values

    /** Checks one unique field: values repeated in the batch or held by other contacts. */
    method CheckField(f: nat, pending: seq<Pending>, errors: seq<Option<ItemError>>) returns (r: seq<Option<ItemError>>)
      requires UniqueColumns(db.contacts) && |pending| == |errors|
      ensures r == AfterField(db.State(), pending, errors, f)
    {
      var values: seq<string> := [];
      for i := 0 to |pending|
        invariant forall j :: 0 <= j < i && Setter(pending, errors, f, j) ==> Claim(pending[j], f).value in values
      {
        if errors[i].None? && Claim(pending[i], f).Some? {
          values := values + [Claim(pending[i], f).value];
        }
      }
      var owners := Resolve(FieldKey(f), values);
      var seen: set<string> := {};
      ghost var s := db.State();
      r := [];
      for i := 0 to |pending|
        invariant seen == SetterNorms(pending, errors, f, i)
        invariant r == AfterField(s, pending, errors, f)[..i]
      {
        var next;
        next, seen := CheckItem(f, pending, errors, i, values, owners, seen);
        r := r + [next];
      }
    }

    method CheckItem(
        f: nat, pending: seq<Pending>, errors: seq<Option<ItemError>>, i: nat, ghost values: seq<string>,
        owners: map<string, Id>, before: set<string>)
      returns (next: Option<ItemError>, seen: set<string>)
      requires i < |pending| == |errors| && before == SetterNorms(pending, errors, f, i)
      requires Resolves(db.State(), FieldKey(f), values, owners)
      requires Setter(pending, errors, f, i) ==> Claim(pending[i], f).value in values
      ensures next == AfterField(db.State(), pending, errors, f)[i] && seen == SetterNorms(pending, errors, f, i + 1)
    {
      FieldErrorIs(db.State(), pending, errors, f, i);
      next, seen := errors[i], before;
      if errors[i].None? && Claim(pending[i], f).Some? {
        var v := Claim(pending[i], f).value;
        if JsNorm(f, v) in seen {
          next := Some(ItemError(NO_KEY, Some(FieldKey(f))));
        } else if v in owners && owners[v] != pending[i].id {
          next := Some(ItemError(EXISTS, Some(FieldKey(f))));
        }
        seen := seen + {JsNorm(f, v)};
      }
    }

    /** Checks every unique field but the key, in field order. */
    method CheckUnique(defs: map<nat, FieldDef>, key: Key, pending: seq<Pending>)
      returns (errors: seq<Option<ItemError>>)
      requires UniqueColumns(db.contacts)
      ensures errors == AfterFields(db.State(), defs, key, pending, db.nextField)
    {
      errors := NoErrors(|pending|);
      for f := 0 to db.nextField
        invariant errors == AfterFields(db.State(), defs, key, pending, f)
      {
        if f in defs && defs[f].unique && key != FieldKey(f) {
          errors := CheckField(f, pending, errors);
        }
      }
    }

    // ---- the transaction

    /** Merges the sent fields into existing contacts; unchanged contacts are left alone. */
    method Update(items: seq<Pending>, source: string) returns (ok: bool, changes: seq<Change>)
      modifies db`contacts
      ensures ok ==> RowsFound(old(db.contacts), items) && changes == UpdateChanges(old(db.contacts), items, source)
      ensures ok ==> PutRows(old(db.contacts), changes) == Some(db.contacts)
      ensures !ok && RowsFound(old(db.contacts), items) ==>
        PutRows(old(db.contacts), UpdateChanges(old(db.contacts), items, source)).None?
    {
      ghost var before := db.contacts;
      changes := [];
      var rows: set<Id> := {};
      for i := 0 to |items|
        invariant db.contacts == before
        invariant forall x :: x in rows <==> exists j :: 0 <= j < i && items[j].id == x
        invariant RowsFound(before, items[..i])
      {
        if !Live(db.contacts, items[i].id) || items[i].id in rows {
          assert !RowsFound(before, items);
          ok := false;
          return;
        }
        rows := rows + {items[i].id};
      }
      assert items[..|items|] == items;
      for i := 0 to |items|
        invariant db.contacts == before
        invariant changes == UpdateChanges(before, items[..i], source)
      {
        assert items[..i + 1][..i] == items[..i];
        var c := ChangeOf(db.contacts[items[i].id].data, false, items[i], source);
        if c.changed != [] {
          changes := changes + [c];
        }
      }
      ok := WriteRows(changes);
    }

    /** Writes the changed rows one after the other; a unique index that refuses one refuses all. */
    method WriteRows(changes: seq<Change>) returns (ok: bool)
      modifies db`contacts
      ensures ok <==> PutRows(old(db.contacts), changes).Some?
      ensures ok ==> PutRows(old(db.contacts), changes) == Some(db.contacts)
    {
      ok := true;
      for i := 0 to |changes|
        invariant ok <==> PutRows(old(db.contacts), changes[..i]).Some?
        invariant ok ==> PutRows(old(db.contacts), changes[..i]) == Some(db.contacts)
      {
        assert changes[..i + 1][..i] == changes[..i];
        var put := PutRow(db.contacts, changes[i]);
        if ok && put.Some? {
          db.contacts := put.value;
        } else {
          ok := false;
        }
      }
      assert changes[..|changes|] == changes;
    }

    /** Inserts new contacts, skipping rows in conflict; all have to be inserted. */
    method Insert(items: seq<Pending>, source: string) returns (ok: bool, changes: seq<Change>)
      modifies db`contacts
      ensures changes == InsertChanges(items, source)
      ensures ok <==> PutRows(old(db.contacts), changes).Some?
      ensures ok ==> PutRows(old(db.contacts), changes) == Some(db.contacts)
    {
      changes := [];
      for i := 0 to |items|
        invariant |changes| == i && forall j :: 0 <= j < i ==> changes[j] == ChangeOf(map[], true, items[j], source)
        invariant db.contacts == old(db.contacts)
      {
        changes := changes + [ChangeOf(map[], true, items[i], source)];
      }
      var inserted := 0;
      for i := 0 to |changes|
        invariant inserted <= i
        invariant inserted == i <==> PutRows(old(db.contacts), changes[..i]).Some?
        invariant inserted == i ==> PutRows(old(db.contacts), changes[..i]) == Some(db.contacts)
      {
        assert changes[..i + 1][..i] == changes[..i];
        var put := PutRow(db.contacts, changes[i]);
        if put.Some? {
          db.contacts := put.value;
          inserted := inserted + 1;
        }
      }
      assert changes[..|changes|] == changes;
      ok := inserted == |items|;
    }

    /** Keeps `unique_values` in step: clears the changed fields, then inserts their new values. */
    method SyncUniqueValues(defs: map<nat, FieldDef>, changes: seq<Change>) returns (ok: bool)
      modifies db`uniq
      ensures ok <==> SyncUnique(old(db.uniq), defs, changes).Some?
      ensures ok ==> SyncUnique(old(db.uniq), defs, changes) == Some(db.uniq)
    {
      var cleared: set<(Id, nat)> := {};
      var values: seq<((nat, string), Id)> := [];
      for i := 0 to |changes|
        invariant cleared == Cleared(defs, changes[..i]) && values == Values(defs, changes[..i])
        invariant db.uniq == old(db.uniq)
      {
        assert changes[..i + 1][..i] == changes[..i];
        var c := changes[i];
        ghost var cleared0, values0 := cleared, values;
        for j := 0 to |c.changed|
          invariant cleared == cleared0 + ClearedBy(defs, c, c.changed[..j])
          invariant values == values0 + ValuesBy(defs, c, c.changed[..j])
          invariant db.uniq == old(db.uniq)
        {
          assert c.changed[..j + 1][..j] == c.changed[..j];
          var f := c.changed[j];
          if Synced(defs, f) {
            cleared := cleared + {(c.contact, f)};
            if Entry(c.after, f).Some? {
              values := values + [((f, Entry(c.after, f).value), c.contact)];
            }
          }
        }
        assert c.changed[..|c.changed|] == c.changed;
      }
      assert changes[..|changes|] == changes;
      db.uniq := Without(db.uniq, cleared);
      ghost var base := db.uniq;
      var inserted := 0;
      for i := 0 to |values|
        invariant inserted <= i
        invariant inserted == i <==> InsertAll(base, values[..i]).Some?
        invariant inserted == i ==> InsertAll(base, values[..i]) == Some(db.uniq)
      {
        assert values[..i + 1][..i] == values[..i];
        var (k, x) := values[i];
        if k !in db.uniq {
          db.uniq := db.uniq[k := x];
          inserted := inserted + 1;
        }
      }
      assert values[..|values|] == values;
      ok := inserted == |values|;
    }

    /** The write hook: one history row and one event for each changed consent field. */
    method Record(changes: seq<Change>, explicit: Option<ConsentInput>)
      modifies db`consents, db`events
      ensures db.consents == old(db.consents) + ConsentRows(changes, explicit)
      ensures db.events == old(db.events) + ConsentEvents(ConsentRows(changes, explicit))
    {
      var rows: seq<Consent> := [];
      for i := 0 to |changes|
        invariant rows == ConsentRows(changes[..i], explicit)
        invariant db.consents == old(db.consents) && db.events == old(db.events)
      {
        assert changes[..i + 1][..i] == changes[..i];
        var c := changes[i];
        ghost var rows0 := rows;
        for j := 0 to |c.changed|
          invariant rows == rows0 + ConsentRowsBy(c, c.changed[..j], explicit)
          invariant db.consents == old(db.consents) && db.events == old(db.events)
        {
          assert c.changed[..j + 1][..j] == c.changed[..j];
          var ch := ChannelOf(c.changed[j]);
          if ch.Some? {
            rows := rows + [ConsentRow(c, ch.value, explicit)];
          }
        }
        assert c.changed[..|c.changed|] == c.changed;
      }
      assert changes[..|changes|] == changes;
      db.consents := db.consents + rows;
      db.events := db.events + ConsentEvents(rows);
    }

    /** Writes the rows of a batch, existing contacts first. */
    method WriteContacts(valid: seq<Pending>, source: string) returns (ok: bool, changes: seq<Change>)
      modifies db`contacts
      ensures ok <==> RowsAccepted(old(db.contacts), valid, source)
      ensures ok ==> changes == BatchChanges(old(db.contacts), valid, source)
      ensures ok ==> PutRows(old(db.contacts), changes) == Some(db.contacts)
    {
      ghost var before := db.contacts;
      var updated, updates := Update(Existing(valid), source);
      if !updated {
        UpdateRefused(before, valid, source);
        return false, [];
      }
      var inserted, inserts := Insert(New(valid), source);
      PutRowsConcat(before, updates, inserts);
      return inserted, updates + inserts;
    }

    /** Rows and index of a batch; on failure both are put back. */
    method WriteIndexed(defs: map<nat, FieldDef>, valid: seq<Pending>, source: string)
      returns (ok: bool, changes: seq<Change>)
      modifies db`contacts, db`uniq
      ensures ok ==>
        RowsFound(old(db.contacts), Existing(valid)) && changes == BatchChanges(old(db.contacts), valid, source)
      ensures ok ==> PutRows(old(db.contacts), changes) == Some(db.contacts)
      ensures ok ==> SyncUnique(old(db.uniq), defs, changes) == Some(db.uniq)
      ensures !ok ==> db.contacts == old(db.contacts) && db.uniq == old(db.uniq)
      ensures !ok && RowsFound(old(db.contacts), Existing(valid)) ==>
        var cs := BatchChanges(old(db.contacts), valid, source);
        PutRows(old(db.contacts), cs).None? || SyncUnique(old(db.uniq), defs, cs).None?
    {
      var contacts, uniq := db.contacts, db.uniq;
      ok, changes := WriteContacts(valid, source);
      if ok {
        ok := SyncUniqueValues(defs, changes);
      }
      if !ok {
        db.contacts, db.uniq := contacts, uniq;
      }
    }

    /** The transaction of a batch: all of it or, when it has to be retried, nothing. */
    method Transact(defs: map<nat, FieldDef>, valid: seq<Pending>, source: string, explicit: Option<ConsentInput>)
      returns (ok: bool)
      modifies db
      ensures Commit(old(db.State()), defs, valid, source, explicit) == if ok then Some(db.State()) else None
      ensures !ok ==> db.State() == old(db.State())
    {
      ghost var before := db.State();
      var changes;
      ok, changes := WriteIndexed(defs, valid, source);
      if !ok {
        CommitRefused(before, defs, valid, source, explicit);
        return;
      }
      PutRowsHit(before.contacts, changes);
      Announce(changes, explicit);
      CommitIs(before, defs, valid, source, explicit, db.State());
    }

    /** The consent hook, then one snapshot for each changed contact. */
    method Announce(changes: seq<Change>, explicit: Option<ConsentInput>)
      requires forall i :: 0 <= i < |changes| ==> changes[i].contact in db.contacts
      modifies db`consents, db`events
      ensures db.consents == old(db.consents) + ConsentRows(changes, explicit)
      ensures db.events ==
        old(db.events) + ConsentEvents(ConsentRows(changes, explicit)) + Snapshots(db.contacts, db.members, changes)
    {
      Record(changes, explicit);
      db.events := db.events + Snapshots(db.contacts, db.members, changes);
    }

    static lemma UpdateRefused(contacts: map<Id, Contact>, valid: seq<Pending>, source: string)
      requires RowsFound(contacts, Existing(valid)) ==>
        PutRows(contacts, UpdateChanges(contacts, Existing(valid), source)).None?
      ensures RowsFound(contacts, Existing(valid)) ==> PutRows(contacts, BatchChanges(contacts, valid, source)).None?
    {
      if RowsFound(contacts, Existing(valid)) {
        PutRowsConcat(contacts, UpdateChanges(contacts, Existing(valid), source), InsertChanges(New(valid), source));
      }
    }

    // ---- one attempt

    /** The fields of an item whose key is usable, or its error. */
    method ScreenItem(defs: map<nat, FieldDef>, b: Batch, i: nat, keyed: ItemResult)
      returns (r: ItemResult, fields: FieldSet)
      requires i < |b.items| && keyed == KeyedResult(b, i)
      ensures r == ScreenedResult(defs, b, i)
      ensures r.error.None? ==> Screened(defs, b.key, b.items, i) == Ok(fields)
    {
      r, fields := keyed, [];
      if keyed.error.None? {
        var checked := Validate(defs, b.key, b.items[i]);
        match checked
        case Ok(sent) => fields := sent;
        case Err(e) => r := Failed(i, KeyText(b.items[i], b.key), e);
      }
    }

    /** Keys and fields of every item; `sets` holds the fields of those without error, `keys` their keys. */
    method Screen(defs: map<nat, FieldDef>, b: Batch)
      returns (results: seq<ItemResult>, sets: seq<FieldSet>, keys: seq<string>)
      ensures |results| == |sets| == |b.items| && AllScreened(defs, b, |b.items|, results, sets, keys)
    {
      var keyed := Keyed(b);
      results, sets, keys := [], [], [];
      for i := 0 to |b.items|
        invariant |results| == |sets| == i && AllScreened(defs, b, i, results, sets, keys)
      {
        KeyedAt(b, |b.items|, i);
        var r, fields := ScreenItem(defs, b, i, keyed[i]);
        var more := if r.error.None? then keys + [KeyText(b.items[i], b.key)] else keys;
        StillScreened(defs, b, i, results, sets, keys, r, fields, more);
        results, sets, keys := results + [r], sets + [fields], more;
      }
    }

    /** Gives an item its contact, or fails it by the mode of the call. */
    method PlaceItem(b: Batch, i: nat, screened: ItemResult, fields: FieldSet, found: map<string, Id>)
      returns (r: ItemResult, p: Option<Pending>)
      requires i < |b.items| && screened.error.None?
      requires Finds(db.State(), b.key, found, KeyText(b.items[i], b.key))
      ensures r == PlacedAs(b, i, Placed(db.State(), b, i, fields))
      ensures if p.Some? then Placed(db.State(), b, i, fields) == Ok(p.value) else Placed(db.State(), b, i, fields).Err?
    {
      var k := KeyText(b.items[i], b.key);
      p := None;
      if k in found && b.mode.Create? {
        r := Failed(i, k, ItemError(EXISTS, None));
      } else if k !in found && (b.mode.Update? || b.key == IdKey) {
        r := Failed(i, k, ItemError(NOT_FOUND, None));
      } else {
        p := Some(Pending(i, k, fields, if k in found then found[k] else b.ids[i], k !in found));
        r := ItemResult(i, KeyOption(k), Some(p.value.id), p.value.created, [], None);
      }
    }

    /** One screened item: its result so far and, unless it has failed, the item with its contact. */
    method PlaceNext(
        defs: map<nat, FieldDef>, b: Batch, i: nat, screened: ItemResult, fields: FieldSet, keys: seq<string>,
        found: map<string, Id>)
      returns (r: ItemResult, p: Option<Pending>)
      requires i < |b.items| && IsScreened(defs, b, i, screened, fields, keys)
      requires Resolves(db.State(), b.key, keys, found)
      ensures r == PlacedResult(db.State(), defs, b, i)
      ensures p == if Resolved(db.State(), defs, b, i).Ok? then Some(Resolved(db.State(), defs, b, i).value) else None
    {
      PlacedNext(db.State(), defs, b, i, screened, fields, keys);
      if screened.error.None? {
        r, p := PlaceItem(b, i, screened, fields, found);
      } else {
        r, p := screened, None;
      }
    }

    /** Gives each item without error its contact. */
    method Place(
        defs: map<nat, FieldDef>, b: Batch, screened: seq<ItemResult>, sets: seq<FieldSet>, keys: seq<string>,
        found: map<string, Id>)
      returns (results: seq<ItemResult>, pending: seq<Pending>)
      requires |screened| == |sets| == |b.items|
      requires AllScreened(defs, b, |b.items|, screened, sets, keys)
      requires Resolves(db.State(), b.key, keys, found)
      ensures pending == Candidates(db.State(), defs, b, |b.items|)
      ensures results == PlacedResults(db.State(), defs, b, |b.items|)
    {
      results, pending := [], [];
      ghost var s := db.State();
      NothingPlaced(s, defs, b);
      for i := 0 to |b.items|
        invariant pending == Candidates(s, defs, b, i) && results == PlacedResults(s, defs, b, i)
      {
        ScreenedAt(defs, b, |b.items|, screened, sets, keys, i);
        results, pending := PlaceMore(defs, b, i, screened[i], sets[i], keys, found, results, pending);
      }
    }

    static lemma NothingPlaced(s: Store, defs: map<nat, FieldDef>, b: Batch)
      ensures Candidates(s, defs, b, 0) == [] && PlacedResults(s, defs, b, 0) == []
    {
      assert AllResolved(s, defs, b, 0) == [];
    }

    method PlaceMore(
        defs: map<nat, FieldDef>, b: Batch, i: nat, screened: ItemResult, fields: FieldSet, keys: seq<string>,
        found: map<string, Id>, before: seq<ItemResult>, stood: seq<Pending>)
      returns (results: seq<ItemResult>, pending: seq<Pending>)
      requires i < |b.items| && IsScreened(defs, b, i, screened, fields, keys)
      requires Resolves(db.State(), b.key, keys, found)
      requires before == PlacedResults(db.State(), defs, b, i) && stood == Candidates(db.State(), defs, b, i)
      ensures results == PlacedResults(db.State(), defs, b, i + 1)
      ensures pending == Candidates(db.State(), defs, b, i + 1)
    {
      var r, p := PlaceNext(defs, b, i, screened, fields, keys, found);
      CandidatesStep(db.State(), defs, b, i);
      PlacedMore(db.State(), defs, b, i);
      results := before + [r];
      pending := if p.Some? then stood + [p.value] else stood;
    }

    /** Fails the items the unique checks reject; the others are written. */
    method Settle(pending: seq<Pending>, errors: seq<Option<ItemError>>, placed: seq<ItemResult>)
      returns (results: seq<ItemResult>, valid: seq<Pending>)
      requires |errors| == |pending| && forall j :: 0 <= j < |pending| ==> pending[j].index < |placed|
      requires forall i, j :: 0 <= i < j < |pending| ==> pending[i].index < pending[j].index
      ensures |results| == |placed| && valid == Standing(pending, errors)
      ensures forall i :: 0 <= i < |placed| ==> results[i] == SettledResult(db.contacts, pending, errors, placed, i)
    {
      results, valid := placed, [];
      for j := 0 to |pending|
        invariant |results| == |placed| && valid == Standing(pending[..j], errors[..j])
        invariant forall i :: 0 <= i < |placed| ==>
          results[i] == SettledResult(db.contacts, pending[..j], errors[..j], placed, i)
      {
        assert pending[..j + 1][..j] == pending[..j] && errors[..j + 1][..j] == errors[..j];
        var p := pending[j];
        PositionGrows(pending, j);
        match errors[j]
        case Some(e) =>
          results := results[p.index := Failed(p.index, p.key, e)];
        case None =>
          results := results[p.index := Succeeded(db.contacts, p)];
          valid := valid + [p];
      }
      assert pending[..|pending|] == pending && errors[..|pending|] == errors;
    }

    /** One attempt; `ok` is false when the transaction lost a race and nothing was written. */
    method Attempt(b: Batch) returns (ok: bool, results: seq<ItemResult>)
      requires UniqueColumns(db.contacts)
      modifies db
      ensures BatchChecks.Attempt(old(db.State()), b) == if ok then Finished(results, db.State()) else Retry
      ensures !ok ==> db.State() == old(db.State())
    {
      ghost var s := db.State();
      var defs := LiveFields(db.fields);
      var screened, sets, keys := Screen(defs, b);
      var found := Resolve(b.key, keys);
      var placed, pending := Place(defs, b, screened, sets, keys, found);
      var errors := CheckUnique(defs, b.key, pending);
      CandidatesAre(s, b, |b.items|);
      var valid;
      results, valid := Settle(pending, errors, placed);
      SettledAre(s, b, pending, errors, placed, results);
      if valid == [] {
        return true, results;
      }
      ok := Transact(defs, valid, b.source, b.explicit);
    }

    // ---- the calls

    /** Writes the items of a call, in up to three attempts, each with new IDs. */
    method Write(b: Batch, ids: seq<seq<Id>>) returns (r: Written)
      requires UniqueColumns(db.contacts) && IdsFor(b, ids)
      modifies db
      ensures r.BadKey? <==> !KeyExists(old(db.fields), b.key)
      ensures r.Wrote? ==> Outcome(old(db.State()), b, ids, 0) == Finished(r.results, db.State())
      ensures r.GaveUp? ==> Outcome(old(db.State()), b, ids, 0) == Retry
      ensures !r.Wrote? ==> db.State() == old(db.State())
    {
      if !KeyExists(db.fields, b.key) {
        return BadKey;
      }
      ghost var s := db.State();
      for attempt := 0 to ATTEMPTS
        invariant db.State() == s && Outcome(s, b, ids, attempt) == Outcome(s, b, ids, 0)
      {
        var ok, results := Attempt(Try(b, ids[attempt]));
        NextOutcome(s, b, ids, attempt, if ok then Finished(results, db.State()) else Retry);
        if ok {
          return Wrote(results);
        }
      }
      return GaveUp;
    }

    /** Marks live contacts deleted and frees their unique values; answers the ones deleted. */
    method SoftDelete(ids: seq<Id>) returns (gone: seq<Id>)
      modifies db`contacts, db`uniq, db`events
      ensures gone == LiveOf(old(db.contacts), ids)
      ensures db.State() == TenantOps.SoftDelete(old(db.State()), ids)
    {
      gone := [];
      for i := 0 to |ids|
        invariant gone == LiveOf(old(db.contacts), ids[..i])
        invariant db.State() == old(db.State())
      {
        assert ids[..i + 1][..i] == ids[..i];
        if Live(db.contacts, ids[i]) && ids[i] !in gone {
          gone := gone + [ids[i]];
        }
      }
      assert ids[..|ids|] == ids;
      db.contacts := map c | c in db.contacts ::
        if c in gone then db.contacts[c].(deleted := true, version := db.contacts[c].version + 1) else db.contacts[c];
      db.uniq := map k | k in db.uniq && db.uniq[k] !in gone :: db.uniq[k];
      db.events := db.events + DeletedEvents(gone, "api");
    }

    /** The keys of the items without error. */
    method KeysOf(b: Batch, keyed: seq<ItemResult>) returns (keys: seq<string>)
      requires |keyed| == |b.items|
      ensures forall i :: 0 <= i < |b.items| && keyed[i].error.None? ==> KeyText(b.items[i], b.key) in keys
    {
      keys := [];
      for i := 0 to |b.items|
        invariant forall j :: 0 <= j < i && keyed[j].error.None? ==> KeyText(b.items[j], b.key) in keys
      {
        if keyed[i].error.None? {
          keys := keys + [KeyText(b.items[i], b.key)];
        }
      }
    }

    /** The contacts the items' keys name, and the answer for each item. */
    method Named(b: Batch) returns (results: seq<ItemResult>, ids: seq<Id>)
      requires UniqueColumns(db.contacts)
      ensures results == DeletedResults(db.State(), b, |b.items|) && ids == DeletedIds(db.State(), b, |b.items|)
    {
      ghost var s := db.State();
      var keyed := Keyed(b);
      var keys := KeysOf(b, keyed);
      var found := Resolve(b.key, keys);
      results, ids := [], [];
      for i := 0 to |b.items|
        invariant results == DeletedResults(s, b, i) && ids == IdsOf(results)
      {
        var r := NameItem(b, i, keyed, keys, found);
        DeletedMore(s, b, i);
        NamedMore(results, r);
        ids := if r.id.Some? then ids + [r.id.value] else ids;
        results := results + [r];
      }
    }

    static lemma NamedMore(results: seq<ItemResult>, r: ItemResult)
      ensures IdsOf(results + [r]) == IdsOf(results) + (if r.id.Some? then [r.id.value] else [])
    {
      assert (results + [r])[..|results|] == results;
    }

    method NameItem(b: Batch, i: nat, keyed: seq<ItemResult>, keys: seq<string>, found: map<string, Id>)
      returns (r: ItemResult)
      requires i < |b.items| == |keyed| && keyed == KeyedResults(b, |b.items|)
      requires keyed[i].error.None? ==> KeyText(b.items[i], b.key) in keys
      requires Resolves(db.State(), b.key, keys, found)
      ensures r == DeletedResult(db.State(), b, i)
    {
      var k := KeyText(b.items[i], b.key);
      KeyedAt(b, |b.items|, i);
      r := keyed[i];
      if r.error.None? {
        if k in found {
          r := ItemResult(i, KeyOption(k), Some(found[k]), false, [], None);
        } else {
          r := Failed(i, k, ItemError(NOT_FOUND, None));
        }
      }
    }

    /** Soft-deletes the contacts the items' keys name; unknown keys fail. */
    method Delete(b: Batch) returns (r: Result<seq<ItemResult>, nat>)
      requires UniqueColumns(db.contacts)
      modifies db`contacts, db`uniq, db`events
      ensures r ==
        if KeyExists(db.fields, b.key) then Ok(DeletedResults(old(db.State()), b, |b.items|)) else Err(BAD_KEY)
      ensures r.Ok? ==> db.State() == TenantOps.SoftDelete(old(db.State()), DeletedIds(old(db.State()), b, |b.items|))
      ensures r.Err? ==> r.error == 2009 && db.State() == old(db.State())
    {
      if !KeyExists(db.fields, b.key) {
        return Err(BAD_KEY);
      }
      var results, ids := Named(b);
      var gone := SoftDelete(ids);
      r := Ok(results);
    }
  }

  const ATTEMPTS: nat := 3

  /** What a write call answers: an unknown key, the error of the last attempt, or results. */
  datatype Written = BadKey | GaveUp | Wrote(results: seq<ItemResult>)

  function Try(b: Batch, ids: seq<Id>): Batch
    requires |ids| == |b.items|
  {
    b.(ids := ids)
  }

  ghost predicate IdsFor(b: Batch, ids: seq<seq<Id>>) {
    |ids| == ATTEMPTS && forall a :: 0 <= a < ATTEMPTS ==> |ids[a]| == |b.items|
  }

  /** What the first attempt from the `a`-th on that commits did, `Retry` if none of the three does. */
  ghost function Outcome(s: Store, b: Batch, ids: seq<seq<Id>>, a: nat): Attempted
    requires IdsFor(b, ids) && a <= ATTEMPTS
    decreases ATTEMPTS - a
  {
    if a == ATTEMPTS then Retry
    else
      var r := BatchChecks.Attempt(s, Try(b, ids[a]));
      if r.Finished? then r else Outcome(s, b, ids, a + 1)
  }

  lemma NextOutcome(s: Store, b: Batch, ids: seq<seq<Id>>, a: nat, tried: Attempted)
    requires IdsFor(b, ids) && a < ATTEMPTS && tried == BatchChecks.Attempt(s, Try(b, ids[a]))
    ensures Outcome(s, b, ids, a) == if tried.Finished? then tried else Outcome(s, b, ids, a + 1)
  {
  }

  /** With canonical keys, plain values and no other writer the first attempt is the answer. */
  lemma FirstAttemptCommits(s: Store, b: Batch, ids: seq<seq<Id>>)
    requires IdsFor(b, ids) && Callable(s, Try(b, ids[0]))
    ensures Outcome(s, b, ids, 0).Finished? && Outcome(s, b, ids, 0) == BatchChecks.Attempt(s, Try(b, ids[0]))
  {
    ValidationIsComplete(s, Try(b, ids[0]));
  }

  ghost function DeletedResult(s: Store, b: Batch, i: nat): ItemResult
    requires i < |b.items|
  {
    var k := KeyText(b.items[i], b.key);
    match KeyError(b.key, b.items, i)
    case Some(e) => Failed(i, k, e)
    case None =>
      match Lookup(s, b.key, k)
      case Some(c) => ItemResult(i, KeyOption(k), Some(c), false, [], None)
      case None => Failed(i, k, ItemError(NOT_FOUND, None))
  }

  ghost function DeletedResults(s: Store, b: Batch, n: nat): (r: seq<ItemResult>)
    requires n <= |b.items|
    ensures |r| == n
  {
    Tabulated(n, (i: nat) requires i < |b.items| => DeletedResult(s, b, i))
  }

  /** The results with that of the next item. */
  lemma DeletedMore(s: Store, b: Batch, i: nat)
    requires i < |b.items|
    ensures DeletedResults(s, b, i + 1) == DeletedResults(s, b, i) + [DeletedResult(s, b, i)]
  {
  }

  /** The contacts named by results. */
  function IdsOf(results: seq<ItemResult>): seq<Id> {
    if results == [] then []
    else
      var r := results[|results| - 1];
      IdsOf(results[..|results| - 1]) + (if r.id.Some? then [r.id.value] else [])
  }

  ghost function DeletedIds(s: Store, b: Batch, n: nat): seq<Id>
    requires n <= |b.items|
  {
    IdsOf(DeletedResults(s, b, n))
  }

  /** Some item is answered with contact `c`. */
  ghost predicate AnsweredWith(results: seq<ItemResult>, c: Id) {
    exists i :: 0 <= i < |results| && results[i].id == Some(c)
  }

  lemma AnsweredWithNext(results: seq<ItemResult>, r: ItemResult, c: Id)
    ensures AnsweredWith(results + [r], c) <==> AnsweredWith(results, c) || r.id == Some(c)
  {
    if i :| 0 <= i < |results| && results[i].id == Some(c) {
      assert (results + [r])[i] == results[i];
    }
    if r.id == Some(c) {
      assert (results + [r])[|results|] == r;
    }
  }

  lemma {:induction false} IdsOfHas(results: seq<ItemResult>, c: Id)
    ensures c in IdsOf(results) <==> AnsweredWith(results, c)
  {
    if results != [] {
      var n := |results| - 1;
      assert results == results[..n] + [results[n]];
      IdsOfHas(results[..n], c);
      AnsweredWithNext(results[..n], results[n], c);
    }
  }

  lemma DeletedIdsHas(s: Store, b: Batch, n: nat, c: Id)
    requires n <= |b.items|
    ensures c in DeletedIds(s, b, n) <==> AnsweredWith(DeletedResults(s, b, n), c)
  {
    IdsOfHas(DeletedResults(s, b, n), c);
  }

  /** A delete call leaves exactly the live contacts it does not answer with, and consistent tables. */
  lemma DeleteIsExact(s: Store, b: Batch, c: Id)
    requires Consistent(s)
    ensures var t := TenantOps.SoftDelete(s, DeletedIds(s, b, |b.items|));
      && Consistent(t)
      && (Live(t.contacts, c) <==> Live(s.contacts, c) && !AnsweredWith(DeletedResults(s, b, |b.items|), c))
  {
    DeletedIdsHas(s, b, |b.items|, c);
    SoftDeleteKeepsConsistent(s, DeletedIds(s, b, |b.items|));
  }

  ghost predicate Finds(s: Store, key: Key, found: map<string, Id>, v: string) {
    Lookup(s, key, v) == if v in found then Some(found[v]) else None
  }

  /** `found` holds the contact of each value that has one. */
  ghost predicate Resolves(s: Store, key: Key, values: seq<string>, found: map<string, Id>) {
    forall v :: v in values ==> Finds(s, key, found, v)
  }

  /** Item `i` is screened: failed, or its fields and key are known. */
  ghost predicate IsScreened(
      defs: map<nat, FieldDef>, b: Batch, i: nat, r: ItemResult, fields: FieldSet, keys: seq<string>)
    requires i < |b.items|
  {
    && r == ScreenedResult(defs, b, i)
    && (r.error.None? ==> Screened(defs, b.key, b.items, i) == Ok(fields) && KeyText(b.items[i], b.key) in keys)
  }

  ghost predicate AllScreened(
      defs: map<nat, FieldDef>, b: Batch, n: nat, results: seq<ItemResult>, sets: seq<FieldSet>, keys: seq<string>)
    requires n <= |b.items| && n <= |results| && n <= |sets|
  {
    n > 0 ==>
      AllScreened(defs, b, n - 1, results, sets, keys) && IsScreened(defs, b, n - 1, results[n - 1], sets[n - 1], keys)
  }

  lemma {:induction false} ScreenedAt(
    defs: map<nat, FieldDef>, b: Batch, n: nat, results: seq<ItemResult>, sets: seq<FieldSet>, keys: seq<string>,
      i: nat)
    requires i < n <= |b.items| && n <= |results| && n <= |sets| && AllScreened(defs, b, n, results, sets, keys)
    ensures IsScreened(defs, b, i, results[i], sets[i], keys)
  {
    if i < n - 1 {
      ScreenedAt(defs, b, n - 1, results, sets, keys, i);
    }
  }

  lemma {:induction false} MoreKeys(
    defs: map<nat, FieldDef>, b: Batch, n: nat, results: seq<ItemResult>, sets: seq<FieldSet>, keys: seq<string>,
    r: ItemResult, fields: FieldSet, more: seq<string>)
    requires n <= |b.items| && n <= |results| && n <= |sets| && AllScreened(defs, b, n, results, sets, keys)
    requires forall k :: k in keys ==> k in more
    ensures AllScreened(defs, b, n, results + [r], sets + [fields], more)
  {
    if n > 0 {
      MoreKeys(defs, b, n - 1, results, sets, keys, r, fields, more);
    }
  }

  lemma StillScreened(
    defs: map<nat, FieldDef>, b: Batch, i: nat, results: seq<ItemResult>, sets: seq<FieldSet>, keys: seq<string>,
    r: ItemResult, fields: FieldSet, more: seq<string>)
    requires i < |b.items| && |results| == |sets| == i && AllScreened(defs, b, i, results, sets, keys)
    requires r == ScreenedResult(defs, b, i) && (r.error.None? ==> Screened(defs, b.key, b.items, i) == Ok(fields))
    requires more == if r.error.None? then keys + [KeyText(b.items[i], b.key)] else keys
    ensures AllScreened(defs, b, i + 1, results + [r], sets + [fields], more)
  {
    MoreKeys(defs, b, i, results, sets, keys, r, fields, more);
    assert KeyText(b.items[i], b.key) in keys + [KeyText(b.items[i], b.key)];
  }

  ghost function PlacedResults(s: Store, defs: map<nat, FieldDef>, b: Batch, n: nat): (r: seq<ItemResult>)
    requires n <= |b.items|
    ensures |r| == n
  {
    Tabulated(n, (i: nat) requires i < |b.items| => PlacedResult(s, defs, b, i))
  }

  lemma PlacedAt(s: Store, defs: map<nat, FieldDef>, b: Batch, n: nat, i: nat)
    requires i < n <= |b.items|
    ensures PlacedResults(s, defs, b, n)[i] == PlacedResult(s, defs, b, i)
  {
    TabulatedAt(n, (i: nat) requires i < |b.items| => PlacedResult(s, defs, b, i), i);
  }

  /** The results with those of the next item. */
  lemma PlacedMore(s: Store, defs: map<nat, FieldDef>, b: Batch, i: nat)
    requires i < |b.items|
    ensures PlacedResults(s, defs, b, i + 1) == PlacedResults(s, defs, b, i) + [PlacedResult(s, defs, b, i)]
  {
  }

  lemma PlacedNext(
      s: Store, defs: map<nat, FieldDef>, b: Batch, i: nat, r: ItemResult, fields: FieldSet, keys: seq<string>)
    requires i < |b.items| && IsScreened(defs, b, i, r, fields, keys)
    ensures r.error.None? ==> KeyText(b.items[i], b.key) in keys && Resolved(s, defs, b, i) == Placed(s, b, i, fields)
    ensures r.error.Some? ==> Resolved(s, defs, b, i).Err? && PlacedResult(s, defs, b, i) == r
  {
  }

  function PlacedAs(b: Batch, i: nat, placed: Result<Pending, ItemError>): ItemResult
    requires i < |b.items|
  {
    var k := KeyText(b.items[i], b.key);
    match placed
    case Err(e) => Failed(i, k, e)
    case Ok(p) => ItemResult(i, KeyOption(k), Some(p.id), p.created, [], None)
  }

  /** The result of item `i` once it has its contact. */
  ghost function PlacedResult(s: Store, defs: map<nat, FieldDef>, b: Batch, i: nat): ItemResult
    requires i < |b.items|
  {
    PlacedAs(b, i, Resolved(s, defs, b, i))
  }

  /** The result of item `i` once unique values are checked and the changes known. */
  function SettledResult(
      contacts: map<Id, Contact>, pending: seq<Pending>, errors: seq<Option<ItemError>>, placed: seq<ItemResult>,
      i: nat): ItemResult
    requires |errors| == |pending| && i < |placed|
  {
    var j := Position(pending, i);
    if j == |pending| then placed[i]
    else if errors[j].Some? then Failed(i, pending[j].key, errors[j].value) else Succeeded(contacts, pending[j])
  }

  lemma PositionGrows(pending: seq<Pending>, j: nat)
    requires j < |pending|
    requires forall i, k :: 0 <= i < k < |pending| ==> pending[i].index < pending[k].index
    ensures forall i :: i != pending[j].index ==>
      Position(pending[..j + 1], i) == if Position(pending[..j], i) < j then Position(pending[..j], i) else j + 1
    ensures Position(pending[..j + 1], pending[j].index) == j
  {
    assert pending[..j + 1][..j] == pending[..j];
  }

  lemma SettledAre(
      s: Store, b: Batch, pending: seq<Pending>, errors: seq<Option<ItemError>>, placed: seq<ItemResult>,
      results: seq<ItemResult>)
    requires var defs := LiveFields(s.fields);
      && pending == Candidates(s, defs, b, |b.items|) && errors == AfterFields(s, defs, b.key, pending, s.nextField)
      && |placed| == |results| == |b.items|
      && placed == PlacedResults(s, defs, b, |b.items|)
      && (forall i :: 0 <= i < |placed| ==> results[i] == SettledResult(s.contacts, pending, errors, placed, i))
    ensures results == Results(s, LiveFields(s.fields), b, s.nextField)
  {
    forall i | 0 <= i < |results| ensures results[i] == Verdict(s, LiveFields(s.fields), b, s.nextField, i) {
      PlacedAt(s, LiveFields(s.fields), b, |b.items|, i);
      SettledIs(s, b, pending, errors, placed, i);
    }
  }

  lemma SettledIs(
      s: Store, b: Batch, pending: seq<Pending>, errors: seq<Option<ItemError>>, placed: seq<ItemResult>, i: nat)
    requires i < |b.items| == |placed|
    requires pending == Candidates(s, LiveFields(s.fields), b, |b.items|)
    requires errors == AfterFields(s, LiveFields(s.fields), b.key, pending, s.nextField)
    requires placed[i] == PlacedResult(s, LiveFields(s.fields), b, i)
    ensures SettledResult(s.contacts, pending, errors, placed, i) == Verdict(s, LiveFields(s.fields), b, s.nextField, i)
  {
    var found := Resolved(s, LiveFields(s.fields), b, i);
    CandidatesAre(s, b, |b.items|);
    if found.Ok? {
      ResolvedIs(s, b, i);
      var j := CandidateListed(s, b, |b.items|, found.value);
      PositionOf(pending, j);
    } else if Position(pending, i) < |pending| {
      CandidateResolved(s, b, |b.items|, Position(pending, i));
    }
  }

  lemma CandidateResolved(s: Store, b: Batch, n: nat, j: nat)
    requires n <= |b.items| && j < |Candidates(s, LiveFields(s.fields), b, n)|
    ensures var p := Candidates(s, LiveFields(s.fields), b, n)[j];
      p.index < n && Resolved(s, LiveFields(s.fields), b, p.index) == Ok(p)
  {
    ResolvedAtIndex(s, b, n);
    CollectedAre(AllResolved(s, LiveFields(s.fields), b, n));
  }

  /** The key column of a contact for `id`, email or external ID. */
  function KeyColumn(contacts: map<Id, Contact>, key: Key, c: Id): Option<string>
    requires c in contacts
  {
    match key
    case IdKey => Some(c)
    case FieldKey(f) => Column(contacts[c].data, f)
    case OtherKey(_) => None
  }

  /** The row of contact `c`, if its key was asked for, has been fetched. */
  ghost predicate Fetched(contacts: map<Id, Contact>, key: Key, keys: set<string>, c: Id, rows: map<string, Id>)
    requires c in contacts
  {
    var k := KeyColumn(contacts, key, c);
    k.Some? && k.value in keys ==> k.value in rows
  }
}
