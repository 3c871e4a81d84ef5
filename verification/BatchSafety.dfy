/**
 Validation is complete: a batch that passed every check commits at the first attempt, because the
 unique values its items claim belong to nobody else, in the tables or in the batch.
 */
module BatchSafety {
  import opened Wrappers
  import opened Text
  import opened FieldValues
  import opened Tables
  import opened BatchCommit
  import opened CommitInvariant
  import opened KeyResolver
  import opened BatchChecks

  // ---- claims

  /** The item's contact exists, or its ID is unused. */
  ghost predicate Located(s: Store, p: Pending) {
    if p.created then Unused(s, p.id) else Live(s.contacts, p.id)
  }

  /** What the item sends to the indexed columns is read alike by service and database. */
  ghost predicate PlainFields(p: Pending) {
    forall f :: IsColumn(f) && Sent(p.fields, f).Some? && Sent(p.fields, f).value.Some? ==>
      Plain(f, Str(Sent(p.fields, f).value.value))
  }

  ghost predicate KnownFields(s: Store, p: Pending) {
    NoSignedConsent(p) && forall f :: Sent(p.fields, f).Some? ==> f in LiveFields(s.fields)
  }

  /** Every unique value the item claims is free or its own. */
  ghost predicate ClaimsFree(s: Store, p: Pending) {
    forall f :: UniqueField(s, f) && Claim(p, f).Some? ==>
      Lookup(s, FieldKey(f), Claim(p, f).value) in {None, Some(p.id)}
  }

  /** Two items neither write the same contact nor claim the same value. */
  ghost predicate Apart(s: Store, p: Pending, q: Pending) {
    && p.id != q.id
    && forall f :: UniqueField(s, f) && Claim(p, f).Some? && Claim(q, f).Some? ==>
         JsNorm(f, Claim(p, f).value) != JsNorm(f, Claim(q, f).value)
  }

  ghost predicate Fit(s: Store, p: Pending) {
    Located(s, p) && PlainFields(p) && KnownFields(s, p) && ClaimsFree(s, p)
  }

  /** What validation establishes for the items it lets through. */
  ghost predicate Sound(s: Store, ps: seq<Pending>) {
    && (forall i :: 0 <= i < |ps| ==> Fit(s, ps[i]))
    && (forall i, j :: 0 <= i < j < |ps| ==> Apart(s, ps[i], ps[j]))
  }

  // ---- holders of a unique value, before and during the write

  /** Contact `c` had, or one of the items gives it, the normalized unique text `t` of field `f`. */
  ghost predicate Holds(s: Store, ps: seq<Pending>, c: Id, f: nat, t: string) {
    || (Live(s.contacts, c) && UniqueText(s.contacts[c].data, f) == Some(t))
    || (exists p :: p in ps && p.id == c && Claim(p, f).Some? && JsNorm(f, Claim(p, f).value) == t)
  }

  /** No unique text has two holders. */
  lemma OneHolder(s: Store, ps: seq<Pending>, a: Id, b: Id, f: nat, t: string)
    requires Consistent(s) && Sound(s, ps) && UniqueField(s, f)
    requires Holds(s, ps, a, f, t) && Holds(s, ps, b, f, t)
    ensures a == b
  {
    if Live(s.contacts, a) && UniqueText(s.contacts[a].data, f) == Some(t) {
      HolderIsOwner(s, ps, a, b, f, t);
    } else if Live(s.contacts, b) && UniqueText(s.contacts[b].data, f) == Some(t) {
      HolderIsOwner(s, ps, b, a, f, t);
    } else {
      var i :| 0 <= i < |ps| && ps[i].id == a && Claim(ps[i], f).Some? && JsNorm(f, Claim(ps[i], f).value) == t;
      var j :| 0 <= j < |ps| && ps[j].id == b && Claim(ps[j], f).Some? && JsNorm(f, Claim(ps[j], f).value) == t;
      assert i < j ==> Apart(s, ps[i], ps[j]);
      assert j < i ==> Apart(s, ps[j], ps[i]);
    }
  }

  lemma OneOwner(s: Store, a: Id, b: Id, f: nat, t: string)
    requires Consistent(s) && UniqueField(s, f)
    requires Live(s.contacts, a) && UniqueText(s.contacts[a].data, f) == Some(t)
    requires Live(s.contacts, b) && UniqueText(s.contacts[b].data, f) == Some(t)
    ensures a == b
  {
    if !IsColumn(f) {
      assert Synced(s.fields, f);
      assert s.uniq[(f, t)] == a;
    }
  }

  lemma ClaimOfOwner(s: Store, p: Pending, owner: Id, f: nat, t: string)
    requires Consistent(s) && Fit(s, p) && UniqueField(s, f)
    requires Live(s.contacts, owner) && UniqueText(s.contacts[owner].data, f) == Some(t)
    requires Claim(p, f).Some? && JsNorm(f, Claim(p, f).value) == t
    ensures p.id == owner
  {
    LookupIsScan(s, f, Claim(p, f).value, owner);
  }

  lemma HolderIsOwner(s: Store, ps: seq<Pending>, owner: Id, c: Id, f: nat, t: string)
    requires Consistent(s) && Sound(s, ps) && UniqueField(s, f)
    requires Live(s.contacts, owner) && UniqueText(s.contacts[owner].data, f) == Some(t)
    requires Holds(s, ps, c, f, t)
    ensures c == owner
  {
    if Live(s.contacts, c) && UniqueText(s.contacts[c].data, f) == Some(t) {
      OneOwner(s, c, owner, f, t);
    } else {
      var i :| 0 <= i < |ps| && ps[i].id == c && Claim(ps[i], f).Some? && JsNorm(f, Claim(ps[i], f).value) == t;
      ClaimOfOwner(s, ps[i], owner, f, t);
    }
  }

  /** A written row holds only what it had or what its item claims. */
  lemma WrittenHolds(s: Store, ps: seq<Pending>, p: Pending, f: nat, t: string)
    requires Consistent(s) && Sound(s, ps) && p in ps && UniqueField(s, f)
    requires UniqueText(Merge(Prior(s.contacts, p), p.fields), f) == Some(t)
    ensures Holds(s, ps, p.id, f, t)
  {
    var i :| 0 <= i < |ps| && ps[i] == p;
    assert Fit(s, ps[i]);
    var prior := Prior(s.contacts, p);
    var after := Merge(prior, p.fields);
    MergeAt(prior, p.fields, f);
    var v := Sent(p.fields, f);
    if v.Some? && v.value.Some? {
      assert after[f] == Stored(v.value.value) && Str(after[f]) == Str(v.value.value);
      if Claim(p, f).Some? {
        NonBlankNorm(f, Claim(p, f).value);
      }
    } else if v.None? {
      assert UniqueText(prior, f) == Some(t);
    }
  }

  // ---- rows

  ghost predicate From(s: Store, ps: seq<Pending>, source: string, c: Change) {
    exists p :: p in ps && c == ChangeOf(Prior(s.contacts, p), p.created, p, source)
  }

  ghost predicate AllFrom(s: Store, ps: seq<Pending>, source: string, changes: seq<Change>) {
    && (forall i :: 0 <= i < |changes| ==> From(s, ps, source, changes[i]))
    && (forall i :: 0 <= i < |changes| ==> (changes[i].created <==> changes[i].contact !in s.contacts))
    && (forall i :: 0 <= i < |changes| && !changes[i].created ==> Live(s.contacts, changes[i].contact))
    && DistinctContacts(changes)
  }

  /** Every live row during the write holds only what `Holds` allows. */
  lemma {:induction false} RowsHold(
      s: Store, ps: seq<Pending>, source: string, changes: seq<Change>, c: Id, f: nat, t: string)
    requires Consistent(s) && Sound(s, ps) && UniqueField(s, f)
    requires AllFrom(s, ps, source, changes) && PutRows(s.contacts, changes).Some?
    requires var rows := PutRows(s.contacts, changes).value; Live(rows, c) && UniqueText(rows[c].data, f) == Some(t)
    ensures Holds(s, ps, c, f, t)
  {
    if i :| 0 <= i < |changes| && changes[i].contact == c {
      RowWritten(s.contacts, changes, i);
      var p :| p in ps && changes[i] == ChangeOf(Prior(s.contacts, p), p.created, p, source);
      WrittenHolds(s, ps, p, f, t);
    } else {
      RowKept(s.contacts, changes, c);
    }
  }

  lemma {:induction false} RowsSucceed(s: Store, ps: seq<Pending>, source: string, changes: seq<Change>)
    requires Consistent(s) && Sound(s, ps) && AllFrom(s, ps, source, changes)
    ensures PutRows(s.contacts, changes).Some?
  {
    if changes != [] {
      var n := |changes| - 1;
      var c := changes[n];
      RowsSucceed(s, ps, source, changes[..n]);
      var rows := PutRows(s.contacts, changes[..n]).value;
      forall o, f | o in rows && o != c.contact && !rows[o].deleted && f in {EMAIL, EXTERNAL_ID}
        && Column(c.after, f).Some?
        ensures Column(rows[o].data, f) != Column(c.after, f)
      {
        if Column(rows[o].data, f) == Column(c.after, f) {
          var t := Column(c.after, f).value;
          RowsHold(s, ps, source, changes[..n], o, f, t);
          var p :| p in ps && c == ChangeOf(Prior(s.contacts, p), p.created, p, source);
          WrittenHolds(s, ps, p, f, t);
          OneHolder(s, ps, o, c.contact, f, t);
        }
      }
      assert !Names(changes[..n], c.contact);
      RowKept(s.contacts, changes[..n], c.contact);
    }
  }

  // ---- unique_values

  ghost predicate DistinctKeysOf(values: seq<((nat, string), Id)>) {
    forall i, j :: 0 <= i < j < |values| ==> values[i].0 != values[j].0
  }

  lemma {:induction false} InsertAllSucceeds(uniq: map<(nat, string), Id>, values: seq<((nat, string), Id)>)
    requires DistinctKeysOf(values)
    requires forall i :: 0 <= i < |values| ==> values[i].0 !in uniq
    ensures InsertAll(uniq, values).Some?
  {
    if values != [] {
      var n := |values| - 1;
      InsertAllSucceeds(uniq, values[..n]);
      InsertAllAt(uniq, values[..n]);
    }
  }

  lemma {:induction false} ValuesByDistinct(defs: map<nat, FieldDef>, c: Change, fs: seq<nat>)
    requires Distinct(fs)
    ensures DistinctKeysOf(ValuesBy(defs, c, fs))
  {
    if fs != [] {
      var n := |fs| - 1;
      ValuesByDistinct(defs, c, fs[..n]);
      var head := ValuesBy(defs, c, fs[..n]);
      forall i | 0 <= i < |head| ensures head[i].0.0 != fs[n] {
        ValuesByHas(defs, c, fs[..n], head[i].0, head[i].1);
      }
    }
  }

  ghost predicate AskedByOne(defs: map<nat, FieldDef>, changes: seq<Change>) {
    forall k, a, b :: SomeAsks(changes, a, k) && SomeAsks(changes, b, k) && Synced(defs, k.0) ==> a == b
  }

  lemma {:induction false} ValuesDistinct(defs: map<nat, FieldDef>, changes: seq<Change>)
    requires DistinctContacts(changes) && AskedByOne(defs, changes)
    requires forall i :: 0 <= i < |changes| ==> Distinct(changes[i].changed)
    ensures DistinctKeysOf(Values(defs, changes))
  {
    if changes != [] {
      var n := |changes| - 1;
      var c := changes[n];
      forall k, a | SomeAsks(changes[..n], a, k) ensures SomeAsks(changes, a, k) {
        var i :| 0 <= i < n && Asks(changes[..n][i], a, k);
        assert Asks(changes[i], a, k);
      }
      ValuesDistinct(defs, changes[..n]);
      ValuesByDistinct(defs, c, c.changed);
      var head, tail := Values(defs, changes[..n]), ValuesBy(defs, c, c.changed);
      forall i, j | 0 <= i < |head| && 0 <= j < |tail| ensures head[i].0 != tail[j].0 {
        AskedEarlier(defs, changes, n, head[i].0, head[i].1, tail[j].1);
      }
    }
  }

  /** The last change cannot ask for a value an earlier change asks for. */
  lemma AskedEarlier(defs: map<nat, FieldDef>, changes: seq<Change>, n: nat, k: (nat, string), a: Id, b: Id)
    requires DistinctContacts(changes) && AskedByOne(defs, changes) && |changes| == n + 1
    requires (k, a) in Values(defs, changes[..n])
    ensures (k, b) !in ValuesBy(defs, changes[n], changes[n].changed)
  {
    ValuesHas(defs, changes[..n], k, a);
    var m :| 0 <= m < n && Asks(changes[..n][m], a, k);
    assert Asks(changes[m], a, k);
    if (k, b) in ValuesBy(defs, changes[n], changes[n].changed) {
      ValuesByHas(defs, changes[n], changes[n].changed, k, b);
      assert Asks(changes[n], b, k);
      assert SomeAsks(changes, a, k) && SomeAsks(changes, b, k);
      assert false;
    }
  }

  lemma SyncSucceeds(s: Store, ps: seq<Pending>, source: string, changes: seq<Change>)
    requires Consistent(s) && Sound(s, ps) && AllFrom(s, ps, source, changes)
    requires forall i :: 0 <= i < |changes| ==> Distinct(changes[i].changed)
    ensures SyncUnique(s.uniq, LiveFields(s.fields), changes).Some?
  {
    var defs := LiveFields(s.fields);
    forall k, a | SomeAsks(changes, a, k) && Synced(defs, k.0) ensures Holds(s, ps, a, k.0, k.1) {
      var i :| 0 <= i < |changes| && Asks(changes[i], a, k);
      var p :| p in ps && changes[i] == ChangeOf(Prior(s.contacts, p), p.created, p, source);
      WrittenHolds(s, ps, p, k.0, k.1);
    }
    forall k, a, b | SomeAsks(changes, a, k) && SomeAsks(changes, b, k) && Synced(defs, k.0) ensures a == b {
      OneHolder(s, ps, a, b, k.0, k.1);
    }
    assert AskedByOne(defs, changes);
    ValuesDistinct(defs, changes);
    var base := Without(s.uniq, Cleared(defs, changes));
    var values := Values(defs, changes);
    forall i | 0 <= i < |values| ensures values[i].0 !in base {
      var (k, a) := values[i];
      assert (k, a) in values;
      ValuesHas(defs, changes, k, a);
      if k in base {
        OneHolder(s, ps, s.uniq[k], a, k.0, k.1);
        ClearedHas(defs, changes, a, k.0);
      }
    }
    InsertAllSucceeds(base, values);
  }

  // ---- the transaction

  lemma UpdateChangesFrom(s: Store, ps: seq<Pending>, source: string)
    requires RowsFound(s.contacts, ps)
    ensures var cs := UpdateChanges(s.contacts, ps, source);
      && DistinctContacts(cs)
      && forall i :: 0 <= i < |cs| ==>
        && HasId(ps, cs[i].contact) && !cs[i].created && Live(s.contacts, cs[i].contact)
        && exists j :: 0 <= j < |ps| && cs[i] == ChangeOf(s.contacts[ps[j].id].data, false, ps[j], source)
  {
    if ps != [] {
      var n := |ps| - 1;
      UpdateChangesFrom(s, ps[..n], source);
      forall c | HasId(ps[..n], c) ensures HasId(ps, c) && c != ps[n].id {
        var j :| 0 <= j < n && ps[..n][j].id == c;
        assert ps[j].id == c;
      }
    }
  }

  /** The items a batch writes, existing contacts first. */
  lemma BatchFrom(s: Store, ps: seq<Pending>, source: string)
    requires Sound(s, ps)
    ensures RowsFound(s.contacts, Existing(ps))
    ensures AllFrom(s, ps, source, BatchChanges(s.contacts, ps, source))
  {
    var updates := Existing(ps);
    ExistingSound(s, ps);
    UpdateChangesFrom(s, updates, source);
    forall i | 0 <= i < |updates| ensures updates[i] in ps && !updates[i].created {
      ExistingHas(ps, updates[i]);
    }
    InsertChangesFrom(s, ps, source);
    assert AllFrom(s, ps, source, UpdateChanges(s.contacts, updates, source));
  }

  lemma InsertChangesFrom(s: Store, ps: seq<Pending>, source: string)
    requires Sound(s, New(ps))
    ensures AllFrom(s, ps, source, InsertChanges(New(ps), source))
    ensures forall i :: 0 <= i < |New(ps)| ==> New(ps)[i].id !in s.contacts
  {
    var news := New(ps);
    forall i | 0 <= i < |news| ensures news[i] in ps && news[i].created && Unused(s, news[i].id) {
      NewHas(ps, news[i]);
      assert Fit(s, news[i]);
    }
    forall i, j | 0 <= i < j < |news| ensures news[i].id != news[j].id {
      assert Apart(s, news[i], news[j]);
    }
  }

  lemma ExistingSound(s: Store, ps: seq<Pending>)
    requires Sound(s, ps)
    ensures Sound(s, Existing(ps)) && Sound(s, New(ps))
    ensures RowsFound(s.contacts, Existing(ps))
  {
    if ps != [] {
      var n := |ps| - 1;
      ExistingSound(s, ps[..n]);
      forall p | p in ps[..n] ensures Apart(s, p, ps[n]) {
      }
      forall i | 0 <= i < |Existing(ps[..n])| ensures Apart(s, Existing(ps[..n])[i], ps[n]) {
        ExistingHas(ps[..n], Existing(ps[..n])[i]);
      }
      forall i | 0 <= i < |New(ps[..n])| ensures Apart(s, New(ps[..n])[i], ps[n]) {
        NewHas(ps[..n], New(ps[..n])[i]);
      }
    }
    forall i | 0 <= i < |Existing(ps)| ensures !Existing(ps)[i].created {
      ExistingHas(ps, Existing(ps)[i]);
    }
  }

  /** A batch whose items are sound meets no conflict. */
  lemma SoundCommits(s: Store, ps: seq<Pending>, source: string, explicit: Option<ConsentInput>)
    requires Consistent(s) && Sound(s, ps)
    ensures Commit(s, LiveFields(s.fields), ps, source, explicit).Some?
  {
    BatchFrom(s, ps, source);
    var changes := BatchChanges(s.contacts, ps, source);
    RowsSucceed(s, ps, source, changes);
    forall i | 0 <= i < |changes| ensures Distinct(changes[i].changed) {
      var p :| p in ps && changes[i] == ChangeOf(Prior(s.contacts, p), p.created, p, source);
      ChangedDistinct(changes[i].before, changes[i].after, p.fields);
    }
    SyncSucceeds(s, ps, source, changes);
  }
}
