/**
 What a committed write transaction keeps, whatever its validation saw: the batch may have been
 checked against tables that other transactions have since changed.
 */
module CommitInvariant {
  import opened Wrappers
  import opened Text
  import opened FieldValues
  import opened Tables
  import opened BatchCommit

  // ---- changes

  ghost predicate GoodChange(s: Store, defs: map<nat, FieldDef>, c: Change) {
    && (c.created ==> c.before == map[] && Unused(s, c.contact))
    && (!c.created ==> Live(s.contacts, c.contact) && c.before == s.contacts[c.contact].data)
    && (forall f :: At(c.before, f) != At(c.after, f) ==> f in c.changed)
    && (forall ch :: ConsentField(ch) in c.changed ==> At(c.before, ConsentField(ch)) != At(c.after, ConsentField(ch)))
    && (forall f :: f in c.changed ==> f in s.fields)
    && Distinct(c.changed)
    && c.after.Keys <= s.fields.Keys
    && (forall f :: f in c.changed && Synced(s.fields, f) ==> Synced(defs, f))
  }

  ghost predicate GoodChanges(s: Store, defs: map<nat, FieldDef>, changes: seq<Change>) {
    forall i :: 0 <= i < |changes| ==> GoodChange(s, defs, changes[i])
  }

  ghost predicate DistinctContacts(changes: seq<Change>) {
    forall i, j :: 0 <= i < j < |changes| ==> changes[i].contact != changes[j].contact
  }

  ghost predicate Names(changes: seq<Change>, c: Id) {
    exists i :: 0 <= i < |changes| && changes[i].contact == c
  }

  /** Consents are options of a field, which are never a negative zero. */
  ghost predicate NoSignedConsent(p: Pending) {
    forall ch :: Sent(p.fields, ConsentField(ch)) != Some(Some(MinusZero))
  }

  /**
   The fields an item sends are known, and unique ones were known as such; IDs of new contacts are
   unused. Definitions read before a field was deleted satisfy this too.
   */
  ghost predicate Ready(s: Store, defs: map<nat, FieldDef>, p: Pending) {
    && (p.created ==> Unused(s, p.id))
    && NoSignedConsent(p)
    && forall f :: Sent(p.fields, f).Some? ==> f in s.fields && (Synced(s.fields, f) ==> Synced(defs, f))
  }

  lemma ChangeIsGood(s: Store, defs: map<nat, FieldDef>, p: Pending, source: string)
    requires References(s) && Ready(s, defs, p)
    requires !p.created ==> Live(s.contacts, p.id)
    ensures GoodChange(s, defs, ChangeOf(if p.created then map[] else s.contacts[p.id].data, p.created, p, source))
  {
    var prior := if p.created then map[] else s.contacts[p.id].data;
    var c := ChangeOf(prior, p.created, p, source);
    forall f
      ensures At(prior, f) != At(c.after, f) ==> f in c.changed
      ensures f in c.changed ==>
        Sent(p.fields, f).Some? && (At(prior, f) != At(c.after, f) || Sent(p.fields, f).value == Some(MinusZero))
      ensures f in c.after ==> f in s.fields
    {
      ChangedHas(prior, c.after, p.fields, f);
      MergeAt(prior, p.fields, f);
    }
    ChangedDistinct(prior, c.after, p.fields);
  }

  lemma ExistingHas(ps: seq<Pending>, p: Pending)
    ensures p in Existing(ps) <==> p in ps && !p.created
  {
    if ps != [] {
      assert ps == ps[..|ps| - 1] + [ps[|ps| - 1]];
      ExistingHas(ps[..|ps| - 1], p);
    }
  }

  lemma NewHas(ps: seq<Pending>, p: Pending)
    ensures p in New(ps) <==> p in ps && p.created
  {
    if ps != [] {
      assert ps == ps[..|ps| - 1] + [ps[|ps| - 1]];
      NewHas(ps[..|ps| - 1], p);
    }
  }

  ghost predicate HasId(ps: seq<Pending>, c: Id) {
    exists i :: 0 <= i < |ps| && ps[i].id == c
  }

  lemma UpdateChangesGood(s: Store, defs: map<nat, FieldDef>, ps: seq<Pending>, source: string)
    requires References(s) && RowsFound(s.contacts, ps)
    requires forall i :: 0 <= i < |ps| ==> !ps[i].created && Ready(s, defs, ps[i])
    ensures var cs := UpdateChanges(s.contacts, ps, source);
      && GoodChanges(s, defs, cs)
      && DistinctContacts(cs)
      && (forall i :: 0 <= i < |cs| ==> !cs[i].created && HasId(ps, cs[i].contact))
  {
    if ps != [] {
      var n := |ps| - 1;
      UpdateChangesGood(s, defs, ps[..n], source);
      ChangeIsGood(s, defs, ps[n], source);
      forall c | HasId(ps[..n], c) ensures HasId(ps, c) && c != ps[n].id {
        var j :| 0 <= j < n && ps[..n][j].id == c;
        assert ps[j].id == c;
      }
    }
  }

  lemma BatchChangesGood(s: Store, defs: map<nat, FieldDef>, ps: seq<Pending>, source: string)
    requires References(s) && RowsFound(s.contacts, Existing(ps))
    requires forall i :: 0 <= i < |ps| ==> Ready(s, defs, ps[i])
    requires PutRows(s.contacts, BatchChanges(s.contacts, ps, source)).Some?
    ensures GoodChanges(s, defs, BatchChanges(s.contacts, ps, source))
    ensures DistinctContacts(BatchChanges(s.contacts, ps, source))
  {
    var updates, news := Existing(ps), New(ps);
    forall i | 0 <= i < |updates| ensures !updates[i].created && Ready(s, defs, updates[i]) {
      ExistingHas(ps, updates[i]);
    }
    forall i | 0 <= i < |news| ensures GoodChange(s, defs, ChangeOf(map[], true, news[i], source)) {
      NewHas(ps, news[i]);
      ChangeIsGood(s, defs, news[i], source);
    }
    UpdateChangesGood(s, defs, updates, source);
    PutRowsDistinct(s.contacts, BatchChanges(s.contacts, ps, source));
  }

  /** A new contact is refused an ID that an earlier row of the batch has. */
  lemma PutRowsDistinct(contacts: map<Id, Contact>, changes: seq<Change>)
    requires PutRows(contacts, changes).Some?
    requires forall i, j :: 0 <= i < j < |changes| && !changes[j].created ==> changes[i].contact != changes[j].contact
    ensures DistinctContacts(changes)
  {
    if changes != [] {
      PutRowsDistinct(contacts, changes[..|changes| - 1]);
      PutRowsHit(contacts, changes[..|changes| - 1]);
    }
  }

  // ---- rows

  /** Each changed contact has its new data and one version more; a new one starts at version 1. */
  lemma {:induction false} RowWritten(contacts: map<Id, Contact>, changes: seq<Change>, i: nat)
    requires PutRows(contacts, changes).Some? && DistinctContacts(changes) && i < |changes|
    ensures var c := changes[i]; var rows := PutRows(contacts, changes).value;
      && (c.created <==> c.contact !in contacts)
      && (!c.created ==> Live(contacts, c.contact))
      && c.contact in rows
      && rows[c.contact] == Contact(c.after, if c.created then 1 else contacts[c.contact].version + 1, false)
  {
    var n := |changes| - 1;
    if i < n {
      RowWritten(contacts, changes[..n], i);
    } else {
      RowKept(contacts, changes[..n], changes[n].contact);
    }
  }

  lemma {:induction false} RowKept(contacts: map<Id, Contact>, changes: seq<Change>, c: Id)
    requires PutRows(contacts, changes).Some? && !Names(changes, c)
    ensures var rows := PutRows(contacts, changes).value;
      (c in rows <==> c in contacts) && (c in rows ==> rows[c] == contacts[c])
  {
    if changes != [] {
      var n := |changes| - 1;
      assert !Names(changes[..n], c);
      assert changes[n].contact != c;
      RowKept(contacts, changes[..n], c);
    }
  }

  lemma PutRowUnique(contacts: map<Id, Contact>, c: Change)
    requires UniqueColumns(contacts) && PutRow(contacts, c).Some?
    ensures UniqueColumns(PutRow(contacts, c).value)
  {
    var rows := PutRow(contacts, c).value;
    forall a, b, f | Live(rows, a) && Live(rows, b) && a != b && IsColumn(f) && Column(rows[a].data, f).Some?
      ensures Column(rows[a].data, f) != Column(rows[b].data, f)
    {
      if a != c.contact && b != c.contact {
        assert Live(contacts, a) && Live(contacts, b);
      } else {
        var o := if a == c.contact then b else a;
        assert o in contacts && !contacts[o].deleted && f in {EMAIL, EXTERNAL_ID};
      }
    }
  }

  lemma {:induction false} PutRowsUnique(contacts: map<Id, Contact>, changes: seq<Change>)
    requires UniqueColumns(contacts) && PutRows(contacts, changes).Some?
    ensures UniqueColumns(PutRows(contacts, changes).value)
  {
    if changes != [] {
      var n := |changes| - 1;
      PutRowsUnique(contacts, changes[..n]);
      PutRowUnique(PutRows(contacts, changes[..n]).value, changes[n]);
    }
  }

  // ---- unique_values

  lemma {:induction false} InsertAllAt(uniq: map<(nat, string), Id>, values: seq<((nat, string), Id)>)
    requires InsertAll(uniq, values).Some?
    ensures var r := InsertAll(uniq, values).value;
      && (forall k :: k in uniq ==> k in r && r[k] == uniq[k])
      && (forall k :: k in r && k !in uniq ==> (k, r[k]) in values)
      && (forall v :: v in values ==> v.0 !in uniq && v.0 in r && r[v.0] == v.1)
  {
    if values != [] {
      var n := |values| - 1;
      assert values == values[..n] + [(values[n].0, values[n].1)];
      InsertAllAt(uniq, values[..n]);
    }
  }

  lemma {:induction false} ClearedByHas(defs: map<nat, FieldDef>, c: Change, fs: seq<nat>, x: Id, f: nat)
    ensures (x, f) in ClearedBy(defs, c, fs) <==> x == c.contact && f in fs && Synced(defs, f)
  {
    if fs != [] {
      assert fs == fs[..|fs| - 1] + [fs[|fs| - 1]];
      ClearedByHas(defs, c, fs[..|fs| - 1], x, f);
    }
  }

  lemma {:induction false} ClearedHas(defs: map<nat, FieldDef>, changes: seq<Change>, x: Id, f: nat)
    ensures (x, f) in Cleared(defs, changes) <==>
      && Synced(defs, f)
      && (exists i :: 0 <= i < |changes| && changes[i].contact == x && f in changes[i].changed)
  {
    if changes != [] {
      var n := |changes| - 1;
      ClearedHas(defs, changes[..n], x, f);
      ClearedByHas(defs, changes[n], changes[n].changed, x, f);
    }
  }

  lemma {:induction false} ValuesByHas(defs: map<nat, FieldDef>, c: Change, fs: seq<nat>, k: (nat, string), x: Id)
    ensures (k, x) in ValuesBy(defs, c, fs) <==>
      x == c.contact && k.0 in fs && Synced(defs, k.0) && Entry(c.after, k.0) == Some(k.1)
  {
    if fs != [] {
      assert fs == fs[..|fs| - 1] + [fs[|fs| - 1]];
      ValuesByHas(defs, c, fs[..|fs| - 1], k, x);
    }
  }

  /** The change gives contact `x` the unique value `k`. */
  ghost predicate Asks(c: Change, x: Id, k: (nat, string)) {
    c.contact == x && k.0 in c.changed && Entry(c.after, k.0) == Some(k.1)
  }

  ghost predicate SomeAsks(changes: seq<Change>, x: Id, k: (nat, string)) {
    exists i :: 0 <= i < |changes| && Asks(changes[i], x, k)
  }

  lemma {:induction false} ValuesHas(defs: map<nat, FieldDef>, changes: seq<Change>, k: (nat, string), x: Id)
    ensures (k, x) in Values(defs, changes) <==> Synced(defs, k.0) && SomeAsks(changes, x, k)
  {
    if changes != [] {
      var n := |changes| - 1;
      ValuesHas(defs, changes[..n], k, x);
      ValuesByHas(defs, changes[n], changes[n].changed, k, x);
      assert SomeAsks(changes, x, k) <==> SomeAsks(changes[..n], x, k) || Asks(changes[n], x, k) by {
        if i :| 0 <= i < n && Asks(changes[..n][i], x, k) { assert Asks(changes[i], x, k); }
        if i :| 0 <= i < |changes| && Asks(changes[i], x, k) { assert i < n ==> Asks(changes[..n][i], x, k); }
      }
    }
  }

  /** `unique_values` agrees with the rows again once the changed fields are cleared and reinserted. */
  lemma IndexKept(s: Store, r: Store, defs: map<nat, FieldDef>, changes: seq<Change>)
    requires IndexAgrees(s) && GoodChanges(s, defs, changes) && DistinctContacts(changes)
    requires r.fields == s.fields
    requires PutRows(s.contacts, changes) == Some(r.contacts) && SyncUnique(s.uniq, defs, changes) == Some(r.uniq)
    ensures IndexAgrees(r)
  {
    var base := Without(s.uniq, Cleared(defs, changes));
    InsertAllAt(base, Values(defs, changes));
    forall k | k in r.uniq && Synced(r.fields, k.0)
      ensures Live(r.contacts, r.uniq[k]) && Entry(r.contacts[r.uniq[k]].data, k.0) == Some(k.1)
    {
      var c := r.uniq[k];
      if k in base {
        ClearedHas(defs, changes, c, k.0);
        KeptField(s, r, defs, changes, c, k.0);
      } else {
        ValuesHas(defs, changes, k, c);
        var i :| 0 <= i < |changes| && Asks(changes[i], c, k);
        RowWritten(s.contacts, changes, i);
      }
    }
    forall c, f | Live(r.contacts, c) && Synced(r.fields, f) && Entry(r.contacts[c].data, f).Some?
      ensures var k := (f, Entry(r.contacts[c].data, f).value); k in r.uniq && r.uniq[k] == c
    {
      var k := (f, Entry(r.contacts[c].data, f).value);
      if i :| 0 <= i < |changes| && changes[i].contact == c && f in changes[i].changed {
        RowWritten(s.contacts, changes, i);
        ValuesHas(defs, changes, k, c);
        assert Asks(changes[i], c, k);
      } else {
        ClearedHas(defs, changes, c, f);
        KeptField(s, r, defs, changes, c, f);
        assert k in base;
      }
    }
  }

  /** A contact keeps a field no change of it names; if it has a value there it is not new. */
  lemma KeptField(s: Store, r: Store, defs: map<nat, FieldDef>, changes: seq<Change>, c: Id, f: nat)
    requires GoodChanges(s, defs, changes) && DistinctContacts(changes)
    requires PutRows(s.contacts, changes) == Some(r.contacts)
    requires forall i :: 0 <= i < |changes| && changes[i].contact == c ==> f !in changes[i].changed
    ensures Live(s.contacts, c) ==> Live(r.contacts, c)
    ensures Live(r.contacts, c) && f in r.contacts[c].data ==> Live(s.contacts, c)
    ensures Live(s.contacts, c) ==> At(r.contacts[c].data, f) == At(s.contacts[c].data, f)
  {
    if i :| 0 <= i < |changes| && changes[i].contact == c {
      RowWritten(s.contacts, changes, i);
      assert GoodChange(s, defs, changes[i]);
    } else {
      RowKept(s.contacts, changes, c);
    }
  }

  // ---- consents

  /** The consent entries of contact `x` and channel `ch` say `v` last and never say the same twice in a row. */
  ghost predicate Says(history: seq<Consent>, x: Id, ch: Channel, v: Option<Value>) {
    Replayed(history, x, ch) == v && Alternates(history, x, ch)
  }

  lemma SaysNext(history: seq<Consent>, row: Consent, x: Id, ch: Channel, v: Option<Value>)
    requires Says(history, x, ch, v)
    ensures (row.contact == x && row.channel == ch) && row.value != v ==> Says(history + [row], x, ch, row.value)
    ensures !(row.contact == x && row.channel == ch) ==> Says(history + [row], x, ch, v)
  {
    assert (history + [row])[..|history|] == history;
  }

  lemma {:induction false} SaysAfterRowsBy(
    history: seq<Consent>, c: Change, fs: seq<nat>, explicit: Option<ConsentInput>, x: Id, ch: Channel,
      v: Option<Value>)
    requires Distinct(fs) && Says(history, x, ch, v)
    requires x == c.contact && ConsentField(ch) in fs ==> At(c.after, ConsentField(ch)) != v
    ensures Says(history + ConsentRowsBy(c, fs, explicit), x, ch,
                 if x == c.contact && ConsentField(ch) in fs then At(c.after, ConsentField(ch)) else v)
  {
    if fs == [] {
      assert history + ConsentRowsBy(c, fs, explicit) == history;
    } else {
      var n := |fs| - 1;
      assert fs == fs[..n] + [fs[n]];
      SaysAfterRowsBy(history, c, fs[..n], explicit, x, ch, v);
      var last := ChannelOf(fs[n]);
      if last.Some? {
        var mid := if x == c.contact && ConsentField(ch) in fs[..n] then At(c.after, ConsentField(ch)) else v;
        SaysOneMore(history, ConsentRowsBy(c, fs[..n], explicit), ConsentRow(c, last.value, explicit), x, ch, mid);
      }
    }
  }

  lemma SaysOneMore(history: seq<Consent>, head: seq<Consent>, row: Consent, x: Id, ch: Channel, v: Option<Value>)
    requires Says(history + head, x, ch, v) && (row.contact == x && row.channel == ch ==> row.value != v)
    ensures Says(history + (head + [row]), x, ch, if row.contact == x && row.channel == ch then row.value else v)
  {
    assert history + (head + [row]) == (history + head) + [row];
    SaysNext(history + head, row, x, ch, v);
  }

  lemma {:induction false} ConsentRowsByName(c: Change, fs: seq<nat>, explicit: Option<ConsentInput>)
    ensures forall i :: 0 <= i < |ConsentRowsBy(c, fs, explicit)| ==>
      ConsentRowsBy(c, fs, explicit)[i].contact == c.contact
  {
    if fs != [] { ConsentRowsByName(c, fs[..|fs| - 1], explicit); }
  }

  /** What the hook makes the channel say: the new value if a change touched it, else what it said. */
  ghost function SaidAfter(changes: seq<Change>, x: Id, f: nat, v: Option<Value>): Option<Value> {
    if changes == [] then v
    else
      var c := changes[|changes| - 1];
      if c.contact == x && f in c.changed then At(c.after, f) else SaidAfter(changes[..|changes| - 1], x, f, v)
  }

  lemma {:induction false} SaidAfterIs(changes: seq<Change>, x: Id, f: nat, v: Option<Value>)
    requires DistinctContacts(changes)
    ensures !Names(changes, x) ==> SaidAfter(changes, x, f, v) == v
    ensures forall i :: 0 <= i < |changes| && changes[i].contact == x ==>
      SaidAfter(changes, x, f, v) == if f in changes[i].changed then At(changes[i].after, f) else v
  {
    if changes != [] {
      var n := |changes| - 1;
      SaidAfterIs(changes[..n], x, f, v);
      if changes[n].contact == x {
        assert !Names(changes[..n], x);
      } else if i :| 0 <= i < n && changes[i].contact == x {
        assert changes[..n][i].contact == x;
      }
    }
  }

  /** After the hook, each channel says what its contact now has. */
  lemma {:induction false} SaysAfterRows(
    history: seq<Consent>, changes: seq<Change>, explicit: Option<ConsentInput>, x: Id, ch: Channel, v: Option<Value>)
    requires DistinctContacts(changes) && Says(history, x, ch, v)
    requires forall i :: 0 <= i < |changes| ==> Distinct(changes[i].changed)
    requires forall i :: 0 <= i < |changes| && changes[i].contact == x && ConsentField(ch) in changes[i].changed ==>
      At(changes[i].after, ConsentField(ch)) != v
    ensures Says(history + ConsentRows(changes, explicit), x, ch, SaidAfter(changes, x, ConsentField(ch), v))
  {
    if changes == [] {
      assert history + ConsentRows(changes, explicit) == history;
    } else {
      var n := |changes| - 1;
      var c := changes[n];
      var head := history + ConsentRows(changes[..n], explicit);
      SaysAfterRows(history, changes[..n], explicit, x, ch, v);
      if c.contact == x {
        assert !Names(changes[..n], x);
        SaidAfterIs(changes[..n], x, ConsentField(ch), v);
      }
      SaysAfterRowsBy(head, c, c.changed, explicit, x, ch, SaidAfter(changes[..n], x, ConsentField(ch), v));
      assert history + ConsentRows(changes, explicit) == head + ConsentRowsBy(c, c.changed, explicit);
    }
  }

  lemma ConsentsKept(s: Store, r: Store, defs: map<nat, FieldDef>, changes: seq<Change>, explicit: Option<ConsentInput>)
    requires ConsentsReplay(s) && GoodChanges(s, defs, changes) && DistinctContacts(changes)
    requires PutRows(s.contacts, changes) == Some(r.contacts)
    requires r.consents == s.consents + ConsentRows(changes, explicit)
    ensures ConsentsReplay(r)
  {
    forall x, ch | x in r.contacts
      ensures Says(r.consents, x, ch, At(r.contacts[x].data, ConsentField(ch)))
    {
      var f := ConsentField(ch);
      var v := if x in s.contacts then At(s.contacts[x].data, f) else None;
      if x !in s.contacts {
        if i :| 0 <= i < |changes| && changes[i].contact == x {
          RowWritten(s.contacts, changes, i);
          assert GoodChange(s, defs, changes[i]);
          NoHistory(s.consents, x, ch);
        } else {
          RowKept(s.contacts, changes, x);
        }
      }
      forall i | 0 <= i < |changes| && changes[i].contact == x
        ensures v == At(changes[i].before, f) && (f in changes[i].changed <==> v != At(changes[i].after, f))
      {
        RowWritten(s.contacts, changes, i);
        assert GoodChange(s, defs, changes[i]);
      }
      SaysAfterRows(s.consents, changes, explicit, x, ch, v);
      SaidAfterIs(changes, x, f, v);
      if i :| 0 <= i < |changes| && changes[i].contact == x {
        RowWritten(s.contacts, changes, i);
      } else {
        RowKept(s.contacts, changes, x);
      }
    }
  }

  lemma {:induction false} NoHistory(history: seq<Consent>, c: Id, ch: Channel)
    requires forall i :: 0 <= i < |history| ==> history[i].contact != c
    ensures Replayed(history, c, ch) == None && Alternates(history, c, ch)
  {
    if history != [] { NoHistory(history[..|history| - 1], c, ch); }
  }

  // ---- snapshots

  ghost predicate NoSnapshot(events: seq<Event>, c: Id) {
    forall i :: 0 <= i < |events| && events[i].Upserted? ==> events[i].contact != c
  }

  lemma {:induction false} SnapshotKept(events: seq<Event>, more: seq<Event>, c: Id)
    requires NoSnapshot(more, c)
    ensures LastSnapshot(events + more, c) == LastSnapshot(events, c)
  {
    if more == [] {
      assert events + more == events;
    } else {
      var n := |more| - 1;
      assert (events + more)[..|events| + n] == events + more[..n];
      SnapshotKept(events, more[..n], c);
    }
  }

  lemma SnapshotReplaced(events: seq<Event>, more: seq<Event>, i: nat)
    requires i < |more| && more[i].Upserted? && NoSnapshot(more[i + 1..], more[i].contact)
    ensures LastSnapshot(events + more, more[i].contact) == Some(more[i])
  {
    var upTo := events + more[..i + 1];
    assert upTo[|upTo| - 1] == more[i];
    assert events + more == upTo + more[i + 1..];
    SnapshotKept(upTo, more[i + 1..], more[i].contact);
  }

  lemma SnapshotsKept(s: Store, r: Store, defs: map<nat, FieldDef>, changes: seq<Change>, rows: seq<Consent>)
    requires References(s) && SnapshotsFresh(s) && GoodChanges(s, defs, changes) && DistinctContacts(changes)
    requires PutRows(s.contacts, changes) == Some(r.contacts)
    requires forall i :: 0 <= i < |changes| ==> changes[i].contact in r.contacts
    requires r.fields == s.fields && r.members == s.members
    requires r.events == s.events + ConsentEvents(rows) + Snapshots(r.contacts, s.members, changes)
    ensures SnapshotsFresh(r)
  {
    var more := Snapshots(r.contacts, s.members, changes);
    forall c | Live(r.contacts, c)
      ensures var e := LastSnapshot(r.events, c);
        && e.Some? && e.value.version == r.contacts[c].version && e.value.lists == ListsOf(r.members, c)
        && e.value.data.Keys <= r.fields.Keys && SameData(r.fields, e.value.data, r.contacts[c].data)
    {
      SnapshotKept(s.events, ConsentEvents(rows), c);
      if i :| 0 <= i < |changes| && changes[i].contact == c {
        RowWritten(s.contacts, changes, i);
        assert more[i] == SnapshotOf(r.contacts, s.members, c, changes[i].changed);
        SnapshotReplaced(s.events + ConsentEvents(rows), more, i);
        assert GoodChange(s, defs, changes[i]);
      } else {
        RowKept(s.contacts, changes, c);
        SnapshotKept(s.events + ConsentEvents(rows), more, c);
      }
    }
  }

  // ---- the transaction

  /** Every committed write leaves the tables consistent, even when its validation was stale. */
  lemma CommitKeepsConsistent(
    s: Store, defs: map<nat, FieldDef>, ps: seq<Pending>, source: string, explicit: Option<ConsentInput>)
    requires Consistent(s)
    requires forall i :: 0 <= i < |ps| ==> Ready(s, defs, ps[i])
    requires Commit(s, defs, ps, source, explicit).Some?
    ensures Consistent(Commit(s, defs, ps, source, explicit).value)
  {
    var r := Commit(s, defs, ps, source, explicit).value;
    var changes := BatchChanges(s.contacts, ps, source);
    BatchChangesGood(s, defs, ps, source);
    PutRowsHit(s.contacts, changes);
    PutRowsUnique(s.contacts, changes);
    IndexKept(s, r, defs, changes);
    ConsentsKept(s, r, defs, changes, explicit);
    SnapshotsKept(s, r, defs, changes, ConsentRows(changes, explicit));
    ReferencesKept(s, r, defs, changes);
  }

  lemma ReferencesKept(s: Store, r: Store, defs: map<nat, FieldDef>, changes: seq<Change>)
    requires References(s) && GoodChanges(s, defs, changes) && DistinctContacts(changes)
    requires PutRows(s.contacts, changes) == Some(r.contacts) && SyncUnique(s.uniq, defs, changes) == Some(r.uniq)
    requires r.fields == s.fields && r.members == s.members && r.lists == s.lists
    ensures References(r)
  {
    PutRowsHit(s.contacts, changes);
    forall c | c in r.contacts ensures r.contacts[c].data.Keys <= r.fields.Keys {
      if i :| 0 <= i < |changes| && changes[i].contact == c {
        RowWritten(s.contacts, changes, i);
        assert GoodChange(s, defs, changes[i]);
      } else {
        RowKept(s.contacts, changes, c);
      }
    }
    InsertAllAt(Without(s.uniq, Cleared(defs, changes)), Values(defs, changes));
    forall k | k in r.uniq ensures r.uniq[k] in r.contacts && k.0 in r.fields {
      ValuesHas(defs, changes, k, r.uniq[k]);
      if i :| 0 <= i < |changes| && Asks(changes[i], r.uniq[k], k) {
        assert GoodChange(s, defs, changes[i]);
      }
    }
  }
}
