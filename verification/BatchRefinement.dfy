/** The batched write is the same as writing its accepted items one at a time, in any order. */
module BatchRefinement {
  import opened Wrappers
  import opened Text
  import opened FieldValues
  import opened Tables
  import opened BatchCommit
  import opened CommitInvariant
  import opened KeyResolver
  import opened BatchChecks
  import opened BatchSafety
  import opened BatchTheorems
  import opened ContactLog

  // ---- what one item does to its row

  /** The sent fields merged in, and one version more if that changed anything. */
  function RowAfter(contacts: map<Id, Contact>, p: Pending): Contact {
    var prior := Prior(contacts, p);
    var next := Merge(prior, p.fields);
    if p.created then Contact(next, 1, false)
    else if p.id in contacts then
      var version := contacts[p.id].version + (if ChangedOf(prior, next, p.fields) == [] then 0 else 1);
      Contact(next, version, contacts[p.id].deleted)
    else Contact(next, 0, false)
  }

  ghost predicate Writes(ps: seq<Pending>, c: Id) {
    exists p :: p in ps && p.id == c
  }

  /** `t` is `s` with exactly the items `ps` written: every other row is as it was. */
  ghost predicate Applied(s: Store, ps: seq<Pending>, t: Store) {
    && t.fields == s.fields && t.nextField == s.nextField && t.lists == s.lists && t.members == s.members
    && t.relational == s.relational && t.links == s.links && t.requests == s.requests
    && (forall p :: p in ps ==> p.id in t.contacts && t.contacts[p.id] == RowAfter(s.contacts, p))
    && (forall c :: !Writes(ps, c) ==> (c in t.contacts <==> c in s.contacts))
    && (forall c :: !Writes(ps, c) && c in s.contacts ==> t.contacts[c] == s.contacts[c])
    && (forall k: (nat, string) :: !Synced(s.fields, k.0) ==> (k in t.uniq <==> k in s.uniq))
    && (forall k: (nat, string) :: !Synced(s.fields, k.0) && k in s.uniq ==> t.uniq[k] == s.uniq[k])
    && (forall c :: Unused(s, c) && !Writes(ps, c) ==> Unused(t, c))
  }

  lemma AppliedNone(s: Store)
    ensures Applied(s, [], s)
  {
  }

  /** An unchanged merge is no change at all. */
  lemma NoChange(prior: Data, fields: FieldSet)
    requires ChangedOf(prior, Merge(prior, fields), fields) == []
    ensures Merge(prior, fields) == prior
  {
    var next := Merge(prior, fields);
    forall f ensures At(next, f) == At(prior, f) {
      MergeAt(prior, fields, f);
      ChangedHas(prior, next, fields, f);
    }
    assert forall f :: (f in next <==> At(next, f).Some?) && (f in prior <==> At(prior, f).Some?);
  }

  // ---- the batch

  /** Each existing item either changes its row or is left out of the changes. */
  lemma {:induction false} UpdatesCover(contacts: map<Id, Contact>, ps: seq<Pending>, source: string, p: Pending)
    requires forall i :: 0 <= i < |ps| ==> ps[i].id in contacts
    requires p in ps
    ensures var c := ChangeOf(contacts[p.id].data, false, p, source);
      c.changed == [] || c in UpdateChanges(contacts, ps, source)
  {
    var n := |ps| - 1;
    if p != ps[n] {
      assert p in ps[..n];
      UpdatesCover(contacts, ps[..n], source, p);
    }
  }

  lemma UpdatesChange(contacts: map<Id, Contact>, ps: seq<Pending>, source: string)
    requires forall i :: 0 <= i < |ps| ==> ps[i].id in contacts
    ensures forall c :: c in UpdateChanges(contacts, ps, source) ==> c.changed != []
  {
    if ps != [] { UpdatesChange(contacts, ps[..|ps| - 1], source); }
  }

  lemma BatchCovers(s: Store, ps: seq<Pending>, source: string, p: Pending)
    requires Sound(s, ps) && p in ps && RowsFound(s.contacts, Existing(ps))
    ensures var c := ChangeOf(Prior(s.contacts, p), p.created, p, source);
      (!p.created && c.changed == []) || c in BatchChanges(s.contacts, ps, source)
  {
    ExistingHas(ps, p);
    NewHas(ps, p);
    if p.created {
      var i :| 0 <= i < |New(ps)| && New(ps)[i] == p;
      assert InsertChanges(New(ps), source)[i] == ChangeOf(map[], true, p, source);
    } else {
      UpdatesCover(s.contacts, Existing(ps), source, p);
    }
  }

  lemma KeptRow(s: Store, ps: seq<Pending>, source: string, changes: seq<Change>, p: Pending)
    requires Sound(s, ps) && p in ps && AllFrom(s, ps, source, changes)
    requires ChangeOf(Prior(s.contacts, p), p.created, p, source) !in changes
    ensures !Names(changes, p.id)
  {
    if i :| 0 <= i < |changes| && changes[i].contact == p.id {
      var q :| q in ps && changes[i] == ChangeOf(Prior(s.contacts, q), q.created, q, source);
      SameItem(s, ps, p, q);
    }
  }

  lemma WrittenRow(s: Store, ps: seq<Pending>, source: string, rows: map<Id, Contact>, p: Pending)
    requires Sound(s, ps) && p in ps && RowsFound(s.contacts, Existing(ps))
    requires PutRows(s.contacts, BatchChanges(s.contacts, ps, source)) == Some(rows)
    requires AllFrom(s, ps, source, BatchChanges(s.contacts, ps, source))
    ensures p.id in rows && rows[p.id] == RowAfter(s.contacts, p)
  {
    var changes := BatchChanges(s.contacts, ps, source);
    assert Fit(s, p) by {
      var j :| 0 <= j < |ps| && ps[j] == p;
    }
    BatchCovers(s, ps, source, p);
    var c := ChangeOf(Prior(s.contacts, p), p.created, p, source);
    if c in changes {
      var i :| 0 <= i < |changes| && changes[i] == c;
      RowWritten(s.contacts, changes, i);
      WrittenChanges(s, ps, source, i);
    } else {
      NoChange(Prior(s.contacts, p), p.fields);
      KeptRow(s, ps, source, changes, p);
      RowKept(s.contacts, changes, p.id);
    }
  }

  lemma SameItem(s: Store, ps: seq<Pending>, p: Pending, q: Pending)
    requires Sound(s, ps) && p in ps && q in ps && p.id == q.id
    ensures p == q
  {
    var i :| 0 <= i < |ps| && ps[i] == p;
    var j :| 0 <= j < |ps| && ps[j] == q;
    assert i < j ==> Apart(s, ps[i], ps[j]);
    assert j < i ==> Apart(s, ps[j], ps[i]);
  }

  lemma WrittenChanges(s: Store, ps: seq<Pending>, source: string, i: nat)
    requires RowsFound(s.contacts, Existing(ps)) && i < |BatchChanges(s.contacts, ps, source)|
    ensures var c := BatchChanges(s.contacts, ps, source)[i]; c.created || c.changed != []
  {
    UpdatesChange(s.contacts, Existing(ps), source);
    var updates := UpdateChanges(s.contacts, Existing(ps), source);
    if i < |updates| {
      assert updates[i] in updates;
    }
  }

  lemma {:induction false} ConsentRowsName(changes: seq<Change>, explicit: Option<ConsentInput>)
    ensures forall i :: 0 <= i < |ConsentRows(changes, explicit)| ==>
      Names(changes, ConsentRows(changes, explicit)[i].contact)
  {
    if changes != [] {
      var n := |changes| - 1;
      ConsentRowsName(changes[..n], explicit);
      ConsentRowsByName(changes[n], changes[n].changed, explicit);
      forall c | Names(changes[..n], c) ensures Names(changes, c) {
        var i :| 0 <= i < n && changes[..n][i].contact == c;
        assert changes[i].contact == c;
      }
      assert changes[n].contact == changes[n].contact;
    }
  }

  lemma OthersNotNamed(s: Store, ps: seq<Pending>, source: string, changes: seq<Change>, c: Id)
    requires AllFrom(s, ps, source, changes) && !Writes(ps, c)
    ensures !Names(changes, c)
  {
  }

  lemma OthersKept(s: Store, ps: seq<Pending>, source: string, explicit: Option<ConsentInput>, t: Store)
    requires Sound(s, ps) && Commit(s, LiveFields(s.fields), ps, source, explicit) == Some(t)
    ensures forall c :: !Writes(ps, c) ==> (c in t.contacts <==> c in s.contacts)
    ensures forall c :: !Writes(ps, c) && c in s.contacts ==> t.contacts[c] == s.contacts[c]
    ensures forall c :: Unused(s, c) && !Writes(ps, c) ==> Unused(t, c)
  {
    var changes := BatchChanges(s.contacts, ps, source);
    BatchFrom(s, ps, source);
    forall c | !Writes(ps, c)
      ensures !Names(changes, c) && (c in t.contacts <==> c in s.contacts)
      ensures c in s.contacts ==> t.contacts[c] == s.contacts[c]
    {
      OthersNotNamed(s, ps, source, changes, c);
      RowKept(s.contacts, changes, c);
    }
    ConsentRowsName(changes, explicit);
  }

  /** A committed batch writes its items, each to its own row, and nothing else. */
  lemma CommitApplies(s: Store, ps: seq<Pending>, source: string, explicit: Option<ConsentInput>, t: Store)
    requires Sound(s, ps) && Commit(s, LiveFields(s.fields), ps, source, explicit) == Some(t)
    ensures Applied(s, ps, t)
  {
    var changes := BatchChanges(s.contacts, ps, source);
    OthersKept(s, ps, source, explicit, t);
    OtherEntriesKept(s, t, changes);
    BatchFrom(s, ps, source);
    forall p | p in ps ensures p.id in t.contacts && t.contacts[p.id] == RowAfter(s.contacts, p) {
      WrittenRow(s, ps, source, t.contacts, p);
    }
  }

  lemma OtherEntriesKept(s: Store, t: Store, changes: seq<Change>)
    requires SyncUnique(s.uniq, LiveFields(s.fields), changes) == Some(t.uniq)
    ensures forall k: (nat, string) :: !Synced(s.fields, k.0) ==>
      (k in t.uniq <==> k in s.uniq) && (k in s.uniq ==> t.uniq[k] == s.uniq[k])
  {
    var defs := LiveFields(s.fields);
    InsertAllAt(Without(s.uniq, Cleared(defs, changes)), Values(defs, changes));
    forall k: (nat, string) | !Synced(s.fields, k.0)
      ensures (k in t.uniq <==> k in s.uniq) && (k in s.uniq ==> t.uniq[k] == s.uniq[k])
    {
      if k in s.uniq { ClearedHas(defs, changes, s.uniq[k], k.0); }
      if k in t.uniq { ValuesHas(defs, changes, k, t.uniq[k]); }
    }
  }

  /** The index is a function of the rows. */
  lemma IndexDetermined(t: Store, u: Store)
    requires IndexAgrees(t) && IndexAgrees(u) && t.fields == u.fields && t.contacts == u.contacts
    requires forall k: (nat, string) :: !Synced(t.fields, k.0) ==> (k in t.uniq <==> k in u.uniq)
    requires forall k: (nat, string) :: !Synced(t.fields, k.0) && k in t.uniq ==> t.uniq[k] == u.uniq[k]
    ensures t.uniq == u.uniq
  {
    forall k: (nat, string) | Synced(t.fields, k.0) ensures k in t.uniq ==> k in u.uniq && u.uniq[k] == t.uniq[k] {
    }
    forall k: (nat, string) | Synced(t.fields, k.0) ensures k in u.uniq ==> k in t.uniq && u.uniq[k] == t.uniq[k] {
    }
  }

  lemma RowsDetermined(s: Store, ps: seq<Pending>, qs: seq<Pending>, t: Store, u: Store)
    requires Applied(s, ps, t) && Applied(s, qs, u)
    requires forall p :: p in ps <==> p in qs
    ensures t.contacts == u.contacts
  {
    forall c ensures (c in t.contacts <==> c in u.contacts) && (c in t.contacts ==> t.contacts[c] == u.contacts[c]) {
      if p :| p in ps && p.id == c {
        assert p in qs;
      } else {
        assert !Writes(ps, c) && !Writes(qs, c);
      }
    }
  }

  /** Two stores with the same items written to the same tables agree on every row and unique value. */
  lemma AppliedSame(s: Store, ps: seq<Pending>, qs: seq<Pending>, t: Store, u: Store)
    requires Applied(s, ps, t) && Applied(s, qs, u) && IndexAgrees(t) && IndexAgrees(u)
    requires forall p :: p in ps <==> p in qs
    ensures t.contacts == u.contacts && t.uniq == u.uniq
  {
    RowsDetermined(s, ps, qs, t, u);
    IndexDetermined(t, u);
  }

  // ---- what a contact's history and events gain

  /** The change an item makes, if it makes one. */
  function Effect(s: Store, p: Pending, source: string): Option<Change> {
    var c := ChangeOf(Prior(s.contacts, p), p.created, p, source);
    if p.created || c.changed != [] then Some(c) else None
  }

  /**
   The contact of `p` has got the consent entries and the events of its change, in the engine's order, and no others.
   */
  ghost predicate LoggedBy(s: Store, p: Pending, t: Store, source: string, explicit: Option<ConsentInput>) {
    var c := Effect(s, p, source);
    && p.id in t.contacts
    && ConsentsOf(t.consents, p.id) == ConsentsOf(s.consents, p.id) + RowsOf(c, explicit)
    && EventsOf(t.events, p.id) ==
      EventsOf(s.events, p.id) + (ConsentEvents(RowsOf(c, explicit)) + SnapshotAbout(t.contacts, t.members, c))
  }

  ghost predicate SameLog(s: Store, t: Store, c: Id) {
    ConsentsOf(t.consents, c) == ConsentsOf(s.consents, c) && EventsOf(t.events, c) == EventsOf(s.events, c)
  }

  /** Every written contact has its log extended by its own item; every other log is as it was. */
  ghost predicate Logged(s: Store, ps: seq<Pending>, t: Store, source: string, explicit: Option<ConsentInput>) {
    && (forall p :: p in ps ==> LoggedBy(s, p, t, source, explicit))
    && (forall c :: !Writes(ps, c) ==> SameLog(s, t, c))
  }

  lemma EffectIs(s: Store, ps: seq<Pending>, source: string, p: Pending)
    requires Sound(s, ps) && p in ps && RowsFound(s.contacts, Existing(ps))
    requires AllFrom(s, ps, source, BatchChanges(s.contacts, ps, source))
    ensures ChangeAbout(BatchChanges(s.contacts, ps, source), p.id) == Effect(s, p, source)
  {
    var changes := BatchChanges(s.contacts, ps, source);
    var c := ChangeOf(Prior(s.contacts, p), p.created, p, source);
    BatchCovers(s, ps, source, p);
    if c in changes {
      var i :| 0 <= i < |changes| && changes[i] == c;
      ChangeAboutIs(changes, i);
      WrittenChanges(s, ps, source, i);
    } else {
      KeptRow(s, ps, source, changes, p);
      NoChangeAbout(changes, p.id);
    }
  }

  /** What a transaction appends to history and outbox. */
  lemma CommitAppends(
      s: Store, ps: seq<Pending>, source: string, explicit: Option<ConsentInput>, t: Store, changes: seq<Change>)
    requires Commit(s, LiveFields(s.fields), ps, source, explicit) == Some(t) && RowsFound(s.contacts, Existing(ps))
    requires changes == BatchChanges(s.contacts, ps, source)
    ensures forall i :: 0 <= i < |changes| ==> changes[i].contact in t.contacts
    ensures t.consents == s.consents + ConsentRows(changes, explicit) && t.members == s.members
    ensures t.events ==
      s.events + (ConsentEvents(ConsentRows(changes, explicit)) + Snapshots(t.contacts, s.members, changes))
  {
    PutRowsHit(s.contacts, changes);
    var consents, snapshots := ConsentEvents(ConsentRows(changes, explicit)), Snapshots(t.contacts, s.members, changes);
    assert s.events + consents + snapshots == s.events + (consents + snapshots);
  }

  /** What of it is about one contact. */
  lemma AppendsTo(s: Store, t: Store, changes: seq<Change>, explicit: Option<ConsentInput>, x: Id)
    requires DistinctContacts(changes) && forall i :: 0 <= i < |changes| ==> changes[i].contact in t.contacts
    requires t.consents == s.consents + ConsentRows(changes, explicit)
    requires t.events ==
      s.events + (ConsentEvents(ConsentRows(changes, explicit)) + Snapshots(t.contacts, t.members, changes))
    ensures ChangeAbout(changes, x).Some? ==> ChangeAbout(changes, x).value.contact in t.contacts
    ensures ConsentsOf(t.consents, x) == ConsentsOf(s.consents, x) + RowsOf(ChangeAbout(changes, x), explicit)
    ensures EventsOf(t.events, x) == EventsOf(s.events, x) +
      (ConsentEvents(RowsOf(ChangeAbout(changes, x), explicit))
       + SnapshotAbout(t.contacts, t.members, ChangeAbout(changes, x)))
  {
    ConsentsOfRows(changes, explicit, x);
    OnlyConcat(s.consents, ConsentRows(changes, explicit), (row: Consent) => row.contact == x);
    EventsOfCommit(t.contacts, t.members, changes, explicit, x);
    OnlyConcat(
      s.events, ConsentEvents(ConsentRows(changes, explicit)) + Snapshots(t.contacts, t.members, changes),
      (e: Event) => e.contact == x);
  }

  /** A committed batch extends the log of each contact by its own item. */
  lemma CommitLogs(s: Store, ps: seq<Pending>, source: string, explicit: Option<ConsentInput>, t: Store)
    requires Sound(s, ps) && Commit(s, LiveFields(s.fields), ps, source, explicit) == Some(t)
    ensures Logged(s, ps, t, source, explicit)
  {
    var changes := BatchChanges(s.contacts, ps, source);
    BatchFrom(s, ps, source);
    CommitApplies(s, ps, source, explicit, t);
    CommitAppends(s, ps, source, explicit, t, changes);
    forall p | p in ps ensures LoggedBy(s, p, t, source, explicit) {
      EffectIs(s, ps, source, p);
      AppendsTo(s, t, changes, explicit, p.id);
    }
    forall c | !Writes(ps, c) ensures SameLog(s, t, c) {
      OthersNotNamed(s, ps, source, changes, c);
      NoChangeAbout(changes, c);
      AppendsTo(s, t, changes, explicit, c);
    }
  }

  lemma LoggedNone(s: Store, source: string, explicit: Option<ConsentInput>)
    ensures Logged(s, [], s, source, explicit)
  {
  }

  /** One more item on top of others. */
  lemma LoggedNext(
      s: Store, ps: seq<Pending>, t: Store, q: Pending, u: Store, source: string, explicit: Option<ConsentInput>)
    requires Applied(s, ps, t) && Logged(s, ps, t, source, explicit) && !Writes(ps, q.id)
    requires Applied(t, [q.(index := 0)], u) && Logged(t, [q.(index := 0)], u, source, explicit)
    requires Prior(t.contacts, q) == Prior(s.contacts, q)
    ensures Logged(s, ps + [q], u, source, explicit)
  {
    var q0 := q.(index := 0);
    assert q0 in [q0];
    forall p | p in ps + [q] ensures LoggedBy(s, p, u, source, explicit) {
      if p in ps {
        assert !Writes([q0], p.id);
        LoggedBefore(s, p, t, u, source, explicit);
      } else {
        assert p == q;
        LoggedHere(s, t, q, u, source, explicit);
      }
    }
    forall c | !Writes(ps + [q], c) ensures SameLog(s, u, c) {
      OthersAfter(ps, q, c);
      assert SameLog(s, t, c) && SameLog(t, u, c);
    }
  }

  lemma LoggedBefore(s: Store, p: Pending, t: Store, u: Store, source: string, explicit: Option<ConsentInput>)
    requires LoggedBy(s, p, t, source, explicit) && SameLog(t, u, p.id)
    requires p.id in u.contacts && u.contacts[p.id] == t.contacts[p.id] && u.members == t.members
    ensures LoggedBy(s, p, u, source, explicit)
  {
  }

  lemma LoggedHere(s: Store, t: Store, q: Pending, u: Store, source: string, explicit: Option<ConsentInput>)
    requires SameLog(s, t, q.id) && LoggedBy(t, q.(index := 0), u, source, explicit)
    requires Prior(t.contacts, q) == Prior(s.contacts, q)
    ensures LoggedBy(s, q, u, source, explicit)
  {
    assert Effect(t, q.(index := 0), source) == Effect(s, q, source);
  }

  lemma OthersAfter(ps: seq<Pending>, q: Pending, c: Id)
    requires !Writes(ps + [q], c)
    ensures !Writes(ps, c) && !Writes([q.(index := 0)], c)
  {
    assert q in ps + [q];
    assert forall p :: p in ps ==> p in ps + [q];
  }

  /** The logs left are fixed by the set of items. */
  lemma LoggedSame(
      s: Store, ps: seq<Pending>, qs: seq<Pending>, t: Store, u: Store, source: string,
      explicit: Option<ConsentInput>, c: Id)
    requires Logged(s, ps, t, source, explicit) && Logged(s, qs, u, source, explicit)
    requires t.contacts == u.contacts && t.members == u.members && forall p :: p in ps <==> p in qs
    ensures SameLog(t, u, c)
  {
    if p :| p in ps && p.id == c {
      assert LoggedBy(s, p, t, source, explicit) && LoggedBy(s, p, u, source, explicit);
    } else {
      assert !Writes(ps, c) && !Writes(qs, c);
      assert SameLog(s, t, c) && SameLog(s, u, c);
    }
  }

  // ---- what stays true while other items are written

  /** After the write a contact holds only what it had or was given. */
  lemma HeldAfter(s: Store, ps: seq<Pending>, t: Store, c: Id, f: nat, x: string)
    requires Consistent(s) && Sound(s, ps) && Applied(s, ps, t) && UniqueField(s, f)
    requires Live(t.contacts, c) && UniqueText(t.contacts[c].data, f) == Some(x)
    ensures Holds(s, ps, c, f, x)
  {
    if p :| p in ps && p.id == c {
      WrittenHolds(s, ps, p, f, x);
    } else {
      assert !Writes(ps, c);
    }
  }

  lemma GivenHolds(s: Store, ps: seq<Pending>, t: Store, p: Pending, f: nat)
    requires Applied(s, ps, t) && p in ps && Fit(s, p) && UniqueField(s, f) && Claim(p, f).Some?
    ensures Live(t.contacts, p.id) && UniqueText(t.contacts[p.id].data, f) == Some(JsNorm(f, Claim(p, f).value))
  {
    MergeAt(Prior(s.contacts, p), p.fields, f);
    NonBlankNorm(f, Claim(p, f).value);
  }

  /** A contact given a value answers to it. */
  lemma GivenAnswers(s: Store, ps: seq<Pending>, t: Store, p: Pending, f: nat)
    requires Consistent(t) && Sound(s, ps) && Applied(s, ps, t) && p in ps && UniqueField(s, f) && Claim(p, f).Some?
    ensures Lookup(t, FieldKey(f), Claim(p, f).value) == Some(p.id)
  {
    var i :| 0 <= i < |ps| && ps[i] == p;
    assert Fit(s, ps[i]);
    GivenHolds(s, ps, t, p, f);
    LookupIsScan(t, f, Claim(p, f).value, p.id);
  }

  lemma SoundPrefix(s: Store, ps: seq<Pending>, q: Pending)
    requires Sound(s, ps + [q])
    ensures Sound(s, ps) && Fit(s, q) && !Writes(ps, q.id)
  {
    var all := ps + [q];
    forall i | 0 <= i < |ps| ensures Fit(s, ps[i]) && Apart(s, ps[i], q) {
      assert all[i] == ps[i] && all[|ps|] == q;
    }
    forall i, j | 0 <= i < j < |ps| ensures Apart(s, ps[i], ps[j]) {
      assert all[i] == ps[i] && all[j] == ps[j];
    }
    assert all[|ps|] == q;
  }

  /** Whoever answers to a value the item claims, once others are written, is the item's own contact. */
  lemma ClaimStaysFree(s: Store, ps: seq<Pending>, t: Store, q: Pending, f: nat)
    requires Consistent(s) && Consistent(t) && Sound(s, ps + [q]) && Applied(s, ps, t)
    requires UniqueField(s, f) && Claim(q, f).Some?
    ensures Lookup(t, FieldKey(f), Claim(q, f).value) in {None, Some(q.id)}
  {
    var v := Claim(q, f).value;
    var owner := Lookup(t, FieldKey(f), v);
    if owner.Some? {
      SoundPrefix(s, ps, q);
      LookupIsScan(t, f, v, owner.value);
      HeldAfter(s, ps, t, owner.value, f, JsNorm(f, v));
      assert q in ps + [q];
      assert forall p :: p in ps ==> p in ps + [q];
      OneHolder(s, ps + [q], owner.value, q.id, f, JsNorm(f, v));
    }
  }

  lemma StaysFit(s: Store, ps: seq<Pending>, t: Store, q: Pending)
    requires Consistent(s) && Consistent(t) && Sound(s, ps + [q]) && Applied(s, ps, t)
    ensures Fit(t, q) && Prior(t.contacts, q) == Prior(s.contacts, q)
  {
    SoundPrefix(s, ps, q);
    forall f | UniqueField(t, f) && Claim(q, f).Some?
      ensures Lookup(t, FieldKey(f), Claim(q, f).value) in {None, Some(q.id)}
    {
      ClaimStaysFree(s, ps, t, q, f);
    }
  }

  lemma StaysFoundByKey(s: Store, ps: seq<Pending>, t: Store, key: Key, q: Pending)
    requires Consistent(s) && Consistent(t) && Sound(s, ps + [q]) && Applied(s, ps, t)
    requires IndexKey(s, key) && FoundByKey(s, key, q)
    requires key.FieldKey? ==> Claim(q, key.field) == Some(q.key)
    requires key == IdKey ==> !q.created
    ensures FoundByKey(t, key, q)
  {
    StaysFit(s, ps, t, q);
    SoundPrefix(s, ps, q);
    if key.FieldKey? {
      ClaimStaysFree(s, ps, t, q, key.field);
      if !q.created {
        LookupIsScan(s, key.field, q.key, q.id);
        LookupIsScan(t, key.field, q.key, q.id);
      }
    } else {
      LookupUnique(t, key, q.key, q.id);
    }
  }

  // ---- one item at a time

  function Single(b: Batch, i: nat): Batch
    requires i < |b.items|
  {
    b.(items := [b.items[i]], ids := [b.ids[i]])
  }

  lemma ScreenedAlone(defs: map<nat, FieldDef>, b: Batch, i: nat)
    requires i < |b.items| && Screened(defs, b.key, b.items, i).Ok?
    ensures Screened(defs, b.key, Single(b, i).items, 0) == Screened(defs, b.key, b.items, i)
  {
  }

  lemma PlacedAlone(s: Store, t: Store, b: Batch, q: Pending)
    requires q.index < |b.items| && Placed(s, b, q.index, q.fields) == Ok(q)
    requires Lookup(t, b.key, q.key) == Lookup(s, b.key, q.key)
    ensures Placed(t, Single(b, q.index), 0, q.fields) == Ok(q.(index := 0))
  {
  }

  lemma OneCandidate(t: Store, one: Batch, q: Pending)
    requires |one.items| == 1 && Resolved(t, LiveFields(t.fields), one, 0) == Ok(q)
    ensures Candidates(t, LiveFields(t.fields), one, 1) == [q]
  {
    CandidatesStep(t, LiveFields(t.fields), one, 0);
    assert AllResolved(t, LiveFields(t.fields), one, 0) == [];
  }

  lemma OneStands(t: Store, key: Key, q: Pending)
    requires ClaimsFree(t, q)
    ensures Standing([q], AfterFields(t, LiveFields(t.fields), key, [q], t.nextField)) == [q]
  {
    var defs := LiveFields(t.fields);
    forall f | Checks(defs, key, f) ensures FreeAt(t, q, f) {
      assert UniqueField(t, f);
    }
    ChecksComplete(t, defs, key, [q], t.nextField);
    assert Standing([], []) == [];
  }

  lemma Renumbered(t: Store, q: Pending)
    requires Fit(t, q)
    ensures Fit(t, q.(index := 0)) && Sound(t, [q.(index := 0)])
  {
    forall f ensures Claim(q.(index := 0), f) == Claim(q, f) {
    }
  }

  /** An item accepted with the others is accepted alone. */
  lemma AcceptedAlone(s: Store, ps: seq<Pending>, t: Store, b: Batch, q: Pending)
    requires Callable(s, b) && Consistent(t) && Sound(s, ps + [q]) && Applied(s, ps, t) && IsCandidate(s, b, q)
    ensures Accepted(t, LiveFields(t.fields), Single(b, q.index), t.nextField) == [q.(index := 0)]
  {
    CandidateFits(s, b, q);
    StaysFoundByKey(s, ps, t, b.key, q);
    StaysFit(s, ps, t, q);
    ScreenedAlone(LiveFields(t.fields), b, q.index);
    PlacedAlone(s, t, b, q);
    OneCandidate(t, Single(b, q.index), q.(index := 0));
    Renumbered(t, q);
    OneStands(t, b.key, q.(index := 0));
  }

  lemma AppliedNext(s: Store, ps: seq<Pending>, t: Store, q: Pending, u: Store)
    requires Applied(s, ps, t) && Applied(t, [q.(index := 0)], u) && !Writes(ps, q.id)
    requires Prior(t.contacts, q) == Prior(s.contacts, q)
    requires q.id in t.contacts <==> q.id in s.contacts
    requires q.id in s.contacts ==> t.contacts[q.id] == s.contacts[q.id]
    ensures Applied(s, ps + [q], u)
  {
    var q0 := q.(index := 0);
    assert q0 in [q0];
    forall p | p in ps + [q] ensures p.id in u.contacts && u.contacts[p.id] == RowAfter(s.contacts, p) {
      if p in ps {
        assert !Writes([q0], p.id);
      }
    }
    forall c | !Writes(ps + [q], c) ensures !Writes(ps, c) && !Writes([q0], c) {
      assert q in ps + [q];
      assert forall p :: p in ps ==> p in ps + [q];
    }
  }

  /** Writing one accepted item alone, after some of the others, gives the same answer and the same row. */
  lemma OneStep(s: Store, ps: seq<Pending>, t: Store, b: Batch, q: Pending) returns (u: Store)
    requires Callable(s, b) && Consistent(t) && Sound(s, ps + [q]) && Applied(s, ps, t) && IsCandidate(s, b, q)
    requires Logged(s, ps, t, b.source, b.explicit)
    ensures Attempt(t, Single(b, q.index)) == Finished([Succeeded(s.contacts, q).(index := 0)], u)
    ensures Applied(s, ps + [q], u) && Consistent(u) && Logged(s, ps + [q], u, b.source, b.explicit)
  {
    var q0 := q.(index := 0);
    AcceptedAlone(s, ps, t, b, q);
    StaysFit(s, ps, t, q);
    Renumbered(t, q);
    u := WrittenAlone(t, q0, b.source, b.explicit);
    SoundPrefix(s, ps, q);
    AppliedNext(s, ps, t, q, u);
    LoggedNext(s, ps, t, q, u, b.source, b.explicit);
    SingleResult(s, t, b, q);
  }

  lemma WrittenAlone(t: Store, q: Pending, source: string, explicit: Option<ConsentInput>) returns (u: Store)
    requires Consistent(t) && Sound(t, [q])
    ensures Commit(t, LiveFields(t.fields), [q], source, explicit) == Some(u) && Applied(t, [q], u) && Consistent(u)
    ensures Logged(t, [q], u, source, explicit)
  {
    SoundCommits(t, [q], source, explicit);
    u := Commit(t, LiveFields(t.fields), [q], source, explicit).value;
    CommitApplies(t, [q], source, explicit, u);
    CommitLogs(t, [q], source, explicit, u);
    assert Fit(t, [q][0]);
    OneKeepsConsistent(t, q, source, explicit, u);
  }

  lemma OneKeepsConsistent(t: Store, q: Pending, source: string, explicit: Option<ConsentInput>, u: Store)
    requires Consistent(t) && Fit(t, q) && Commit(t, LiveFields(t.fields), [q], source, explicit) == Some(u)
    ensures Consistent(u)
  {
    assert Ready(t, LiveFields(t.fields), [q][0]);
    CommitKeepsConsistent(t, LiveFields(t.fields), [q], source, explicit);
  }

  lemma SingleResult(s: Store, t: Store, b: Batch, q: Pending)
    requires q.index < |b.items| && Prior(t.contacts, q) == Prior(s.contacts, q)
    requires Accepted(t, LiveFields(t.fields), Single(b, q.index), t.nextField) == [q.(index := 0)]
    ensures Results(t, LiveFields(t.fields), Single(b, q.index), t.nextField) == [Succeeded(s.contacts, q).(index := 0)]
  {
    var one := Single(b, q.index);
    var defs := LiveFields(t.fields);
    var r := Resolved(t, defs, one, 0);
    assert AllResolved(t, defs, one, 0) == [];
    CandidatesStep(t, defs, one, 0);
    assert Candidates(t, defs, one, 1) == if r.Ok? then [r.value] else [];
    var errors := AfterFields(t, defs, one.key, Candidates(t, defs, one, 1), t.nextField);
    assert Standing([], []) == [];
    assert Position([], 0) == 0;
  }

  // ---- answers

  lemma PositionOf(ps: seq<Pending>, j: nat)
    requires j < |ps|
    requires forall i, k :: 0 <= i < k < |ps| ==> ps[i].index < ps[k].index
    ensures Position(ps, ps[j].index) == j
  {
  }

  lemma {:induction false} ErrorFreeStands(ps: seq<Pending>, errors: seq<Option<ItemError>>, j: nat)
    requires j < |ps| == |errors| && errors[j].None?
    ensures ps[j] in Standing(ps, errors)
  {
    var n := |ps| - 1;
    if j < n { ErrorFreeStands(ps[..n], errors[..n], j); }
  }

  lemma {:induction false} StandsErrorFree(ps: seq<Pending>, errors: seq<Option<ItemError>>, p: Pending)
    returns (j: nat)
    requires |ps| == |errors| && p in Standing(ps, errors)
    ensures j < |ps| && ps[j] == p && errors[j].None?
  {
    var n := |ps| - 1;
    if p in Standing(ps[..n], errors[..n]) {
      j := StandsErrorFree(ps[..n], errors[..n], p);
    } else {
      j := n;
    }
  }

  lemma CandidateListed(s: Store, b: Batch, n: nat, p: Pending) returns (j: nat)
    requires p.index < n <= |b.items| && Resolved(s, LiveFields(s.fields), b, p.index) == Ok(p)
    ensures var ps := Candidates(s, LiveFields(s.fields), b, n); j < |ps| && ps[j] == p
  {
    j := CollectedHas(AllResolved(s, LiveFields(s.fields), b, n), p.index);
  }

  /** An accepted item is answered with its contact. */
  lemma AcceptedAnswer(s: Store, b: Batch, p: Pending)
    requires p in Accepted(s, LiveFields(s.fields), b, s.nextField)
    ensures IsCandidate(s, b, p)
    ensures Verdict(s, LiveFields(s.fields), b, s.nextField, p.index) == Succeeded(s.contacts, p)
  {
    var defs := LiveFields(s.fields);
    var ps := Candidates(s, defs, b, |b.items|);
    var j := StandsErrorFree(ps, AfterFields(s, defs, b.key, ps, s.nextField), p);
    CandidatesAre(s, b, |b.items|);
    PositionOf(ps, j);
  }

  /** Every item is answered once, in order, with an ID or with an error; with an ID only if accepted. */
  lemma EveryItemAnswered(s: Store, b: Batch, i: nat) returns (p: Pending)
    requires i < |b.items|
    ensures var r := Results(s, LiveFields(s.fields), b, s.nextField)[i];
      && r.index == i && (r.id.Some? <==> r.error.None?)
      && (r.error.Some? ==> !r.created && r.changed == [])
      && (r.id.Some? ==> p in Accepted(s, LiveFields(s.fields), b, s.nextField))
      && (r.id.Some? ==> p.index == i && r == Succeeded(s.contacts, p))
  {
    var defs := LiveFields(s.fields);
    var found := Resolved(s, defs, b, i);
    if found.Ok? {
      p := found.value;
      ResolvedIs(s, b, i);
      var ps := Candidates(s, defs, b, |b.items|);
      var j := CandidateListed(s, b, |b.items|, p);
      CandidatesAre(s, b, |b.items|);
      PositionOf(ps, j);
      var errors := AfterFields(s, defs, b.key, ps, s.nextField);
      if errors[j].None? { ErrorFreeStands(ps, errors, j); }
    } else {
      p := Pending(0, "", [], "", false);
    }
  }

  // ---- the batch against its items one at a time

  datatype Calls = Calls(store: Store, answers: seq<ItemResult>)

  /** One more call: what it leaves and answers, after the earlier ones. */
  function Followed(head: Calls, a: Attempted): Calls {
    match a
    case Finished(results, t) => Calls(t, head.answers + results)
    case Retry => head
  }

  /** The call for item `i` alone. */
  ghost function CallAlone(b: Batch, t: Store, i: nat): Attempted {
    if i < |b.items| then Attempt(t, Single(b, i)) else Retry
  }

  /** One call for each item of `order`: the tables they leave and what they answered. */
  ghost function OneByOne(s: Store, b: Batch, order: seq<nat>): Calls {
    if order == [] then Calls(s, [])
    else
      var n := |order| - 1;
      var head := OneByOne(s, b, order[..n]);
      Followed(head, CallAlone(b, head.store, order[n]))
  }

  /** Item `i` is answered with an ID. */
  ghost predicate IsAccepted(s: Store, b: Batch, i: nat) {
    i < |b.items| && Results(s, LiveFields(s.fields), b, s.nextField)[i].id.Some?
  }

  /** `order` lists every accepted item once. */
  ghost predicate ListsAccepted(s: Store, b: Batch, order: seq<nat>) {
    Distinct(order) && forall i :: i in order <==> IsAccepted(s, b, i)
  }

  /** The accepted items in the order `order` names them. */
  ghost predicate InOrder(s: Store, b: Batch, order: seq<nat>, ps: seq<Pending>) {
    && |ps| == |order|
    && forall k :: 0 <= k < |ps| ==>
      ps[k].index == order[k] && ps[k] in Accepted(s, LiveFields(s.fields), b, s.nextField)
  }

  lemma SoundAnyOrder(s: Store, ps: seq<Pending>, qs: seq<Pending>)
    requires Sound(s, ps) && Distinct(qs)
    requires forall k :: 0 <= k < |qs| ==> qs[k] in ps
    ensures Sound(s, qs)
  {
    forall k | 0 <= k < |qs| ensures Fit(s, qs[k]) {
      var i := PlaceIn(ps, qs[k]);
    }
    forall k, m | 0 <= k < m < |qs| ensures Apart(s, qs[k], qs[m]) {
      var i := PlaceIn(ps, qs[k]);
      var j := PlaceIn(ps, qs[m]);
      if i < j {
        assert Apart(s, ps[i], ps[j]);
      } else {
        assert Apart(s, ps[j], ps[i]);
      }
    }
  }

  lemma PlaceIn(ps: seq<Pending>, p: Pending) returns (i: nat)
    requires p in ps
    ensures i < |ps| && ps[i] == p
  {
    i :| i < |ps| && ps[i] == p;
  }

  lemma PickOne(s: Store, b: Batch, i: nat) returns (p: Pending)
    requires IsAccepted(s, b, i)
    ensures p.index == i && p in Accepted(s, LiveFields(s.fields), b, s.nextField)
  {
    p := EveryItemAnswered(s, b, i);
  }

  ghost predicate HasIndex(accepted: seq<Pending>, i: nat) {
    exists p :: p in accepted && p.index == i
  }

  lemma {:induction false} PickInOrder(accepted: seq<Pending>, order: seq<nat>) returns (ps: seq<Pending>)
    requires forall k :: 0 <= k < |order| ==> HasIndex(accepted, order[k])
    ensures |ps| == |order| && forall k :: 0 <= k < |ps| ==> ps[k].index == order[k] && ps[k] in accepted
  {
    ps := [];
    for n := 0 to |order|
      invariant |ps| == n && forall k :: 0 <= k < n ==> ps[k].index == order[k] && ps[k] in accepted
    {
      assert HasIndex(accepted, order[n]);
      var p :| p in accepted && p.index == order[n];
      ps := ps + [p];
    }
  }

  ghost function AnswersTo(s: Store, ps: seq<Pending>): seq<ItemResult> {
    seq(|ps|, k requires 0 <= k < |ps| => Succeeded(s.contacts, ps[k]).(index := 0))
  }

  ghost predicate CandidatesInOrder(s: Store, b: Batch, order: seq<nat>, ps: seq<Pending>) {
    |ps| == |order| && forall k :: 0 <= k < |ps| ==> ps[k].index == order[k] && IsCandidate(s, b, ps[k])
  }

  /** The calls made wrote exactly the items `ps` and answered with them. */
  ghost predicate Wrote(s: Store, b: Batch, ps: seq<Pending>, calls: Calls) {
    && Applied(s, ps, calls.store) && Logged(s, ps, calls.store, b.source, b.explicit)
    && Consistent(calls.store) && calls.answers == AnswersTo(s, ps)
  }

  lemma NoneWrote(s: Store, b: Batch)
    requires Consistent(s)
    ensures Wrote(s, b, [], Calls(s, []))
  {
    AppliedNone(s);
    LoggedNone(s, b.source, b.explicit);
  }

  lemma AnswersNext(s: Store, ps: seq<Pending>, q: Pending)
    ensures AnswersTo(s, ps + [q]) == AnswersTo(s, ps) + [Succeeded(s.contacts, q).(index := 0)]
  {
  }

  lemma FollowedWrote(s: Store, b: Batch, ps: seq<Pending>, q: Pending, head: Calls, u: Store, answer: ItemResult)
    requires Wrote(s, b, ps, head) && answer == Succeeded(s.contacts, q).(index := 0)
    requires Applied(s, ps + [q], u) && Consistent(u) && Logged(s, ps + [q], u, b.source, b.explicit)
    ensures Wrote(s, b, ps + [q], Followed(head, Finished([answer], u)))
  {
    AnswersNext(s, ps, q);
  }

  lemma NextWrote(s: Store, b: Batch, ps: seq<Pending>, q: Pending, head: Calls)
    requires Callable(s, b) && Sound(s, ps + [q]) && Wrote(s, b, ps, head) && IsCandidate(s, b, q)
    ensures Wrote(s, b, ps + [q], Followed(head, Attempt(head.store, Single(b, q.index))))
  {
    var u := OneStep(s, ps, head.store, b, q);
    FollowedWrote(s, b, ps, q, head, u, Succeeded(s.contacts, q).(index := 0));
  }

  lemma FrontNext(s: Store, ps: seq<Pending>, k: nat, front: seq<Pending>, q: Pending)
    requires Sound(s, ps) && k < |ps| && front == ps[..k] && q == ps[k]
    ensures ps[..k + 1] == front + [q] && Sound(s, front + [q])
  {
    assert ps[..k + 1] == front + [q];
    SoundFront(s, ps, k + 1);
  }

  lemma NextCall(s: Store, b: Batch, order: seq<nat>, ps: seq<Pending>, k: nat, c: Calls)
    requires Callable(s, b) && CandidatesInOrder(s, b, order, ps) && Sound(s, ps) && k < |ps| && Wrote(s, b, ps[..k], c)
    ensures order[k] < |b.items| && Wrote(s, b, ps[..k + 1], Followed(c, CallAlone(b, c.store, order[k])))
  {
    assert IsCandidate(s, b, ps[k]);
    var front, q := ps[..k], ps[k];
    FrontNext(s, ps, k, front, q);
    NextWrote(s, b, front, q, c);
  }

  lemma OneMoreCall(s: Store, b: Batch, order: seq<nat>, n: nat)
    requires n < |order|
    ensures var head := OneByOne(s, b, order[..n]);
      OneByOne(s, b, order[..n + 1]) == Followed(head, CallAlone(b, head.store, order[n]))
  {
    assert order[..n + 1][..n] == order[..n];
  }

  lemma OneMoreWritten(
    s: Store, b: Batch, order: seq<nat>, ps: seq<Pending>, n: nat, head: Calls, next: Calls)
    requires Callable(s, b) && CandidatesInOrder(s, b, order, ps) && Sound(s, ps) && n < |ps|
    requires head == OneByOne(s, b, order[..n]) && next == OneByOne(s, b, order[..n + 1]) && Wrote(s, b, ps[..n], head)
    ensures Wrote(s, b, ps[..n + 1], next)
  {
    OneMoreCall(s, b, order, n);
    NextCall(s, b, order, ps, n, head);
  }

  lemma NoCall(s: Store, b: Batch, order: seq<nat>, ps: seq<Pending>)
    requires Consistent(s)
    ensures Wrote(s, b, ps[..0], OneByOne(s, b, order[..0]))
  {
    NoneWrote(s, b);
    assert ps[..0] == [] && order[..0] == [];
  }

  /** One call for each item of `order` writes exactly those items. */
  lemma OneByOneApplies(s: Store, b: Batch, order: seq<nat>, ps: seq<Pending>) returns (calls: Calls)
    requires Callable(s, b) && CandidatesInOrder(s, b, order, ps) && Sound(s, ps)
    ensures calls == OneByOne(s, b, order) && Wrote(s, b, ps, calls)
  {
    NoCall(s, b, order, ps);
    calls := OneByOne(s, b, order[..0]);
    for n := 0 to |order|
      invariant calls == OneByOne(s, b, order[..n]) && Wrote(s, b, ps[..n], calls)
    {
      var next := OneByOne(s, b, order[..n + 1]);
      OneMoreWritten(s, b, order, ps, n, calls, next);
      calls := next;
    }
    assert order[..|order|] == order && ps[..|order|] == ps;
  }

  lemma SoundFront(s: Store, ps: seq<Pending>, n: nat)
    requires Sound(s, ps) && n <= |ps|
    ensures Sound(s, ps[..n])
  {
    forall k, m | 0 <= k < m < n ensures Apart(s, ps[..n][k], ps[..n][m]) {
      assert Apart(s, ps[k], ps[m]);
    }
    forall k | 0 <= k < n ensures Fit(s, ps[..n][k]) {
      assert Fit(s, ps[k]);
    }
  }

  lemma EachPicked(s: Store, b: Batch, order: seq<nat>, accepted: seq<Pending>)
    requires ListsAccepted(s, b, order) && accepted == Accepted(s, LiveFields(s.fields), b, s.nextField)
    ensures forall k :: 0 <= k < |order| ==> order[k] < |b.items| && HasIndex(accepted, order[k])
  {
    forall k | 0 <= k < |order| ensures order[k] < |b.items| && HasIndex(accepted, order[k]) {
      assert order[k] in order;
      var p := PickOne(s, b, order[k]);
    }
  }

  lemma AcceptedAreCandidates(s: Store, b: Batch, order: seq<nat>, ps: seq<Pending>)
    requires InOrder(s, b, order, ps)
    ensures CandidatesInOrder(s, b, order, ps)
  {
    forall k | 0 <= k < |ps| ensures IsCandidate(s, b, ps[k]) {
      AcceptedAnswer(s, b, ps[k]);
    }
  }

  /** The items picked for `order` are the accepted ones. */
  lemma PickedAll(s: Store, b: Batch, order: seq<nat>, ps: seq<Pending>, p: Pending)
    requires Callable(s, b) && ListsAccepted(s, b, order) && InOrder(s, b, order, ps)
    requires p in Accepted(s, LiveFields(s.fields), b, s.nextField)
    ensures p in ps
  {
    AcceptedAnswer(s, b, p);
    assert IsAccepted(s, b, p.index);
    var k :| 0 <= k < |order| && order[k] == p.index;
    AcceptedAnswer(s, b, ps[k]);
    AcceptedSound(s, b);
    SameItem(s, Accepted(s, LiveFields(s.fields), b, s.nextField), p, ps[k]);
  }

  /** The calls for the items of `order` write exactly the accepted items. */
  lemma OneByOneWrites(s: Store, b: Batch, order: seq<nat>, accepted: seq<Pending>) returns (ps: seq<Pending>)
    requires Callable(s, b) && ListsAccepted(s, b, order)
    requires accepted == Accepted(s, LiveFields(s.fields), b, s.nextField)
    ensures InOrder(s, b, order, ps) && Wrote(s, b, ps, OneByOne(s, b, order))
    ensures forall p :: p in ps <==> p in accepted
    ensures forall k :: 0 <= k < |order| ==> order[k] < |b.items|
  {
    EachPicked(s, b, order, accepted);
    ps := PickInOrder(accepted, order);
    AcceptedSound(s, b);
    SoundAnyOrder(s, accepted, ps);
    AcceptedAreCandidates(s, b, order, ps);
    var calls := OneByOneApplies(s, b, order, ps);
    forall p ensures p in ps <==> p in accepted {
      if p in accepted { PickedAll(s, b, order, ps, p); }
    }
  }

  /** Two stores that differ at most in the order of entries about different contacts. */
  ghost predicate SameButOrder(t: Store, u: Store) {
    && t.contacts == u.contacts && t.uniq == u.uniq
    && t.fields == u.fields && t.nextField == u.nextField && t.lists == u.lists && t.members == u.members
    && t.relational == u.relational && t.links == u.links && t.requests == u.requests
    && forall c :: SameLog(t, u, c)
  }

  lemma WroteSame(s: Store, b: Batch, ps: seq<Pending>, qs: seq<Pending>, t: Store, u: Store)
    requires Applied(s, ps, t) && Logged(s, ps, t, b.source, b.explicit) && IndexAgrees(t)
    requires Applied(s, qs, u) && Logged(s, qs, u, b.source, b.explicit) && IndexAgrees(u)
    requires forall p :: p in ps <==> p in qs
    ensures SameButOrder(t, u)
  {
    AppliedSame(s, ps, qs, t, u);
    forall c ensures SameLog(t, u, c) {
      LoggedSame(s, ps, qs, t, u, b.source, b.explicit, c);
    }
  }

  /**
   Main result: the batch leaves every table as its accepted items leave it when each is sent alone,
   in any order, consent entries and events included, contact by contact; and every one of those
   calls gives the answer the batch gave it.
   */
  lemma BatchIsOneByOne(s: Store, b: Batch, order: seq<nat>)
    requires Callable(s, b) && ListsAccepted(s, b, order)
    ensures forall k :: 0 <= k < |order| ==> order[k] < |b.items|
    ensures Attempt(s, b).Finished?
    ensures SameButOrder(OneByOne(s, b, order).store, Attempt(s, b).store)
    ensures |OneByOne(s, b, order).answers| == |order|
    ensures forall k :: 0 <= k < |order| ==>
      OneByOne(s, b, order).answers[k] == Attempt(s, b).results[order[k]].(index := 0)
  {
    var accepted := Accepted(s, LiveFields(s.fields), b, s.nextField);
    var ps := OneByOneWrites(s, b, order, accepted);
    AttemptApplies(s, b);
    WroteSame(s, b, ps, accepted, OneByOne(s, b, order).store, Attempt(s, b).store);
    AnswersMatch(s, b, order, ps);
  }

  lemma AnswersMatch(s: Store, b: Batch, order: seq<nat>, ps: seq<Pending>)
    requires InOrder(s, b, order, ps)
    ensures forall k :: 0 <= k < |order| ==> order[k] < |b.items|
    ensures forall k :: 0 <= k < |order| ==>
      AnswersTo(s, ps)[k] == Results(s, LiveFields(s.fields), b, s.nextField)[order[k]].(index := 0)
  {
    forall k | 0 <= k < |order|
      ensures order[k] < |b.items|
      ensures AnswersTo(s, ps)[k] == Results(s, LiveFields(s.fields), b, s.nextField)[order[k]].(index := 0)
    {
      AcceptedAnswer(s, b, ps[k]);
    }
  }

  /** A call writes the items it accepts and leaves everything else alone. */
  lemma AttemptApplies(s: Store, b: Batch)
    requires Callable(s, b)
    ensures Attempt(s, b).Finished? && Consistent(Attempt(s, b).store)
    ensures Applied(s, Accepted(s, LiveFields(s.fields), b, s.nextField), Attempt(s, b).store)
    ensures Logged(s, Accepted(s, LiveFields(s.fields), b, s.nextField), Attempt(s, b).store, b.source, b.explicit)
  {
    var accepted := Accepted(s, LiveFields(s.fields), b, s.nextField);
    ValidationIsComplete(s, b);
    AcceptedSound(s, b);
    if accepted != [] {
      CommitApplies(s, accepted, b.source, b.explicit, Attempt(s, b).store);
      CommitLogs(s, accepted, b.source, b.explicit, Attempt(s, b).store);
    } else {
      AppliedNone(s);
      LoggedNone(s, b.source, b.explicit);
    }
  }
}
