/** What a transaction adds to the consent history and the outbox, contact by contact. */
module ContactLog {
  import opened Wrappers
  import opened Tables
  import opened BatchCommit
  import opened CommitInvariant

  function Only<T>(rows: seq<T>, mine: T -> bool): seq<T> {
    if rows == [] then []
    else Only(rows[..|rows| - 1], mine) + (if mine(rows[|rows| - 1]) then [rows[|rows| - 1]] else [])
  }

  /** The history of one contact, in commit order. */
  function ConsentsOf(history: seq<Consent>, c: Id): seq<Consent> {
    Only(history, (row: Consent) => row.contact == c)
  }

  /** The events about one contact, in commit order. */
  function EventsOf(events: seq<Event>, c: Id): seq<Event> {
    Only(events, (e: Event) => e.contact == c)
  }

  lemma {:induction false} OnlyConcat<T>(a: seq<T>, b: seq<T>, mine: T -> bool)
    ensures Only(a + b, mine) == Only(a, mine) + Only(b, mine)
  {
    if b == [] {
      assert a + b == a;
    } else {
      var n := |b| - 1;
      OnlyConcat(a, b[..n], mine);
      assert (a + b)[..|a| + n] == a + b[..n];
    }
  }

  lemma {:induction false} OnlyAll<T>(rows: seq<T>, mine: T -> bool)
    requires forall i :: 0 <= i < |rows| ==> mine(rows[i])
    ensures Only(rows, mine) == rows
  {
    if rows != [] {
      OnlyAll(rows[..|rows| - 1], mine);
    }
  }

  lemma {:induction false} OnlyNone<T>(rows: seq<T>, mine: T -> bool)
    requires forall i :: 0 <= i < |rows| ==> !mine(rows[i])
    ensures Only(rows, mine) == []
  {
    if rows != [] {
      OnlyNone(rows[..|rows| - 1], mine);
    }
  }

  // ---- consents

  /** The change of contact `c`, if there is one. */
  ghost function ChangeAbout(changes: seq<Change>, c: Id): Option<Change> {
    if changes == [] then None
    else if changes[|changes| - 1].contact == c then Some(changes[|changes| - 1])
    else ChangeAbout(changes[..|changes| - 1], c)
  }

  lemma {:induction false} ChangeAboutIs(changes: seq<Change>, i: nat)
    requires DistinctContacts(changes) && i < |changes|
    ensures ChangeAbout(changes, changes[i].contact) == Some(changes[i])
  {
    var n := |changes| - 1;
    if i < n {
      ChangeAboutIs(changes[..n], i);
    }
  }

  lemma {:induction false} NoChangeAbout(changes: seq<Change>, c: Id)
    requires !Names(changes, c)
    ensures ChangeAbout(changes, c).None?
  {
    if changes != [] {
      var n := |changes| - 1;
      assert changes[n].contact != c;
      assert !Names(changes[..n], c);
      NoChangeAbout(changes[..n], c);
    }
  }

  function RowsOf(c: Option<Change>, explicit: Option<ConsentInput>): seq<Consent> {
    if c.None? then [] else ConsentRowsBy(c.value, c.value.changed, explicit)
  }

  lemma RowsByContact(c: Change, explicit: Option<ConsentInput>, x: Id)
    ensures ConsentsOf(ConsentRowsBy(c, c.changed, explicit), x) ==
      if c.contact == x then ConsentRowsBy(c, c.changed, explicit) else []
  {
    ConsentRowsByName(c, c.changed, explicit);
    if c.contact == x {
      OnlyAll(ConsentRowsBy(c, c.changed, explicit), (row: Consent) => row.contact == x);
    } else {
      OnlyNone(ConsentRowsBy(c, c.changed, explicit), (row: Consent) => row.contact == x);
    }
  }

  /** The hook's rows about a contact are those of its own change. */
  lemma {:induction false} ConsentsOfRows(changes: seq<Change>, explicit: Option<ConsentInput>, x: Id)
    requires DistinctContacts(changes)
    ensures ConsentsOf(ConsentRows(changes, explicit), x) == RowsOf(ChangeAbout(changes, x), explicit)
  {
    if changes != [] {
      var n := |changes| - 1;
      var c := changes[n];
      ConsentsOfRows(changes[..n], explicit, x);
      RowsByContact(c, explicit, x);
      OnlyConcat(
        ConsentRows(changes[..n], explicit), ConsentRowsBy(c, c.changed, explicit), (row: Consent) => row.contact == x);
      if c.contact == x {
        assert !Names(changes[..n], x);
        NoChangeAbout(changes[..n], x);
      }
    }
  }

  // ---- events

  lemma {:induction false} EventsOfConsents(rows: seq<Consent>, x: Id)
    ensures EventsOf(ConsentEvents(rows), x) == ConsentEvents(ConsentsOf(rows, x))
  {
    if rows != [] {
      var n := |rows| - 1;
      EventsOfConsents(rows[..n], x);
      assert ConsentEvents(rows)[..n] == ConsentEvents(rows[..n]);
      if rows[n].contact == x {
        assert ConsentEvents(ConsentsOf(rows[..n], x) + [rows[n]]) ==
          ConsentEvents(ConsentsOf(rows[..n], x)) + ConsentEvents([rows[n]]);
      }
    }
  }

  ghost function SnapshotAbout(contacts: map<Id, Contact>, members: set<(ListId, Id)>, c: Option<Change>): seq<Event>
    requires c.Some? ==> c.value.contact in contacts
  {
    if c.None? then [] else [SnapshotOf(contacts, members, c.value.contact, c.value.changed)]
  }

  lemma {:induction false} ChangeAboutListed(changes: seq<Change>, x: Id)
    ensures ChangeAbout(changes, x).Some? ==>
      ChangeAbout(changes, x).value in changes && ChangeAbout(changes, x).value.contact == x
  {
    if changes != [] {
      ChangeAboutListed(changes[..|changes| - 1], x);
    }
  }

  lemma {:induction false} EventsOfSnapshots(
      contacts: map<Id, Contact>, members: set<(ListId, Id)>, changes: seq<Change>, x: Id)
    requires DistinctContacts(changes) && forall i :: 0 <= i < |changes| ==> changes[i].contact in contacts
    ensures ChangeAbout(changes, x).Some? ==> ChangeAbout(changes, x).value.contact in contacts
    ensures EventsOf(Snapshots(contacts, members, changes), x) ==
      SnapshotAbout(contacts, members, ChangeAbout(changes, x))
  {
    ChangeAboutListed(changes, x);
    if changes != [] {
      var n := |changes| - 1;
      EventsOfSnapshots(contacts, members, changes[..n], x);
      assert Snapshots(contacts, members, changes)[..n] == Snapshots(contacts, members, changes[..n]);
      if changes[n].contact == x {
        assert !Names(changes[..n], x);
        NoChangeAbout(changes[..n], x);
      }
    }
  }

  /** The events of a transaction about a contact: those of its consents, then its snapshot. */
  lemma EventsOfCommit(
      contacts: map<Id, Contact>, members: set<(ListId, Id)>, changes: seq<Change>, explicit: Option<ConsentInput>,
      x: Id)
    requires DistinctContacts(changes) && forall i :: 0 <= i < |changes| ==> changes[i].contact in contacts
    ensures ChangeAbout(changes, x).Some? ==> ChangeAbout(changes, x).value.contact in contacts
    ensures EventsOf(ConsentEvents(ConsentRows(changes, explicit)) + Snapshots(contacts, members, changes), x) ==
      ConsentEvents(RowsOf(ChangeAbout(changes, x), explicit)) +
        SnapshotAbout(contacts, members, ChangeAbout(changes, x))
  {
    ConsentsOfRows(changes, explicit, x);
    EventsOfConsents(ConsentRows(changes, explicit), x);
    EventsOfSnapshots(contacts, members, changes, x);
    OnlyConcat(
      ConsentEvents(ConsentRows(changes, explicit)), Snapshots(contacts, members, changes),
      (e: Event) => e.contact == x);
  }
}
