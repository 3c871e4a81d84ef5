/**
 Every run of transactions on a tenant's tables, interleaved in any order, keeps them consistent; and what
 an erasure leaves to come. Relational upserts and access requests look a contact up in one transaction and
 write in another.
 */
module TenantRuns {
  import opened Wrappers
  import opened Text
  import opened FieldValues
  import opened Tables
  import opened BatchCommit
  import opened CommitInvariant
  import opened KeyResolver
  import opened TenantOps
  import Gdpr

  datatype Op =
    | Write(defs: map<nat, FieldDef>, items: seq<Pending>, source: string, explicit: Option<ConsentInput>)
    | DeleteContacts(ids: seq<Id>)
    | CreateList(list: ListId)
    | ChangeList(list: ListId, ids: seq<Id>, add: bool)
    | RemoveList(list: ListId, members: seq<Id>)
    | CreateField(fieldType: FieldType, choices: set<OptionId>, unique: bool)
    | RemoveField(field: nat)
    | PurgeField(field: nat)
    | DropTable(table: nat)
    | AddLink(link: string, contact: Id)
    | ClaimRequest(request: RequestId)
    | ProcessRequest(request: RequestId, subject: string, doc: string)

  /**
   What the code around a transaction guarantees: known fields, unused IDs, purge after removal; and a link's foreign
   key.
   */
  ghost predicate Enabled(s: Store, op: Op) {
    match op
    case Write(defs, items, _, _) => forall i :: 0 <= i < |items| ==> Ready(s, defs, items[i])
    case RemoveList(l, gone) => IsMembers(s.members, l, gone) && forall i :: 0 <= i < |gone| ==> gone[i] in s.contacts
    case PurgeField(f) => f in s.fields && s.fields[f].deleted
    case AddLink(_, c) => c in s.contacts
    case _ => true
  }

  function OrElse(r: Option<Store>, s: Store): Store {
    if r.Some? then r.value else s
  }

  /** A transaction commits or leaves the tables as they were. */
  ghost function Step(s: Store, op: Op): Store
    requires Enabled(s, op)
  {
    match op
    case Write(defs, items, source, explicit) => OrElse(Commit(s, defs, items, source, explicit), s)
    case DeleteContacts(ids) => SoftDelete(s, ids)
    case CreateList(l) => ListCreate(s, l)
    case ChangeList(l, ids, add) => OrElse(ListChange(s, l, ids, add), s)
    case RemoveList(l, gone) => OrElse(ListRemove(s, l, gone), s)
    case CreateField(fieldType, choices, unique) => FieldCreate(s, fieldType, choices, unique)
    case RemoveField(f) => OrElse(FieldRemove(s, f), s)
    case PurgeField(f) => Purge(s, f)
    case DropTable(table) => s.(relational := set r | r in s.relational && r.table != table)
    case AddLink(a, c) => s.(links := s.links[a := c])
    case ClaimRequest(q) => Gdpr.Claim(s, q)
    case ProcessRequest(q, subject, doc) => Gdpr.Process(s, q, subject, doc)
  }

  lemma StepKeepsConsistent(s: Store, op: Op)
    requires Consistent(s) && Enabled(s, op)
    ensures Consistent(Step(s, op))
  {
    match op
    case Write(defs, items, source, explicit) =>
      if Commit(s, defs, items, source, explicit).Some? { CommitKeepsConsistent(s, defs, items, source, explicit); }
    case DeleteContacts(ids) => SoftDeleteKeepsConsistent(s, ids);
    case CreateList(l) => ListCreateKeepsConsistent(s, l);
    case ChangeList(l, ids, add) => if l in s.lists { ListChangeKeepsConsistent(s, l, ids, add); }
    case RemoveList(l, gone) => if l in s.lists { ListRemoveKeepsConsistent(s, l, gone); }
    case CreateField(fieldType, choices, unique) => FieldCreateKeepsConsistent(s, fieldType, choices, unique);
    case RemoveField(f) => if FieldRemove(s, f).Some? { FieldRemoveKeepsConsistent(s, f); }
    case PurgeField(f) => PurgeKeepsConsistent(s, f);
    case _ => SideStepKeepsConsistent(s, op);
  }

  lemma SideStepKeepsConsistent(s: Store, op: Op)
    requires Consistent(s) && Enabled(s, op)
    requires op.DropTable? || op.AddLink? || op.ClaimRequest? || op.ProcessRequest?
    ensures Consistent(Step(s, op))
  {
    if op.ClaimRequest? {
      Gdpr.ClaimKeepsConsistent(s, op.request);
    } else if op.ProcessRequest? {
      Gdpr.ProcessKeepsConsistent(s, op.request, op.subject, op.doc);
    } else {
      Gdpr.SideTables(s, Step(s, op));
    }
  }

  // ---- calls of two transactions

  type CallId = nat

  /** What a call has found in its first transaction and is about to write in its second. */
  datatype Flight = Rows(rows: set<RelationalRow>) | Asking(contact: Id, kind: RequestKind)

  datatype Run = Run(store: Store, flights: map<CallId, Flight>)

  datatype Action =
    | Transact(op: Op)
    | FindRowContacts(call: CallId, rows: set<RelationalRow>)
    | WriteRows(call: CallId)
    | FindContact(call: CallId, contact: Id, kind: RequestKind)
    | CreateRequest(call: CallId, request: RequestId)
    | GiveUp(call: CallId)

  function Idle(s: Store): Run {
    Run(s, map[])
  }

  /** Contacts are looked up before they are written, and nothing looks again. */
  ghost predicate Possible(s: Run, a: Action) {
    match a
    case Transact(op) => Enabled(s.store, op)
    case FindRowContacts(call, rows) =>
      call !in s.flights && forall r :: r in rows ==> Live(s.store.contacts, r.contact)
    case WriteRows(call) => call in s.flights && s.flights[call].Rows?
    case FindContact(call, c, _) => call !in s.flights && c in s.store.contacts
    case CreateRequest(call, q) => call in s.flights && s.flights[call].Asking? && q !in s.store.requests
    case GiveUp(call) => call in s.flights
  }

  ghost function Moved(s: Run, a: Action): Run
    requires Possible(s, a)
  {
    match a
    case Transact(op) => s.(store := Step(s.store, op))
    case FindRowContacts(call, rows) => s.(flights := s.flights[call := Rows(rows)])
    case WriteRows(call) =>
      Run(s.store.(relational := s.store.relational + s.flights[call].rows), s.flights - {call})
    case FindContact(call, c, kind) => s.(flights := s.flights[call := Asking(c, kind)])
    case CreateRequest(call, q) =>
      Run(Gdpr.WithRequest(s.store, q, s.flights[call].contact, s.flights[call].kind), s.flights - {call})
    case GiveUp(call) => s.(flights := s.flights - {call})
  }

  lemma MoveKeepsConsistent(s: Run, a: Action)
    requires Consistent(s.store) && Possible(s, a)
    ensures Consistent(Moved(s, a).store)
  {
    if a.Transact? {
      StepKeepsConsistent(s.store, a.op);
    } else {
      Gdpr.SideTables(s.store, Moved(s, a).store);
    }
  }

  /** `t` is reached from `s` by these actions, each possible when it was taken. */
  ghost predicate Leads(s: Run, actions: seq<Action>, t: Run)
    decreases actions
  {
    if actions == [] then t == s
    else Possible(s, actions[0]) && Leads(Moved(s, actions[0]), actions[1..], t)
  }

  lemma OneAction(s: Run, a: Action)
    requires Possible(s, a)
    ensures Leads(s, [a], Moved(s, a))
  {
    assert [a][1..] == [];
  }

  /** The two transactions of a request about `c`, with no other between them, leave `t`. */
  ghost predicate AskedAlone(s: Store, q: RequestId, c: Id, kind: RequestKind, t: Store) {
    Leads(Idle(s), [FindContact(0, c, kind), CreateRequest(0, q)], Idle(t))
  }

  lemma AskingAlone(s: Store, q: RequestId, c: Id, kind: RequestKind)
    requires c in s.contacts && q !in s.requests
    ensures AskedAlone(s, q, c, kind, Gdpr.WithRequest(s, q, c, kind))
  {
    var asked := Moved(Idle(s), FindContact(0, c, kind));
    assert asked.flights - {0} == map[];
    OneAction(asked, CreateRequest(0, q));
    assert [FindContact(0, c, kind), CreateRequest(0, q)][1..] == [CreateRequest(0, q)];
  }

  /** A new tenant: the system fields and nothing else. */
  ghost predicate Fresh(s: Store) {
    SystemFields(s) && s.contacts == map[] && s.uniq == map[] && s.members == {} && s.consents == [] && s.events == []
  }

  /** Main result: all runs from a new tenant keep index, unique values, consent history and snapshots consistent. */
  lemma {:induction false} RunsKeepConsistent(s: Run, actions: seq<Action>, t: Run)
    requires Consistent(s.store) && Leads(s, actions, t)
    ensures Consistent(t.store)
    decreases actions
  {
    if actions != [] {
      MoveKeepsConsistent(s, actions[0]);
      RunsKeepConsistent(Moved(s, actions[0]), actions[1..], t);
    }
  }

  lemma FreshIsConsistent(s: Store)
    requires Fresh(s)
    ensures Consistent(s)
  {
  }

  /** In every reachable state, resolving a unique value finds what a scan of the live contacts would. */
  lemma ReachableLookup(s: Store, actions: seq<Action>, t: Run, f: nat, v: string, c: Id)
    requires Fresh(s) && Leads(Idle(s), actions, t) && UniqueField(t.store, f) && !Blank(v)
    ensures Lookup(t.store, FieldKey(f), v) == Some(c) <==>
      Live(t.store.contacts, c) && UniqueText(t.store.contacts[c].data, f) == Some(JsNorm(f, v))
  {
    FreshIsConsistent(s);
    RunsKeepConsistent(Idle(s), actions, t);
    LookupIsScan(t.store, f, v, c);
  }

  // ---- what an erasure leaves to come

  /** The operation gives no new row the ID of `c`, as no two calls of `uuidv7()` return the same. */
  predicate NotReusing(op: Op, c: Id) {
    op.Write? ==> forall i :: 0 <= i < |op.items| && op.items[i].created ==> op.items[i].id != c
  }

  ghost predicate Gone(s: Store, c: Id) {
    Unnamed(s, c) && Consistent(s)
  }

  lemma WriteKeepsUnnamed(
      s: Store, defs: map<nat, FieldDef>, ps: seq<Pending>, source: string, explicit: Option<ConsentInput>, c: Id)
    requires Gone(s, c) && Commit(s, defs, ps, source, explicit).Some?
    requires forall i :: 0 <= i < |ps| ==> Ready(s, defs, ps[i]) && (ps[i].created ==> ps[i].id != c)
    ensures Unnamed(Commit(s, defs, ps, source, explicit).value, c)
  {
    var r := Commit(s, defs, ps, source, explicit).value;
    var changes := BatchChanges(s.contacts, ps, source);
    CommitKeepsConsistent(s, defs, ps, source, explicit);
    NotNamed(s, ps, source, c);
    RowKept(s.contacts, changes, c);
    ConsentRowsOf(changes, explicit, c);
  }

  lemma NotNamed(s: Store, ps: seq<Pending>, source: string, c: Id)
    requires c !in s.contacts && RowsFound(s.contacts, Existing(ps))
    requires forall i :: 0 <= i < |ps| && ps[i].created ==> ps[i].id != c
    ensures !Names(BatchChanges(s.contacts, ps, source), c)
  {
    UpdatesExist(s.contacts, Existing(ps), source);
    forall i | 0 <= i < |New(ps)| ensures New(ps)[i].id != c {
      NewHas(ps, New(ps)[i]);
    }
  }

  lemma {:induction false} UpdatesExist(contacts: map<Id, Contact>, ps: seq<Pending>, source: string)
    requires forall i :: 0 <= i < |ps| ==> ps[i].id in contacts
    ensures forall i :: 0 <= i < |UpdateChanges(contacts, ps, source)| ==>
      UpdateChanges(contacts, ps, source)[i].contact in contacts
  {
    if ps != [] { UpdatesExist(contacts, ps[..|ps| - 1], source); }
  }

  lemma {:induction false} ConsentRowsOf(changes: seq<Change>, explicit: Option<ConsentInput>, c: Id)
    requires !Names(changes, c)
    ensures forall i :: 0 <= i < |ConsentRows(changes, explicit)| ==> ConsentRows(changes, explicit)[i].contact != c
  {
    if changes != [] {
      var n := |changes| - 1;
      assert changes[n].contact != c;
      assert !Names(changes[..n], c);
      ConsentRowsOf(changes[..n], explicit, c);
      ConsentRowsByName(changes[n], changes[n].changed, explicit);
    }
  }

  lemma ChangeKeepsUnnamed(s: Store, l: ListId, ids: seq<Id>, add: bool, c: Id)
    requires Gone(s, c) && l in s.lists
    ensures Unnamed(ListChange(s, l, ids, add).value, c)
  {
    ListChangeKeepsConsistent(s, l, ids, add);
  }

  lemma SideStepKeepsUnnamed(s: Store, op: Op, c: Id)
    requires Unnamed(s, c) && Enabled(s, op)
    requires !(op.Write? || op.ChangeList? || op.ProcessRequest?)
    ensures Unnamed(Step(s, op), c)
  {
  }

  lemma StepKeepsUnnamed(s: Store, op: Op, c: Id)
    requires Gone(s, c) && Enabled(s, op) && NotReusing(op, c)
    ensures Unnamed(Step(s, op), c)
  {
    match op
    case Write(defs, items, source, explicit) =>
      if Commit(s, defs, items, source, explicit).Some? {
        WriteKeepsUnnamed(s, defs, items, source, explicit, c);
      }
    case ChangeList(l, ids, add) =>
      if l in s.lists {
        ChangeKeepsUnnamed(s, l, ids, add, c);
      }
    case ProcessRequest(q, subject, doc) => Gdpr.ProcessKeepsUnnamed(s, q, subject, doc, c);
    case _ => SideStepKeepsUnnamed(s, op, c);
  }

  /** No transaction adds a relational row of `c`, and only dropping its table takes one away. */
  lemma StepKeepsRows(s: Store, op: Op, r: RelationalRow)
    requires Unnamed(s, r.contact) && Enabled(s, op)
    ensures r in Step(s, op).relational <==> r in s.relational && !(op.DropTable? && op.table == r.table)
  {
    if op.ProcessRequest? {
      Gdpr.ProcessKeepsUnnamed(s, op.request, op.subject, op.doc, r.contact);
    }
  }

  /** The call has looked up `c`. */
  predicate About(f: Flight, c: Id) {
    match f
    case Rows(rows) => exists r :: r in rows && r.contact == c
    case Asking(d, _) => d == c
  }

  /** A relational upsert or a request is between the look-up of `c` and its write. */
  ghost predicate InFlight(s: Run, c: Id) {
    exists call :: call in s.flights && About(s.flights[call], c)
  }

  ghost predicate NeverReused(actions: seq<Action>, c: Id) {
    forall i :: 0 <= i < |actions| && actions[i].Transact? ==> NotReusing(actions[i].op, c)
  }

  /** Nothing that may happen from here on brings anything of `c` back. */
  ghost predicate ErasedForGood(s: Run, c: Id) {
    forall actions, t :: Leads(s, actions, t) && NeverReused(actions, c) ==> Erased(t.store, c)
  }

  /** A request that has looked up `c` is still to come. */
  ghost predicate Asked(s: Run, c: Id) {
    exists call :: call in s.flights && s.flights[call].Asking? && s.flights[call].contact == c
  }

  lemma MoveKeepsUnnamed(s: Run, a: Action, c: Id)
    requires Gone(s.store, c) && !Asked(s, c) && Possible(s, a) && (a.Transact? ==> NotReusing(a.op, c))
    ensures Gone(Moved(s, a).store, c) && !Asked(Moved(s, a), c)
  {
    MoveKeepsConsistent(s, a);
    if a.Transact? {
      StepKeepsUnnamed(s.store, a.op, c);
    }
  }

  lemma MoveKeepsErased(s: Run, a: Action, c: Id)
    requires Gone(s.store, c) && Erased(s.store, c) && !InFlight(s, c)
    requires Possible(s, a) && (a.Transact? ==> NotReusing(a.op, c))
    ensures Gone(Moved(s, a).store, c) && Erased(Moved(s, a).store, c) && !InFlight(Moved(s, a), c)
  {
    MoveKeepsUnnamed(s, a, c);
    forall r | r in Moved(s, a).store.relational ensures r.contact != c {
      if a.Transact? && r.contact == c {
        StepKeepsRows(s.store, a.op, r);
      } else if a.WriteRows? {
        assert !About(s.flights[a.call], c);
      }
    }
  }

  lemma {:induction false} StaysErased(s: Run, actions: seq<Action>, t: Run, c: Id)
    requires Gone(s.store, c) && Erased(s.store, c) && !InFlight(s, c)
    requires Leads(s, actions, t) && NeverReused(actions, c)
    ensures Erased(t.store, c)
    decreases actions
  {
    if actions != [] {
      MoveKeepsErased(s, actions[0], c);
      NeverReusedAfter(actions, c);
      StaysErased(Moved(s, actions[0]), actions[1..], t, c);
    }
  }

  lemma NeverReusedAfter(actions: seq<Action>, c: Id)
    requires actions != [] && NeverReused(actions, c)
    ensures NeverReused(actions[1..], c)
  {
    forall i | 0 <= i < |actions| - 1 && actions[1..][i].Transact? ensures NotReusing(actions[1..][i].op, c) {
      assert actions[1..][i] == actions[i + 1];
    }
  }

  lemma UnusedRequest(ids: set<RequestId>) returns (q: RequestId)
    ensures forall x :: x in ids ==> x < q
  {
    q := 0;
    if x :| x in ids {
      q := UnusedRequest(ids - {x});
      q := if x < q then q else x + 1;
      assert forall y :: y in ids ==> y == x || y in ids - {x};
    }
  }

  /** Whatever has looked `c` up can still write it. */
  lemma FlightLands(s: Run, c: Id) returns (a: Action)
    requires InFlight(s, c)
    ensures Possible(s, a) && !a.Transact? && !Erased(Moved(s, a).store, c)
  {
    var call :| call in s.flights && About(s.flights[call], c);
    match s.flights[call]
    case Rows(rows) =>
      a := WriteRows(call);
      var r :| r in rows && r.contact == c;
      assert r in Moved(s, a).store.relational;
    case Asking(_, _) =>
      var q := UnusedRequest(s.store.requests.Keys);
      a := CreateRequest(call, q);
      assert Moved(s, a).store.requests[q].contact == Some(c);
  }

  lemma NotForGood(s: Run, c: Id)
    requires InFlight(s, c)
    ensures !ErasedForGood(s, c)
  {
    var a := FlightLands(s, c);
    OneAction(s, a);
    assert Leads(s, [a], Moved(s, a)) && NeverReused([a], c);
  }

  /**
   Main result, exact: once a forget request has been processed nothing names the contact, and no
   continuation of the run brings anything of it back, if and only if no relational upsert or request
   that had looked it up was in flight when the erasure committed.
   */
  lemma ErasureIsPermanentExactly(s: Run, q: RequestId, c: Id, subject: string, doc: string)
    requires Consistent(s.store) && Gdpr.Open(s.store, q)
    requires s.store.requests[q].kind == Forget && s.store.requests[q].contact == Some(c)
    ensures var t := Moved(s, Transact(ProcessRequest(q, subject, doc)));
      Erased(t.store, c) && (ErasedForGood(t, c) <==> !InFlight(s, c))
  {
    var t := Moved(s, Transact(ProcessRequest(q, subject, doc)));
    Gdpr.ProcessForgets(s.store, q, c, subject, doc);
    Gdpr.ProcessKeepsConsistent(s.store, q, subject, doc);
    if InFlight(s, c) {
      assert InFlight(t, c);
      NotForGood(t, c);
    } else {
      forall actions, u | Leads(t, actions, u) && NeverReused(actions, c) ensures Erased(u.store, c) {
        StaysErased(t, actions, u, c);
      }
    }
  }

  // ---- a row that outlives its contact

  /** An upsert that finds the contact before its erasure and writes after it. */
  function Outliving(call: CallId, row: RelationalRow, q: RequestId, subject: string, doc: string): seq<Action> {
    [FindRowContacts(call, {row}), Transact(ProcessRequest(q, subject, doc)), WriteRows(call)]
  }

  /** It leaves a row of a contact that is no more. */
  lemma RowOutlivesContact(s: Run, call: CallId, row: RelationalRow, q: RequestId, subject: string, doc: string)
    returns (t: Run)
    requires Consistent(s.store) && call !in s.flights && Live(s.store.contacts, row.contact) && Gdpr.Open(s.store, q)
    requires s.store.requests[q].kind == Forget && s.store.requests[q].contact == Some(row.contact)
    ensures Leads(s, Outliving(call, row, q, subject, doc), t) && t.flights == s.flights
    ensures Gone(t.store, row.contact) && row in t.store.relational
  {
    var erased := Gdpr.Process(s.store, q, subject, doc);
    Gdpr.ProcessForgets(s.store, q, row.contact, subject, doc);
    Gdpr.ProcessKeepsConsistent(s.store, q, subject, doc);
    t := Run(erased.(relational := erased.relational + {row}), s.flights);
    Gdpr.SideTables(erased, t.store);
    OutlivingLeads(s, call, row, q, subject, doc, erased, t);
  }

  lemma OutlivingLeads(
    s: Run, call: CallId, row: RelationalRow, q: RequestId, subject: string, doc: string, erased: Store, t: Run)
    requires call !in s.flights && Live(s.store.contacts, row.contact)
    requires erased == Gdpr.Process(s.store, q, subject, doc)
    requires t == Run(erased.(relational := erased.relational + {row}), s.flights)
    ensures Leads(s, Outliving(call, row, q, subject, doc), t)
  {
    var actions := Outliving(call, row, q, subject, doc);
    var flights := s.flights[call := Rows({row})];
    assert Moved(s, actions[0]) == Run(s.store, flights);
    assert Moved(Run(s.store, flights), actions[1]) == Run(erased, flights);
    assert flights - {call} == s.flights;
    OneAction(Run(erased, flights), actions[2]);
    assert actions[1..][1..] == [actions[2]];
  }

  predicate Drops(a: Action, table: nat) {
    a.Transact? && a.op == DropTable(table)
  }

  lemma MoveKeepsRow(s: Run, a: Action, row: RelationalRow)
    requires Unnamed(s.store, row.contact) && row in s.store.relational && Possible(s, a) && !Drops(a, row.table)
    ensures row in Moved(s, a).store.relational
  {
    if a.Transact? {
      StepKeepsRows(s.store, a.op, row);
    }
  }

  /** Once there, it stays until its table is dropped: no later erasure can name the contact. */
  lemma {:induction false} StrayRowStays(s: Run, actions: seq<Action>, t: Run, row: RelationalRow)
    requires Gone(s.store, row.contact) && row in s.store.relational && !Asked(s, row.contact)
    requires Leads(s, actions, t) && NeverReused(actions, row.contact)
    requires forall i :: 0 <= i < |actions| ==> !Drops(actions[i], row.table)
    ensures row in t.store.relational && row.contact !in t.store.contacts
    decreases actions
  {
    if actions != [] {
      MoveKeepsUnnamed(s, actions[0], row.contact);
      MoveKeepsRow(s, actions[0], row);
      NeverReusedAfter(actions, row.contact);
      assert forall i :: 0 <= i < |actions| - 1 ==> actions[1..][i] == actions[i + 1];
      StrayRowStays(Moved(s, actions[0]), actions[1..], t, row);
    }
  }
}
