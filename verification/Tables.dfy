/**
 The tables of the `contacts` schema for one tenant, and what has to hold of them between
 transactions. `uniq` is the secondary index `unique_values`, `events` everything ever inserted in
 the outbox and `consents` the append-only history, both in commit order.
 */
module Tables {
  import opened Wrappers
  import opened Text
  import opened FieldValues

  /** Text of a UUID, as PostgreSQL prints it. */
  type Id = string
  type ListId = nat
  type RequestId = nat
  type Data = map<nat, Value>

  datatype Contact = Contact(data: Data, version: nat, deleted: bool)

  datatype Channel = ByEmail | BySms | ByPush

  datatype Consent = Consent(
    contact: Id,
    channel: Channel,
    value: Option<Value>,
    source: string,
    text: Option<string>,
    actor: Option<string>)

  datatype Event =
    | Upserted(contact: Id, version: nat, data: Data, changed: seq<nat>, lists: set<ListId>)
    | Deleted(contact: Id, reason: string)
    | ConsentChanged(contact: Id, channel: Channel, value: Option<Value>, source: string, text: Option<string>)

  datatype RequestKind = Export | Forget
  datatype RequestStatus = RequestPending | RequestRunning | RequestDone | RequestFailed
  /** `subject` is the hash kept once the contact is forgotten; `result` the key of the export document. */
  datatype Request = Request(
    contact: Option<Id>,
    subject: Option<string>,
    kind: RequestKind,
    status: RequestStatus,
    result: Option<string>)

  /** A row of a relational table by its primary key. */
  datatype RelationalRow = RelationalRow(table: nat, contact: Id, key: string)

  datatype Store = Store(
    contacts: map<Id, Contact>,
    uniq: map<(nat, string), Id>,
    fields: map<nat, FieldDef>,
    nextField: nat,
    lists: set<ListId>,
    members: set<(ListId, Id)>,
    consents: seq<Consent>,
    events: seq<Event>,
    relational: set<RelationalRow>,
    links: map<string, Id>,
    requests: map<RequestId, Request>)

  // ---- rows

  predicate Live(contacts: map<Id, Contact>, c: Id) {
    c in contacts && !contacts[c].deleted
  }

  function At(d: Data, f: nat): Option<Value> {
    if f in d then Some(d[f]) else None
  }

  predicate IsColumn(f: nat) {
    f == EMAIL || f == EXTERNAL_ID
  }

  /** The generated columns `email_norm` (field 3) and `external_id` (field 4). */
  function Column(d: Data, f: nat): Option<string> {
    if f !in d || PgNorm(f, Str(d[f])) == "" then None else Some(PgNorm(f, Str(d[f])))
  }

  /** The row a custom unique field asks for in `unique_values`. */
  function Entry(d: Data, f: nat): Option<string> {
    if f !in d || Blank(Str(d[f])) then None else Some(Str(d[f]))
  }

  /** The registry: definitions that are not deleted. */
  function LiveFields(fields: map<nat, FieldDef>): map<nat, FieldDef> {
    map f | f in fields && !fields[f].deleted :: fields[f]
  }

  /** Fields kept in `unique_values` (3 and 4 are indexed columns). */
  predicate Synced(defs: map<nat, FieldDef>, f: nat) {
    f in defs && defs[f].unique && !defs[f].deleted && !IsColumn(f)
  }

  function ListsOf(members: set<(ListId, Id)>, c: Id): set<ListId> {
    set m | m in members && m.1 == c :: m.0
  }

  // ---- consents

  function ConsentField(ch: Channel): nat {
    match ch case ByEmail => 31 case BySms => 32 case ByPush => 33
  }

  /** The value of a channel replayed from the history: that of its last entry. */
  function Replayed(history: seq<Consent>, c: Id, ch: Channel): Option<Value> {
    if history == [] then None
    else
      var last := history[|history| - 1];
      if last.contact == c && last.channel == ch then last.value else Replayed(history[..|history| - 1], c, ch)
  }

  /** Every entry of the channel differs from the one before it, and the first from "unknown". */
  predicate Alternates(history: seq<Consent>, c: Id, ch: Channel) {
    history != [] ==>
      var n := |history| - 1;
      && (history[n].contact == c && history[n].channel == ch ==> history[n].value != Replayed(history[..n], c, ch))
      && Alternates(history[..n], c, ch)
  }

  // ---- snapshots

  /** The last `contacts.upserted` of a contact. */
  function LastSnapshot(events: seq<Event>, c: Id): (e: Option<Event>)
    ensures e.Some? ==> e.value.Upserted? && e.value.contact == c
  {
    if events == [] then None
    else
      var last := events[|events| - 1];
      if last.Upserted? && last.contact == c then Some(last) else LastSnapshot(events[..|events| - 1], c)
  }

  function SnapshotOf(contacts: map<Id, Contact>, members: set<(ListId, Id)>, c: Id, changed: seq<nat>): Event
    requires c in contacts
  {
    Upserted(c, contacts[c].version, contacts[c].data, changed, ListsOf(members, c))
  }

  /** Same data on every field that is not deleted. */
  ghost predicate SameData(fields: map<nat, FieldDef>, a: Data, b: Data) {
    forall f :: f in LiveFields(fields) ==> At(a, f) == At(b, f)
  }

  // ---- invariant

  ghost predicate SystemFields(s: Store) {
    && (forall f :: f in s.fields ==> f < s.nextField)
    && (forall f :: f in {EMAIL, EXTERNAL_ID, 31, 32, 33} ==> f in s.fields && s.fields[f].system)
    && (forall f :: f in s.fields && s.fields[f].system ==> !s.fields[f].deleted)
    && (forall f :: f in {EMAIL, EXTERNAL_ID} ==>
         s.fields[f].fieldType == FieldType.Text && s.fields[f].unique && !s.fields[f].readOnly)
    && (forall f :: f in {31, 32, 33} ==> s.fields[f].fieldType == FieldType.SingleChoice)
  }

  /** The partial unique indexes on live contacts. */
  ghost predicate UniqueColumns(contacts: map<Id, Contact>) {
    forall a, b, f ::
      Live(contacts, a) && Live(contacts, b) && a != b && IsColumn(f) && Column(contacts[a].data, f).Some?
      ==> Column(contacts[a].data, f) != Column(contacts[b].data, f)
  }

  /** `unique_values` holds (field, value, contact) iff the live contact has that value in the field. */
  ghost predicate IndexAgrees(s: Store) {
    && (forall k :: k in s.uniq && Synced(s.fields, k.0) ==>
         Live(s.contacts, s.uniq[k]) && Entry(s.contacts[s.uniq[k]].data, k.0) == Some(k.1))
    && (forall c, f :: Live(s.contacts, c) && Synced(s.fields, f) && Entry(s.contacts[c].data, f).Some? ==>
         var k := (f, Entry(s.contacts[c].data, f).value); k in s.uniq && s.uniq[k] == c)
  }

  /** The history of every contact and channel replays to its current value. */
  ghost predicate ConsentsReplay(s: Store) {
    forall c, ch :: c in s.contacts ==>
      && Replayed(s.consents, c, ch) == At(s.contacts[c].data, ConsentField(ch))
      && Alternates(s.consents, c, ch)
  }

  /** The last snapshot of every live contact carries what it now has. */
  ghost predicate SnapshotsFresh(s: Store) {
    forall c :: Live(s.contacts, c) ==>
      && var e := LastSnapshot(s.events, c);
      && e.Some? && e.value.version == s.contacts[c].version && e.value.lists == ListsOf(s.members, c)
      && e.value.data.Keys <= s.fields.Keys && SameData(s.fields, e.value.data, s.contacts[c].data)
  }

  ghost predicate References(s: Store) {
    && (forall c :: c in s.contacts ==> s.contacts[c].data.Keys <= s.fields.Keys)
    && (forall m :: m in s.members ==> m.0 in s.lists && m.1 in s.contacts)
    && (forall k :: k in s.uniq ==> s.uniq[k] in s.contacts && k.0 in s.fields)
  }

  ghost predicate Consistent(s: Store) {
    && SystemFields(s)
    && References(s)
    && UniqueColumns(s.contacts)
    && IndexAgrees(s)
    && ConsentsReplay(s)
    && SnapshotsFresh(s)
  }

  /** An ID no row has named yet, as `uuidv7()` gives. */
  ghost predicate Unused(s: Store, c: Id) {
    c !in s.contacts && forall i :: 0 <= i < |s.consents| ==> s.consents[i].contact != c
  }
}
