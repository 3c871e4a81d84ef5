/**
 The write transaction of a batch as a function of the tables it runs on: rows merged or inserted,
 `unique_values` synchronized, consent history recorded and snapshots put in the outbox, or nothing
 at all when a row or a unique value prior lost to a race.
 */
module BatchCommit {
  import opened Wrappers
  import opened Text
  import opened FieldValues
  import opened Tables

  // ---- items that passed validation

  predicate DistinctFields(s: seq<(nat, Option<Value>)>) {
    forall i, j :: 0 <= i < j < |s| ==> s[i].0 != s[j].0
  }

  /** The fields an item sends, in order; `None` removes the field. */
  type FieldSet = s: seq<(nat, Option<Value>)> | DistinctFields(s) witness []

  datatype Pending = Pending(index: nat, key: string, fields: FieldSet, id: Id, created: bool)

  datatype Change = Change(contact: Id, created: bool, before: Data, after: Data, changed: seq<nat>, source: string)

  /** An explicit consent call, handed to the write hook. */
  datatype ConsentInput = ConsentInput(channel: Channel, source: string, text: Option<string>, actor: Option<string>)

  /** What the item sends for field `f`: nothing, null or a value. */
  function Sent(sent: FieldSet, f: nat): Option<Option<Value>> {
    if sent == [] then None
    else
      var last := sent[|sent| - 1];
      if last.0 == f then Some(last.1) else Sent(sent[..|sent| - 1], f)
  }

  /** The value of a unique field the item asks for. */
  function Claim(p: Pending, f: nat): Option<string> {
    var v := Sent(p.fields, f);
    if v.Some? && v.value.Some? && !Blank(Str(v.value.value)) then Some(Str(v.value.value)) else None
  }

  /** The sent keys set and the nulls dropped, as the row keeps it. */
  function Merge(prior: Data, sent: FieldSet): Data {
    if sent == [] then prior
    else
      var next := Merge(prior, sent[..|sent| - 1]);
      var (f, v) := sent[|sent| - 1];
      if v.Some? then next[f := Stored(v.value)] else next - {f}
  }

  /** The sent fields that do not equal what the row had; nothing stored equals a negative zero. */
  function ChangedOf(prior: Data, next: Data, sent: FieldSet): seq<nat> {
    if sent == [] then []
    else
      var head := ChangedOf(prior, next, sent[..|sent| - 1]);
      var (f, v) := sent[|sent| - 1];
      if At(prior, f) != At(next, f) || v == Some(MinusZero) then head + [f] else head
  }

  function ChangeOf(prior: Data, created: bool, p: Pending, source: string): Change {
    var next := Merge(prior, p.fields);
    Change(p.id, created, prior, next, ChangedOf(prior, next, p.fields), source)
  }

  // ---- rows

  function Existing(ps: seq<Pending>): seq<Pending> {
    if ps == [] then []
    else
      var head := Existing(ps[..|ps| - 1]);
      if ps[|ps| - 1].created then head else head + [ps[|ps| - 1]]
  }

  function New(ps: seq<Pending>): seq<Pending> {
    if ps == [] then []
    else
      var head := New(ps[..|ps| - 1]);
      if ps[|ps| - 1].created then head + [ps[|ps| - 1]] else head
  }

  /** As many live rows as items: every item has one of its own. */
  predicate RowsFound(contacts: map<Id, Contact>, ps: seq<Pending>) {
    && (forall i :: 0 <= i < |ps| ==> Live(contacts, ps[i].id))
    && (forall i, j :: 0 <= i < j < |ps| ==> ps[i].id != ps[j].id)
  }

  function UpdateChanges(contacts: map<Id, Contact>, ps: seq<Pending>, source: string): seq<Change>
    requires forall i :: 0 <= i < |ps| ==> ps[i].id in contacts
  {
    if ps == [] then []
    else
      var p := ps[|ps| - 1];
      var head := UpdateChanges(contacts, ps[..|ps| - 1], source);
      var c := ChangeOf(contacts[p.id].data, false, p, source);
      if c.changed == [] then head else head + [c]
  }

  function InsertChanges(ps: seq<Pending>, source: string): seq<Change> {
    seq(|ps|, i requires 0 <= i < |ps| => ChangeOf(map[], true, ps[i], source))
  }

  /** Another live contact has the email or external ID of `d`. */
  predicate Taken(contacts: map<Id, Contact>, c: Id, d: Data) {
    exists o :: o in contacts && o != c && !contacts[o].deleted && exists f ::
      f in {EMAIL, EXTERNAL_ID} && Column(d, f).Some? && Column(contacts[o].data, f) == Column(d, f)
  }

  function PutRow(contacts: map<Id, Contact>, c: Change): Option<map<Id, Contact>> {
    if Taken(contacts, c.contact, c.after) then None
    else if c.created then
      if c.contact in contacts then None else Some(contacts[c.contact := Contact(c.after, 1, false)])
    else
      if !Live(contacts, c.contact) then None
      else Some(contacts[c.contact := Contact(c.after, contacts[c.contact].version + 1, false)])
  }

  /** The rows after all changes; `None` when the unique indexes refuse one of them. */
  function PutRows(contacts: map<Id, Contact>, changes: seq<Change>): Option<map<Id, Contact>> {
    if changes == [] then Some(contacts)
    else
      var head := PutRows(contacts, changes[..|changes| - 1]);
      if head.None? then None else PutRow(head.value, changes[|changes| - 1])
  }

  // ---- unique_values

  function ClearedBy(defs: map<nat, FieldDef>, c: Change, fs: seq<nat>): set<(Id, nat)> {
    if fs == [] then {}
    else
      var head := ClearedBy(defs, c, fs[..|fs| - 1]);
      var f := fs[|fs| - 1];
      if Synced(defs, f) then head + {(c.contact, f)} else head
  }

  function Cleared(defs: map<nat, FieldDef>, changes: seq<Change>): set<(Id, nat)> {
    if changes == [] then {}
    else
      var c := changes[|changes| - 1];
      Cleared(defs, changes[..|changes| - 1]) + ClearedBy(defs, c, c.changed)
  }

  function ValuesBy(defs: map<nat, FieldDef>, c: Change, fs: seq<nat>): seq<((nat, string), Id)> {
    if fs == [] then []
    else
      var head := ValuesBy(defs, c, fs[..|fs| - 1]);
      var f := fs[|fs| - 1];
      if Synced(defs, f) && Entry(c.after, f).Some? then head + [((f, Entry(c.after, f).value), c.contact)] else head
  }

  function Values(defs: map<nat, FieldDef>, changes: seq<Change>): seq<((nat, string), Id)> {
    if changes == [] then []
    else
      var c := changes[|changes| - 1];
      Values(defs, changes[..|changes| - 1]) + ValuesBy(defs, c, c.changed)
  }

  function Without(uniq: map<(nat, string), Id>, cleared: set<(Id, nat)>): map<(nat, string), Id> {
    map k | k in uniq && (uniq[k], k.0) !in cleared :: uniq[k]
  }

  /** `INSERT ... ON CONFLICT DO NOTHING` that must insert every row. */
  function InsertAll(uniq: map<(nat, string), Id>, values: seq<((nat, string), Id)>): Option<map<(nat, string), Id>> {
    if values == [] then Some(uniq)
    else
      var head := InsertAll(uniq, values[..|values| - 1]);
      var (k, c) := values[|values| - 1];
      if head.None? || k in head.value then None else Some(head.value[k := c])
  }

  function SyncUnique(
      uniq: map<(nat, string), Id>, defs: map<nat, FieldDef>, changes: seq<Change>): Option<map<(nat, string), Id>>
  {
    InsertAll(Without(uniq, Cleared(defs, changes)), Values(defs, changes))
  }

  // ---- consents and events

  function ChannelOf(f: nat): (r: Option<Channel>)
    ensures forall ch :: r == Some(ch) <==> ConsentField(ch) == f
  {
    if f == 31 then Some(ByEmail) else if f == 32 then Some(BySms) else if f == 33 then Some(ByPush) else None
  }

  function ConsentRow(c: Change, ch: Channel, explicit: Option<ConsentInput>): Consent {
    var v := At(c.after, ConsentField(ch));
    if explicit.Some? && explicit.value.channel == ch then
      Consent(c.contact, ch, v, explicit.value.source, explicit.value.text, explicit.value.actor)
    else Consent(c.contact, ch, v, c.source, None, None)
  }

  function ConsentRowsBy(c: Change, fs: seq<nat>, explicit: Option<ConsentInput>): seq<Consent> {
    if fs == [] then []
    else
      var head := ConsentRowsBy(c, fs[..|fs| - 1], explicit);
      var ch := ChannelOf(fs[|fs| - 1]);
      if ch.Some? then head + [ConsentRow(c, ch.value, explicit)] else head
  }

  function ConsentRows(changes: seq<Change>, explicit: Option<ConsentInput>): seq<Consent> {
    if changes == [] then []
    else
      var c := changes[|changes| - 1];
      ConsentRows(changes[..|changes| - 1], explicit) + ConsentRowsBy(c, c.changed, explicit)
  }

  function ConsentEvents(rows: seq<Consent>): seq<Event> {
    seq(|rows|, i requires 0 <= i < |rows| =>
      ConsentChanged(rows[i].contact, rows[i].channel, rows[i].value, rows[i].source, rows[i].text))
  }

  /** One `contacts.upserted` per changed contact, as of `contacts`. */
  function Snapshots(contacts: map<Id, Contact>, members: set<(ListId, Id)>, changes: seq<Change>): seq<Event>
    requires forall i :: 0 <= i < |changes| ==> changes[i].contact in contacts
  {
    seq(|changes|, i requires 0 <= i < |changes| =>
      SnapshotOf(contacts, members, changes[i].contact, changes[i].changed))
  }

  // ---- the transaction

  function BatchChanges(contacts: map<Id, Contact>, ps: seq<Pending>, source: string): seq<Change>
    requires RowsFound(contacts, Existing(ps))
  {
    UpdateChanges(contacts, Existing(ps), source) + InsertChanges(New(ps), source)
  }

  /** The tables after the transaction, or `None` when it is rolled back and must be retried. */
  function Commit(
      s: Store, defs: map<nat, FieldDef>, ps: seq<Pending>, source: string, explicit: Option<ConsentInput>)
    : Option<Store>
  {
    if !RowsFound(s.contacts, Existing(ps)) then None
    else
      var changes := BatchChanges(s.contacts, ps, source);
      var contacts := PutRows(s.contacts, changes);
      var uniq := SyncUnique(s.uniq, defs, changes);
      if contacts.None? || uniq.None? then None
      else
        PutRowsHit(s.contacts, changes);
        var rows := ConsentRows(changes, explicit);
        Some(s.(
          contacts := contacts.value,
          uniq := uniq.value,
          consents := s.consents + rows,
          events := s.events + ConsentEvents(rows) + Snapshots(contacts.value, s.members, changes)))
  }

  // ---- what the pieces compute

  lemma SentAt(sent: FieldSet, i: nat)
    requires i < |sent|
    ensures Sent(sent, sent[i].0) == Some(sent[i].1)
  {
    if i < |sent| - 1 { SentAt(sent[..|sent| - 1], i); }
  }

  lemma SentNone(sent: FieldSet, f: nat)
    ensures Sent(sent, f).None? <==> forall i :: 0 <= i < |sent| ==> sent[i].0 != f
  {
    if sent != [] { SentNone(sent[..|sent| - 1], f); }
  }

  /** A merge sets what prior sent, drops what prior sent as null and keeps the rest. */
  lemma {:induction false} MergeAt(prior: Data, sent: FieldSet, f: nat)
    ensures At(Merge(prior, sent), f) == if Sent(sent, f).Some? then StoredOption(Sent(sent, f).value) else At(prior, f)
  {
    if sent != [] { MergeAt(prior, sent[..|sent| - 1], f); }
  }

  lemma {:induction false} ChangedHas(prior: Data, next: Data, sent: FieldSet, f: nat)
    ensures f in ChangedOf(prior, next, sent) <==>
      Sent(sent, f).Some? && (At(prior, f) != At(next, f) || Sent(sent, f).value == Some(MinusZero))
  {
    if sent != [] {
      var init: FieldSet := sent[..|sent| - 1];
      ChangedHas(prior, next, init, f);
      if sent[|sent| - 1].0 == f {
        SentNone(init, f);
      }
    }
  }

  lemma {:induction false} ChangedDistinct(prior: Data, next: Data, sent: FieldSet)
    ensures Distinct(ChangedOf(prior, next, sent))
  {
    if sent != [] {
      var init: FieldSet := sent[..|sent| - 1];
      ChangedDistinct(prior, next, init);
      ChangedHas(prior, next, init, sent[|sent| - 1].0);
      SentNone(init, sent[|sent| - 1].0);
    }
  }

  /** Every written contact has a row. */
  lemma {:induction false} PutRowsHit(contacts: map<Id, Contact>, changes: seq<Change>)
    requires PutRows(contacts, changes).Some?
    ensures forall i :: 0 <= i < |changes| ==> Live(PutRows(contacts, changes).value, changes[i].contact)
    ensures forall c :: c in contacts ==> c in PutRows(contacts, changes).value
  {
    if changes != [] { PutRowsHit(contacts, changes[..|changes| - 1]); }
  }
}
