/** The other transactions on a tenant's tables: soft deletes, lists, field definitions and erasure. */
module TenantOps {
  import opened Wrappers
  import opened Text
  import opened FieldValues
  import opened Tables
  import opened CommitInvariant

  // ---- soft delete

  /** The live contacts among `ids`, each once. */
  function LiveOf(contacts: map<Id, Contact>, ids: seq<Id>): (gone: seq<Id>)
    ensures forall c :: c in gone <==> c in ids && Live(contacts, c)
    ensures Distinct(gone)
  {
    if ids == [] then []
    else
      var n := |ids| - 1;
      assert ids == ids[..n] + [ids[n]];
      var head := LiveOf(contacts, ids[..n]);
      if Live(contacts, ids[n]) && ids[n] !in head then head + [ids[n]] else head
  }

  function DeletedEvents(ids: seq<Id>, reason: string): seq<Event> {
    seq(|ids|, i requires 0 <= i < |ids| => Deleted(ids[i], reason))
  }

  function SoftDelete(s: Store, ids: seq<Id>): Store {
    var gone := LiveOf(s.contacts, ids);
    s.(contacts := map c | c in s.contacts ::
         if c in gone then s.contacts[c].(deleted := true, version := s.contacts[c].version + 1) else s.contacts[c],
       uniq := map k | k in s.uniq && s.uniq[k] !in gone :: s.uniq[k],
       events := s.events + DeletedEvents(gone, "api"))
  }

  lemma SoftDeleteKeepsIndex(s: Store, ids: seq<Id>)
    requires IndexAgrees(s)
    ensures IndexAgrees(SoftDelete(s, ids))
  {
  }

  lemma SoftDeleteKeepsRows(s: Store, ids: seq<Id>)
    requires SystemFields(s) && References(s) && UniqueColumns(s.contacts)
    ensures SystemFields(SoftDelete(s, ids)) && References(SoftDelete(s, ids))
    ensures UniqueColumns(SoftDelete(s, ids).contacts)
  {
  }

  lemma SoftDeleteKeepsHistory(s: Store, ids: seq<Id>)
    requires ConsentsReplay(s) && SnapshotsFresh(s)
    ensures ConsentsReplay(SoftDelete(s, ids)) && SnapshotsFresh(SoftDelete(s, ids))
  {
    var r := SoftDelete(s, ids);
    forall c | Live(r.contacts, c) ensures LastSnapshot(r.events, c) == LastSnapshot(s.events, c) {
      SnapshotKept(s.events, DeletedEvents(LiveOf(s.contacts, ids), "api"), c);
    }
  }

  lemma SoftDeleteKeepsConsistent(s: Store, ids: seq<Id>)
    requires Consistent(s)
    ensures Consistent(SoftDelete(s, ids))
    ensures forall c :: Live(SoftDelete(s, ids).contacts, c) <==> Live(s.contacts, c) && c !in ids
    ensures forall k :: k in SoftDelete(s, ids).uniq ==> s.uniq[k] !in LiveOf(s.contacts, ids)
  {
    SoftDeleteKeepsIndex(s, ids);
    SoftDeleteKeepsRows(s, ids);
    SoftDeleteKeepsHistory(s, ids);
  }

  // ---- lists

  function ListCreate(s: Store, l: ListId): Store {
    s.(lists := s.lists + {l})
  }

  lemma ListCreateKeepsConsistent(s: Store, l: ListId)
    requires Consistent(s)
    ensures Consistent(ListCreate(s, l))
  {
  }

  /** `contacts.upserted` for contacts whose lists changed. */
  function ListEvents(contacts: map<Id, Contact>, members: set<(ListId, Id)>, ids: seq<Id>): seq<Event>
    requires forall i :: 0 <= i < |ids| ==> ids[i] in contacts
  {
    seq(|ids|, i requires 0 <= i < |ids| => SnapshotOf(contacts, members, ids[i], []))
  }

  /** Contacts of `ids` whose membership the statement really changes. */
  function Joining(members: set<(ListId, Id)>, l: ListId, ids: seq<Id>, add: bool): (r: seq<Id>)
    ensures forall c :: c in r <==> c in ids && ((l, c) in members) != add
    ensures Distinct(ids) ==> Distinct(r)
  {
    if ids == [] then []
    else
      var n := |ids| - 1;
      assert ids == ids[..n] + [ids[n]];
      var head := Joining(members, l, ids[..n], add);
      if ((l, ids[n]) in members) != add then head + [ids[n]] else head
  }

  function WithMembers(members: set<(ListId, Id)>, l: ListId, ids: seq<Id>, add: bool): set<(ListId, Id)> {
    var rows := set c | c in ids :: (l, c);
    if add then members + rows else members - rows
  }

  /** Adds or removes the live contacts among `ids`; `None` when there is no such list. */
  function ListChange(s: Store, l: ListId, ids: seq<Id>, add: bool): Option<Store> {
    if l !in s.lists then None
    else
      var moved := Joining(s.members, l, LiveOf(s.contacts, ids), add);
      var members := WithMembers(s.members, l, moved, add);
      assert forall i :: 0 <= i < |moved| ==> moved[i] in moved;
      Some(s.(members := members, events := s.events + ListEvents(s.contacts, members, moved)))
  }

  /** A contact whose lists changed has a snapshot of them; the others keep lists and snapshot. */
  lemma ListEventsFresh(s: Store, r: Store, moved: seq<Id>)
    requires References(s) && SnapshotsFresh(s) && Distinct(moved)
    requires r.contacts == s.contacts && r.fields == s.fields
    requires forall i :: 0 <= i < |moved| ==> moved[i] in s.contacts
    requires r.events == s.events + ListEvents(s.contacts, r.members, moved)
    requires forall c :: c in s.contacts && c !in moved ==> ListsOf(r.members, c) == ListsOf(s.members, c)
    ensures SnapshotsFresh(r)
  {
    var more := ListEvents(s.contacts, r.members, moved);
    forall c | Live(r.contacts, c)
      ensures var e := LastSnapshot(r.events, c);
        && e.Some? && e.value.version == r.contacts[c].version && e.value.lists == ListsOf(r.members, c)
        && e.value.data.Keys <= r.fields.Keys && SameData(r.fields, e.value.data, r.contacts[c].data)
    {
      if c in moved {
        var i :| 0 <= i < |moved| && moved[i] == c;
        assert more[i] == SnapshotOf(s.contacts, r.members, c, []);
        SnapshotReplaced(s.events, more, i);
      } else {
        SnapshotKept(s.events, more, c);
      }
    }
  }

  lemma ListChangeKeepsConsistent(s: Store, l: ListId, ids: seq<Id>, add: bool)
    requires Consistent(s) && l in s.lists
    ensures Consistent(ListChange(s, l, ids, add).value)
    ensures var r := ListChange(s, l, ids, add).value;
      forall m :: m in r.members <==> if m.0 == l && m.1 in ids && Live(s.contacts, m.1) then add else m in s.members
  {
    var r := ListChange(s, l, ids, add).value;
    var live := LiveOf(s.contacts, ids);
    var moved := Joining(s.members, l, live, add);
    assert forall i :: 0 <= i < |moved| ==> moved[i] in moved;
    forall c | c in s.contacts && c !in moved ensures ListsOf(r.members, c) == ListsOf(s.members, c) {
      assert forall x :: (x, c) in r.members <==> (x, c) in s.members;
    }
    ListEventsFresh(s, r, moved);
  }

  /** The members of a list, each once, in the order a query returns them. */
  ghost predicate IsMembers(members: set<(ListId, Id)>, l: ListId, ids: seq<Id>) {
    Distinct(ids) && forall c :: c in ids <==> (l, c) in members
  }

  function WithoutList(members: set<(ListId, Id)>, l: ListId): set<(ListId, Id)> {
    set m | m in members && m.0 != l
  }

  function ListRemove(s: Store, l: ListId, gone: seq<Id>): Option<Store>
    requires forall i :: 0 <= i < |gone| ==> gone[i] in s.contacts
  {
    if l !in s.lists then None
    else
      var members := WithoutList(s.members, l);
      Some(s.(lists := s.lists - {l}, members := members, events := s.events + ListEvents(s.contacts, members, gone)))
  }

  lemma MembersExist(s: Store, l: ListId, gone: seq<Id>)
    requires References(s) && IsMembers(s.members, l, gone)
    ensures forall i :: 0 <= i < |gone| ==> gone[i] in s.contacts
  {
    forall i | 0 <= i < |gone| ensures gone[i] in s.contacts {
      assert gone[i] in gone && (l, gone[i]) in s.members;
    }
  }

  lemma ListRemoveKeepsConsistent(s: Store, l: ListId, gone: seq<Id>)
    requires Consistent(s) && l in s.lists && IsMembers(s.members, l, gone)
    requires forall i :: 0 <= i < |gone| ==> gone[i] in s.contacts
    ensures Consistent(ListRemove(s, l, gone).value)
  {
    var r := ListRemove(s, l, gone).value;
    forall c | c in s.contacts && c !in gone ensures ListsOf(r.members, c) == ListsOf(s.members, c) {
      assert forall x :: (x, c) in r.members <==> (x, c) in s.members;
    }
    ListEventsFresh(s, r, gone);
  }

  // ---- field definitions

  /** A custom field under the next ID; IDs are never used twice. */
  function FieldCreate(s: Store, fieldType: FieldType, choices: set<OptionId>, unique: bool): Store {
    s.(fields := s.fields[s.nextField := FieldDef(fieldType, choices, unique, false, false, false)],
       nextField := s.nextField + 1)
  }

  lemma NewFieldKeepsSystem(s: Store, fieldType: FieldType, choices: set<OptionId>, unique: bool)
    requires SystemFields(s)
    ensures SystemFields(FieldCreate(s, fieldType, choices, unique))
  {
    var r := FieldCreate(s, fieldType, choices, unique);
    forall f | f in {EMAIL, EXTERNAL_ID, 31, 32, 33} ensures f in r.fields && r.fields[f] == s.fields[f] {
      assert f in s.fields;
    }
  }

  lemma FieldCreateKeepsConsistent(s: Store, fieldType: FieldType, choices: set<OptionId>, unique: bool)
    requires Consistent(s)
    ensures Consistent(FieldCreate(s, fieldType, choices, unique))
  {
    var r := FieldCreate(s, fieldType, choices, unique);
    assert s.nextField !in s.fields;
    NewFieldKeepsSystem(s, fieldType, choices, unique);
    forall c | c in r.contacts ensures s.nextField !in r.contacts[c].data {
    }
    forall f | Synced(r.fields, f) ensures Synced(s.fields, f) || f == s.nextField {
    }
  }

  /** Marks a custom field deleted; `None` for unknown and system fields. */
  function FieldRemove(s: Store, f: nat): Option<Store> {
    if f !in LiveFields(s.fields) || s.fields[f].system then None
    else Some(s.(fields := s.fields[f := s.fields[f].(deleted := true)]))
  }

  lemma FieldRemoveKeepsConsistent(s: Store, f: nat)
    requires Consistent(s) && FieldRemove(s, f).Some?
    ensures Consistent(FieldRemove(s, f).value)
  {
    var r := FieldRemove(s, f).value;
    forall x | Synced(r.fields, x) ensures Synced(s.fields, x) {
    }
    forall x | x in LiveFields(r.fields) ensures x in LiveFields(s.fields) {
    }
    assert r.fields.Keys == s.fields.Keys;
  }

  /** Strips a deleted field from the contacts and the index. */
  function Purge(s: Store, f: nat): Store {
    s.(contacts := map c | c in s.contacts :: s.contacts[c].(data := s.contacts[c].data - {f}),
       uniq := map k: (nat, string) | k in s.uniq && k.0 != f :: s.uniq[k])
  }

  lemma PurgedRow(d: Data, f: nat, x: nat)
    requires x != f
    ensures At(d - {f}, x) == At(d, x) && Column(d - {f}, x) == Column(d, x) && Entry(d - {f}, x) == Entry(d, x)
  {
  }

  lemma PurgeKeepsIndex(s: Store, f: nat)
    requires SystemFields(s) && UniqueColumns(s.contacts) && IndexAgrees(s) && f in s.fields && s.fields[f].deleted
    ensures IndexAgrees(Purge(s, f)) && UniqueColumns(Purge(s, f).contacts)
  {
    forall x | IsColumn(x) ensures x != f {
      assert x in {EMAIL, EXTERNAL_ID};
    }
    forall c, x | c in s.contacts && x != f
      ensures Column(s.contacts[c].data - {f}, x) == Column(s.contacts[c].data, x)
      ensures Entry(s.contacts[c].data - {f}, x) == Entry(s.contacts[c].data, x)
    {
      PurgedRow(s.contacts[c].data, f, x);
    }
  }

  lemma PurgeKeepsHistory(s: Store, f: nat)
    requires SystemFields(s) && ConsentsReplay(s) && SnapshotsFresh(s) && f in s.fields && s.fields[f].deleted
    ensures ConsentsReplay(Purge(s, f)) && SnapshotsFresh(Purge(s, f))
  {
    forall ch ensures ConsentField(ch) != f {
      assert ConsentField(ch) in {31, 32, 33};
    }
    forall c, x | c in s.contacts && x != f ensures At(s.contacts[c].data - {f}, x) == At(s.contacts[c].data, x) {
      PurgedRow(s.contacts[c].data, f, x);
    }
  }

  lemma PurgeKeepsConsistent(s: Store, f: nat)
    requires Consistent(s) && f in s.fields && s.fields[f].deleted
    ensures Consistent(Purge(s, f))
    ensures forall c :: c in Purge(s, f).contacts ==> f !in Purge(s, f).contacts[c].data
    ensures forall k :: k in Purge(s, f).uniq ==> k.0 != f
  {
    PurgeKeepsIndex(s, f);
    PurgeKeepsHistory(s, f);
  }

  // ---- erasure

  /** Consents of `c` keep channel, value and order; their text is forgotten. */
  function Anonymized(history: seq<Consent>, c: Id): seq<Consent> {
    seq(|history|, i requires 0 <= i < |history| =>
      if history[i].contact == c then history[i].(text := None) else history[i])
  }

  lemma {:induction false} AnonymizedSays(history: seq<Consent>, c: Id, x: Id, ch: Channel, v: Option<Value>)
    requires Says(history, x, ch, v)
    ensures Says(Anonymized(history, c), x, ch, v)
  {
    if history != [] {
      var n := |history| - 1;
      assert Anonymized(history, c)[..n] == Anonymized(history[..n], c);
      AnonymizedSays(history[..n], c, x, ch, Replayed(history[..n], x, ch));
    }
  }

  /** Requests about `c` lose it for the hash `subject`, and their export documents. */
  function Unlinked(requests: map<RequestId, Request>, c: Id, subject: string): map<RequestId, Request> {
    map q | q in requests ::
      if requests[q].contact == Some(c) then requests[q].(contact := None, subject := Some(subject), result := None)
      else requests[q]
  }

  /** The rows that name another contact. */
  function NotNaming<K>(rows: map<K, Id>, c: Id): map<K, Id> {
    map k | k in rows && rows[k] != c :: rows[k]
  }

  function RowsOfOthers(rows: set<RelationalRow>, c: Id): set<RelationalRow> {
    set r | r in rows && r.contact != c
  }

  function NotMember(members: set<(ListId, Id)>, c: Id): set<(ListId, Id)> {
    set m | m in members && m.1 != c
  }

  /** The erasure transaction of request `q`, about contact `c`. */
  function Erase(s: Store, q: RequestId, c: Id, subject: string): Store
    requires q in s.requests
  {
    var requests := Unlinked(s.requests, c, subject);
    s.(uniq := NotNaming(s.uniq, c),
       members := NotMember(s.members, c),
       relational := RowsOfOthers(s.relational, c),
       links := NotNaming(s.links, c),
       contacts := s.contacts - {c},
       events := if c in s.contacts then s.events + DeletedEvents([c], "gdpr") else s.events,
       requests := requests[q := requests[q].(status := RequestDone)],
       consents := Anonymized(s.consents, c))
  }

  /** No row names the contact any more, apart from its anonymized consent history. */
  ghost predicate Erased(s: Store, c: Id) {
    Unnamed(s, c) && forall r :: r in s.relational ==> r.contact != c
  }

  /** The same but for relational rows, the ones no foreign key keeps. */
  ghost predicate Unnamed(s: Store, c: Id) {
    && c !in s.contacts
    && (forall k :: k in s.uniq ==> s.uniq[k] != c)
    && (forall m :: m in s.members ==> m.1 != c)
    && (forall k :: k in s.links ==> s.links[k] != c)
    && (forall q :: q in s.requests ==> s.requests[q].contact != Some(c))
    && (forall i :: 0 <= i < |s.consents| && s.consents[i].contact == c ==> s.consents[i].text.None?)
  }

  lemma EraseKeepsIndex(s: Store, q: RequestId, c: Id, subject: string)
    requires IndexAgrees(s) && q in s.requests
    ensures IndexAgrees(Erase(s, q, c, subject))
  {
  }

  lemma EraseKeepsRows(s: Store, q: RequestId, c: Id, subject: string)
    requires SystemFields(s) && References(s) && UniqueColumns(s.contacts) && q in s.requests
    ensures SystemFields(Erase(s, q, c, subject)) && References(Erase(s, q, c, subject))
    ensures UniqueColumns(Erase(s, q, c, subject).contacts)
  {
  }

  lemma EraseKeepsHistory(s: Store, q: RequestId, c: Id, subject: string)
    requires ConsentsReplay(s) && SnapshotsFresh(s) && q in s.requests
    ensures ConsentsReplay(Erase(s, q, c, subject)) && SnapshotsFresh(Erase(s, q, c, subject))
  {
    var r := Erase(s, q, c, subject);
    forall x, ch | x in r.contacts ensures Says(r.consents, x, ch, At(r.contacts[x].data, ConsentField(ch))) {
      AnonymizedSays(s.consents, c, x, ch, At(s.contacts[x].data, ConsentField(ch)));
    }
    forall x | Live(r.contacts, x)
      ensures LastSnapshot(r.events, x) == LastSnapshot(s.events, x) && ListsOf(r.members, x) == ListsOf(s.members, x)
    {
      SnapshotKept(s.events, DeletedEvents([c], "gdpr"), x);
      assert forall l :: (l, x) in r.members <==> (l, x) in s.members;
    }
  }

  lemma EraseKeepsConsistent(s: Store, q: RequestId, c: Id, subject: string)
    requires Consistent(s) && q in s.requests
    ensures Consistent(Erase(s, q, c, subject))
  {
    EraseKeepsIndex(s, q, c, subject);
    EraseKeepsRows(s, q, c, subject);
    EraseKeepsHistory(s, q, c, subject);
  }

  /** Erasure forgets the contact everywhere, keeps the proof of its consents and touches nobody else. */
  lemma EraseForgets(s: Store, q: RequestId, c: Id, subject: string)
    requires Consistent(s) && q in s.requests
    ensures var r := Erase(s, q, c, subject);
      && Erased(r, c)
      && |r.consents| == |s.consents|
      && (forall i :: 0 <= i < |s.consents| ==>
           r.consents[i] == if s.consents[i].contact == c then s.consents[i].(text := None) else s.consents[i])
      && (forall x :: x in s.contacts && x != c ==> x in r.contacts && r.contacts[x] == s.contacts[x])
      && (forall k :: k in s.uniq && s.uniq[k] != c ==> k in r.uniq && r.uniq[k] == s.uniq[k])
      && (forall m :: m in s.members && m.1 != c ==> m in r.members)
      && (forall x :: x in s.relational && x.contact != c ==> x in r.relational)
      && (forall k :: k in s.links && s.links[k] != c ==> k in r.links && r.links[k] == s.links[k])
  {
  }
}
