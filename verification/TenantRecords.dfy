/** What the transactions around the write engine leave, row by row, column by column and event by event. */
module TenantRecords {
  import opened Wrappers
  import opened FieldValues
  import opened Tables
  import opened TenantOps
  import Gdpr
  import TenantServices

  // ---- soft delete

  /** `after` is `before` followed by one event for each of `ids`, in their order. */
  ghost predicate Announces(before: seq<Event>, after: seq<Event>, ids: seq<Id>) {
    |after| == |before| + |ids| && after[..|before|] == before
  }

  /** Main result: each live contact named is marked and keeps its data, and is announced once; nothing else moves. */
  lemma SoftDeleteRecords(s: Store, ids: seq<Id>) returns (gone: seq<Id>)
    ensures Distinct(gone) && forall c :: c in gone <==> c in ids && c in s.contacts && !s.contacts[c].deleted
    ensures var t := SoftDelete(s, ids);
      && t == s.(contacts := t.contacts, uniq := t.uniq, events := t.events)
      && t.contacts.Keys == s.contacts.Keys
      && (forall c :: c in gone ==> t.contacts[c] == Contact(s.contacts[c].data, s.contacts[c].version + 1, true))
      && (forall c :: c in s.contacts && c !in gone ==> t.contacts[c] == s.contacts[c])
      && (forall k :: k in t.uniq <==> k in s.uniq && s.uniq[k] !in gone)
      && (forall k :: k in t.uniq ==> t.uniq[k] == s.uniq[k])
      && Announces(s.events, t.events, gone)
      && (forall i :: 0 <= i < |gone| ==> t.events[|s.events| + i] == Deleted(gone[i], "api"))
  {
    gone := LiveOf(s.contacts, ids);
  }

  // ---- lists

  /** A snapshot without changed fields, with the lists the contact is now in. */
  predicate ListsTold(e: Event, t: Store, c: Id) {
    && c in t.contacts
    && e == Upserted(c, t.contacts[c].version, t.contacts[c].data, [], set m | m in t.members && m.1 == c :: m.0)
  }

  ghost predicate AllTold(before: seq<Event>, t: Store, ids: seq<Id>) {
    && Announces(before, t.events, ids)
    && forall i :: 0 <= i < |ids| ==> ListsTold(t.events[|before| + i], t, ids[i])
  }

  /**
   Main result: a list takes in, or lets go, the live contacts named; those who were not on it, or were, get one
   snapshot each; unknown lists are refused and nothing else moves.
   */
  lemma ListChangeRecords(s: Store, l: ListId, ids: seq<Id>, add: bool) returns (moved: seq<Id>)
    ensures ListChange(s, l, ids, add).Some? <==> l in s.lists
    ensures Distinct(moved)
    ensures forall c :: c in moved <==>
      c in ids && c in s.contacts && !s.contacts[c].deleted && ((l, c) !in s.members) == add
    ensures l in s.lists ==>
      var t := ListChange(s, l, ids, add).value;
      && t == s.(members := t.members, events := t.events)
      && (forall m :: m in t.members <==> if m.0 == l && m.1 in moved then add else m in s.members)
      && AllTold(s.events, t, moved)
  {
    moved := Joining(s.members, l, LiveOf(s.contacts, ids), add);
    if l in s.lists {
      var t := ListChange(s, l, ids, add).value;
      assert forall i :: 0 <= i < |moved| ==> moved[i] in moved;
      EventsTell(s, t, moved);
    }
  }

  lemma EventsTell(s: Store, t: Store, ids: seq<Id>)
    requires t.contacts == s.contacts && forall i :: 0 <= i < |ids| ==> ids[i] in s.contacts
    requires t.events == s.events + ListEvents(s.contacts, t.members, ids)
    ensures AllTold(s.events, t, ids)
  {
    forall i | 0 <= i < |ids| ensures ListsTold(t.events[|s.events| + i], t, ids[i]) {
      assert t.events[|s.events| + i] == ListEvents(s.contacts, t.members, ids)[i];
    }
  }

  /** A list goes with its memberships alone, and its members get a snapshot each. */
  lemma ListRemoveRecords(s: Store, l: ListId, gone: seq<Id>)
    requires forall i :: 0 <= i < |gone| ==> gone[i] in s.contacts
    ensures ListRemove(s, l, gone).Some? <==> l in s.lists
    ensures l in s.lists ==>
      var t := ListRemove(s, l, gone).value;
      && t == s.(lists := t.lists, members := t.members, events := t.events)
      && (forall x :: x in t.lists <==> x in s.lists && x != l)
      && (forall m :: m in t.members <==> m in s.members && m.0 != l)
      && AllTold(s.events, t, gone)
  {
    if l in s.lists {
      EventsTell(s, ListRemove(s, l, gone).value, gone);
    }
  }

  /** How often an ID is reported as unknown: as often as it was given, unless it is that of a live contact. */
  lemma {:induction false} NotFoundCounts(contacts: map<Id, Contact>, ids: seq<Id>, c: Id)
    ensures multiset(TenantServices.NotFound(contacts, ids))[c] == if Live(contacts, c) then 0 else multiset(ids)[c]
  {
    if ids != [] {
      var n := |ids| - 1;
      NotFoundCounts(contacts, ids[..n], c);
      assert ids == ids[..n] + [ids[n]];
    }
  }

  // ---- fields

  /** Main result: what defining, removing and purging a field leave of the definitions, the contacts and the index. */
  lemma FieldRecords(s: Store, fieldType: FieldType, choices: set<OptionId>, unique: bool, f: nat)
    ensures var t := FieldCreate(s, fieldType, choices, unique);
      && t == s.(fields := t.fields, nextField := s.nextField + 1)
      && t.fields.Keys == s.fields.Keys + {s.nextField}
      && t.fields[s.nextField] == FieldDef(fieldType, choices, unique, false, false, false)
      && forall x :: x in s.fields && x != s.nextField ==> t.fields[x] == s.fields[x]
    ensures FieldRemove(s, f).Some? <==> f in s.fields && !s.fields[f].system && !s.fields[f].deleted
    ensures FieldRemove(s, f).Some? ==>
      var t := FieldRemove(s, f).value;
      && t == s.(fields := t.fields) && t.fields.Keys == s.fields.Keys && IsRemoved(s.fields[f], t.fields[f])
      && forall x :: x in s.fields && x != f ==> t.fields[x] == s.fields[x]
    ensures PurgeLeaves(s, f, Purge(s, f))
  {
    forall c, x | c in s.contacts ensures At(Purge(s, f).contacts[c].data, x) == if x ==
      f then None else At(s.contacts[c].data, x) {
    }
  }

  predicate IsRemoved(d: FieldDef, e: FieldDef) {
    && e.deleted && e.fieldType == d.fieldType && e.choices == d.choices && e.unique == d.unique
    && e.readOnly == d.readOnly && e.system == d.system
  }

  ghost predicate PurgeLeaves(s: Store, f: nat, t: Store) {
    && t == s.(contacts := t.contacts, uniq := t.uniq)
    && t.contacts.Keys == s.contacts.Keys
    && (forall c :: c in s.contacts ==>
         t.contacts[c].version == s.contacts[c].version && t.contacts[c].deleted == s.contacts[c].deleted)
    && (forall c, x :: c in s.contacts ==>
         At(t.contacts[c].data, x) == if x == f then None else At(s.contacts[c].data, x))
    && (forall k :: k in t.uniq <==> k in s.uniq && k.0 != f)
    && (forall k :: k in t.uniq ==> t.uniq[k] == s.uniq[k])
  }

  // ---- access and erasure requests

  /** Request `q` ends with these columns, and every other one stays. */
  ghost predicate OnlyEnds(s: Store, q: RequestId, t: Store, status: RequestStatus, result: Option<string>) {
    && q in s.requests && t.requests.Keys == s.requests.Keys
    && (forall x :: x in s.requests && x != q ==> t.requests[x] == s.requests[x])
    && var was := s.requests[q];
    && t.requests[q] == Request(was.contact, was.subject, was.kind, status, result)
  }

  predicate Unended(s: Store, q: RequestId) {
    q in s.requests && (s.requests[q].status == RequestPending || s.requests[q].status == RequestRunning)
  }

  lemma RequestRecords(s: Store, q: RequestId, c: Id, kind: RequestKind)
    ensures var t := Gdpr.WithRequest(s, q, c, kind);
      && t == s.(requests := t.requests) && t.requests.Keys == s.requests.Keys + {q}
      && t.requests[q] == Request(Some(c), None, kind, RequestPending, None)
      && forall x :: x in s.requests && x != q ==> t.requests[x] == s.requests[x]
    ensures Unended(s, q) ==> OnlyEnds(s, q, Gdpr.Claim(s, q), RequestRunning, s.requests[q].result)
    ensures Gdpr.Claim(s, q) == s.(requests := Gdpr.Claim(s, q).requests)
    ensures !Unended(s, q) ==> Gdpr.Claim(s, q) == s
  {
  }

  /**
   Main result: an export of a contact that has a row is done with its document, any other export fails; neither
   touches anything but the request. Requests that have ended stay as they are.
   */
  lemma ExportRecords(s: Store, q: RequestId, subject: string, doc: string)
    ensures var t := Gdpr.Process(s, q, subject, doc);
      && (!Unended(s, q) ==> t == s)
      && (Unended(s, q) && s.requests[q].kind == Export ==>
           var there := s.requests[q].contact.Some? && s.requests[q].contact.value in s.contacts;
           && t == s.(requests := t.requests)
           && OnlyEnds(s, q, t, if there then RequestDone else RequestFailed,
                if there then Some(doc) else s.requests[q].result))
  {
  }

  /** What an erasure leaves of request `q` about `c`, and of the log. */
  ghost predicate ForgetLeaves(s: Store, q: RequestId, c: Id, subject: string, t: Store) {
    && q in t.requests && t.requests[q] == Request(None, Some(subject), Forget, RequestDone, None)
    && (forall x :: x in t.contacts <==> x in s.contacts && x != c)
    && t.events == s.events + (if c in s.contacts then [Deleted(c, "gdpr")] else [])
    && t.fields == s.fields && t.nextField == s.nextField && t.lists == s.lists
  }

  /** Main result: an erasure of a contact takes its row and says so; one without a contact is done at once. */
  lemma ForgetRecords(s: Store, q: RequestId, subject: string, doc: string)
    requires Unended(s, q) && s.requests[q].kind == Forget
    ensures var t := Gdpr.Process(s, q, subject, doc);
      && (s.requests[q].contact.Some? ==> ForgetLeaves(s, q, s.requests[q].contact.value, subject, t))
      && (s.requests[q].contact.None? ==>
           t == s.(requests := t.requests) && OnlyEnds(s, q, t, RequestDone, s.requests[q].result))
  {
    if s.requests[q].contact.Some? {
      var c := s.requests[q].contact.value;
      assert Gdpr.Process(s, q, subject, doc) == Erase(Gdpr.Claim(s, q), q, c, subject);
      assert DeletedEvents([c], "gdpr") == [Deleted(c, "gdpr")];
      assert s.events + [] == s.events;
    }
  }
}
