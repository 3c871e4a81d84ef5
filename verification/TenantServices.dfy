/** The services around the write engine that change a tenant's tables: lists, field definitions and erasure. */
module TenantServices {
  import opened Wrappers
  import opened FieldValues
  import opened Tables
  import opened BatchCommit
  import opened KeyResolver
  import opened TenantOps
  import opened Database
  import Gdpr
  import TenantRuns
  import BatchChecks
  import ContactsWriteService

  datatype Changed = Changed(changed: nat, notFound: seq<Id>)

  /** What a change by key answers: an unknown list, a refused key, or the values that name nobody. */
  datatype KeyedChange = NoList | UnusableKey(code: nat) | ChangedBy(changed: nat, errors: seq<nat>)

  /** The IDs that name no live contact, as given. */
  function NotFound(contacts: map<Id, Contact>, ids: seq<Id>): seq<Id> {
    if ids == [] then []
    else NotFound(contacts, ids[..|ids| - 1]) + (if Live(contacts, ids[|ids| - 1]) then [] else [ids[|ids| - 1]])
  }

  // ---- lists

  class Lists {
    const db: Tenant
    const keys: ContactsWriteService.Service

    constructor (db: Tenant, keys: ContactsWriteService.Service)
      requires keys.db == db
      ensures this.db == db && this.keys == keys
    {
      this.db, this.keys := db, keys;
    }

    /** Live contacts of `ids`, each once, and the IDs that are none. */
    method Targets(ids: seq<Id>) returns (live: seq<Id>, missing: seq<Id>)
      ensures live == LiveOf(db.contacts, ids) && missing == NotFound(db.contacts, ids)
    {
      live, missing := [], [];
      for i := 0 to |ids|
        invariant live == LiveOf(db.contacts, ids[..i]) && missing == NotFound(db.contacts, ids[..i])
      {
        assert ids[..i + 1][..i] == ids[..i];
        if !Live(db.contacts, ids[i]) {
          missing := missing + [ids[i]];
        } else if ids[i] !in live {
          live := live + [ids[i]];
        }
      }
      assert ids[..|ids|] == ids;
    }

    /** The memberships the statement adds or removes, one by one. */
    method Move(l: ListId, targets: seq<Id>, add: bool) returns (moved: seq<Id>)
      requires Distinct(targets)
      modifies db`members
      ensures moved == Joining(old(db.members), l, targets, add)
      ensures db.members == WithMembers(old(db.members), l, moved, add)
    {
      moved := [];
      for i := 0 to |targets|
        invariant moved == Joining(old(db.members), l, targets[..i], add)
        invariant db.members == WithMembers(old(db.members), l, moved, add)
      {
        assert targets[..i + 1][..i] == targets[..i];
        assert targets[i] !in moved;
        if ((l, targets[i]) in db.members) != add {
          moved := moved + [targets[i]];
          db.members := if add then db.members + {(l, targets[i])} else db.members - {(l, targets[i])};
        }
      }
      assert targets[..|targets|] == targets;
    }

    /** `contacts.upserted` for contacts whose lists changed. */
    method Tell(ids: seq<Id>)
      requires forall i :: 0 <= i < |ids| ==> ids[i] in db.contacts
      modifies db`events
      ensures db.events == old(db.events) + ListEvents(db.contacts, db.members, ids)
    {
      for i := 0 to |ids|
        invariant db.events == old(db.events) + ListEvents(db.contacts, db.members, ids[..i])
      {
        db.events := db.events + [SnapshotOf(db.contacts, db.members, ids[i], [])];
        assert ListEvents(db.contacts, db.members, ids[..i + 1]) ==
          ListEvents(db.contacts, db.members, ids[..i]) + [SnapshotOf(db.contacts, db.members, ids[i], [])];
      }
      assert ids[..|ids|] == ids;
    }

    /** Adds or removes contacts by ID; `None` when there is no such list. */
    method Change(l: ListId, ids: seq<Id>, add: bool) returns (r: Option<Changed>)
      modifies db`members, db`events
      ensures r.None? <==> l !in db.lists
      ensures db.State() == (if r.None? then old(db.State()) else ListChange(old(db.State()), l, ids, add).value)
      ensures r.Some? ==> r.value.notFound == NotFound(db.contacts, ids)
      ensures r.Some? ==> r.value.changed == |Joining(old(db.members), l, LiveOf(db.contacts, ids), add)|
    {
      if l !in db.lists {
        return None;
      }
      var live, missing := Targets(ids);
      var moved := Move(l, live, add);
      assert forall i :: 0 <= i < |moved| ==> moved[i] in moved;
      Tell(moved);
      r := Some(Changed(|moved|, missing));
    }

    /** By key: values that match no contact come back as errors and do not abort the rest. */
    method ByKeys(l: ListId, key: Key, values: seq<string>, add: bool) returns (r: KeyedChange, ghost ids: seq<Id>)
      requires UniqueColumns(db.contacts) && keys.db == db
      modifies db`members, db`events
      ensures r.NoList? <==> l !in db.lists
      ensures r.UnusableKey? <==> l in db.lists && !KeyExists(db.fields, key)
      ensures r.UnusableKey? ==> r.code == 2009
      ensures db.State() == (if r.ChangedBy? then ListChange(old(db.State()), l, ids, add).value else old(db.State()))
      ensures r.ChangedBy? ==> r.changed == |Joining(old(db.members), l, LiveOf(db.contacts, ids), add)|
      ensures r.ChangedBy? ==> forall c :: c in ids <==>
        exists i :: 0 <= i < |values| && Lookup(old(db.State()), key, values[i]) == Some(c)
      ensures r.ChangedBy? ==> forall i :: i in r.errors <==>
        0 <= i < |values| && Lookup(old(db.State()), key, values[i]).None?
    {
      if l !in db.lists {
        return NoList, [];
      }
      if !KeyExists(db.fields, key) {
        return UnusableKey(BatchChecks.BAD_KEY), [];
      }
      var errors, targets := Named(key, values);
      ids := targets;
      var moved := Change(l, targets, add);
      r := ChangedBy(moved.value.changed, errors);
    }

    /** The contacts the values name, each once, and the values that name nobody. */
    method Named(key: Key, values: seq<string>) returns (errors: seq<nat>, ids: seq<Id>)
      requires UniqueColumns(db.contacts) && keys.db == db
      ensures forall c :: c in ids <==> exists i :: 0 <= i < |values| && Lookup(db.State(), key, values[i]) == Some(c)
      ensures forall i :: i in errors <==> 0 <= i < |values| && Lookup(db.State(), key, values[i]).None?
    {
      var found := keys.Resolve(key, values);
      errors, ids := [], [];
      for i := 0 to |values|
        invariant forall j :: j in errors <==> 0 <= j < i && values[j] !in found
        invariant forall c :: c in ids <==> exists j :: 0 <= j < i && values[j] in found && found[values[j]] == c
      {
        if values[i] !in found {
          errors := errors + [i];
        } else if found[values[i]] !in ids {
          ids := ids + [found[values[i]]];
        }
      }
      assert forall j :: 0 <= j < |values| ==> values[j] in values;
    }

    /** Removes a list and its memberships; the members' lists changed, so they get an event. */
    method Remove(l: ListId) returns (ok: bool, ghost gone: seq<Id>)
      requires References(db.State())
      modifies db`lists, db`members, db`events
      ensures ok <==> l in old(db.lists)
      ensures !ok ==> db.State() == old(db.State())
      ensures ok ==> IsMembers(old(db.members), l, gone) && forall i :: 0 <= i < |gone| ==> gone[i] in old(db.contacts)
      ensures ok ==> ListRemove(old(db.State()), l, gone) == Some(db.State())
    {
      if l !in db.lists {
        return false, [];
      }
      var rows: seq<Id>, left := [], db.members;
      while left != {}
        invariant left <= db.members && Distinct(rows)
        invariant forall c :: c in rows <==> (l, c) in db.members && (l, c) !in left
        decreases |left|
      {
        var m :| m in left;
        if m.0 == l {
          rows := rows + [m.1];
        }
        left := left - {m};
      }
      gone := rows;
      MembersExist(db.State(), l, gone);
      db.members := WithoutList(db.members, l);
      db.lists := db.lists - {l};
      Tell(rows);
      ok := true;
    }
  }

  // ---- consents

  datatype Outcome = Recorded | NoContact | Refused(error: BatchChecks.ItemError) | Raced

  /** The write that sets a channel's field of one contact; JavaScript lists the numeric property first. */
  function ConsentCall(c: Id, input: ConsentInput, value: Raw, ids: seq<Id>): (b: BatchChecks.Batch)
    requires |ids| == 1
    ensures |b.items| == 1
  {
    var item: BatchChecks.Item := [(FieldKey(ConsentField(input.channel)), value), (IdKey, JStr(c))];
    BatchChecks.Call(IdKey, BatchChecks.Mode.Update, [item], ids, input.source, Some(input))
  }

  class Consents {
    const db: Tenant
    const writes: ContactsWriteService.Service

    constructor (db: Tenant, writes: ContactsWriteService.Service)
      requires writes.db == db
      ensures this.db == db && this.writes == writes
    {
      this.db, this.writes := db, writes;
    }

    /** Sets the channel's field through the write engine, which records history and events. */
    method Put(c: Id, input: ConsentInput, value: Raw, ids: seq<seq<Id>>) returns (r: Outcome)
      requires UniqueColumns(db.contacts) && writes.db == db
      requires |ids| > 0 && |ids[0]| == 1 && ContactsWriteService.IdsFor(ConsentCall(c, input, value, ids[0]), ids)
      modifies db
      ensures r.Raced? ==> db.State() == old(db.State())
      ensures !r.Raced? ==> Ended(old(db.State()), ConsentCall(c, input, value, ids[0]), ids, r, db.State())
    {
      var b := ConsentCall(c, input, value, ids[0]);
      var w := writes.Write(b, ids);
      if w.Wrote? {
        OneResult(old(db.State()), b, ids);
        return Told(w.results[0]);
      }
      return Raced;
    }
  }

  /** The write of one item has left tables `t` and the answer `r` tells of. */
  ghost predicate Ended(s: Store, b: BatchChecks.Batch, ids: seq<seq<Id>>, r: Outcome, t: Store)
    requires ContactsWriteService.IdsFor(b, ids)
  {
    var o := ContactsWriteService.Outcome(s, b, ids, 0);
    o.Finished? && |o.results| == 1 && r == Told(o.results[0]) && t == o.store
  }

  lemma OneResult(s: Store, b: BatchChecks.Batch, ids: seq<seq<Id>>)
    requires ContactsWriteService.IdsFor(b, ids) && |b.items| == 1
    requires ContactsWriteService.Outcome(s, b, ids, 0).Finished?
    ensures |ContactsWriteService.Outcome(s, b, ids, 0).results| == 1
  {
    OneResultFrom(s, b, ids, 0);
  }

  lemma AttemptAnswersEach(s: Store, b: BatchChecks.Batch)
    requires BatchChecks.Attempt(s, b).Finished?
    ensures |BatchChecks.Attempt(s, b).results| == |b.items|
  {
  }

  lemma {:induction false} OneResultFrom(s: Store, b: BatchChecks.Batch, ids: seq<seq<Id>>, a: nat)
    requires ContactsWriteService.IdsFor(b, ids) && |b.items| == 1 && a <= ContactsWriteService.ATTEMPTS
    requires ContactsWriteService.Outcome(s, b, ids, a).Finished?
    ensures |ContactsWriteService.Outcome(s, b, ids, a).results| == 1
    decreases ContactsWriteService.ATTEMPTS - a
  {
    var first := ContactsWriteService.Try(b, ids[a]);
    if BatchChecks.Attempt(s, first).Finished? {
      AttemptAnswersEach(s, first);
    } else {
      OneResultFrom(s, b, ids, a + 1);
    }
  }

  function Told(r: BatchChecks.ItemResult): Outcome {
    if r.error.None? then Recorded
    else if r.error.value.code == BatchChecks.NOT_FOUND then NoContact
    else Refused(r.error.value)
  }

  // ---- field definitions

  class Fields {
    const db: Tenant

    constructor (db: Tenant)
      ensures this.db == db
    {
      this.db := db;
    }

    method Create(fieldType: FieldType, choices: set<OptionId>, unique: bool) returns (id: nat)
      modifies db`fields, db`nextField
      ensures db.State() == FieldCreate(old(db.State()), fieldType, choices, unique) && id == old(db.nextField)
    {
      id := db.nextField;
      db.nextField := id + 1;
      db.fields := db.fields[id := FieldDef(fieldType, choices, unique, false, false, false)];
    }

    /** Strips the deleted field from the contacts that have it. */
    method Strip(f: nat)
      modifies db`contacts
      ensures db.contacts ==
        map c | c in old(db.contacts) :: old(db.contacts)[c].(data := old(db.contacts)[c].data - {f})
    {
      var left := db.contacts.Keys;
      while left != {}
        invariant left <= db.contacts.Keys == old(db.contacts).Keys
        invariant forall c :: c in left ==> db.contacts[c] == old(db.contacts)[c]
        invariant forall c :: c in db.contacts && c !in left ==>
          db.contacts[c] == old(db.contacts)[c].(data := old(db.contacts)[c].data - {f})
        decreases |left|
      {
        var c :| c in left;
        if f in db.contacts[c].data {
          db.contacts := db.contacts[c := db.contacts[c].(data := db.contacts[c].data - {f})];
        } else {
          assert db.contacts[c].data - {f} == db.contacts[c].data;
        }
        left := left - {c};
      }
    }

    /** Strips the deleted field from the contacts and from the index. */
    method Purge(f: nat)
      modifies db`contacts, db`uniq
      ensures db.State() == TenantOps.Purge(old(db.State()), f)
    {
      Strip(f);
      db.uniq := map k: (nat, string) | k in db.uniq && k.0 != f :: db.uniq[k];
    }

    /** Marks a custom field deleted and purges it; unknown and system fields are refused. */
    method Remove(f: nat) returns (ok: bool)
      modifies db`fields, db`contacts, db`uniq
      ensures ok <==> FieldRemove(old(db.State()), f).Some?
      ensures db.State() == if ok then TenantOps.Purge(FieldRemove(old(db.State()), f).value, f) else old(db.State())
    {
      if f !in db.fields || db.fields[f].deleted || db.fields[f].system {
        return false;
      }
      db.fields := db.fields[f := db.fields[f].(deleted := true)];
      Purge(f);
      ok := true;
    }
  }

  // ---- access and erasure requests

  /** The tables after the queued requests have been processed in order. */
  function ProcessAll(s: Store, queue: seq<RequestId>, subject: RequestId -> string, doc: RequestId -> string): Store
    decreases |queue|
  {
    if queue == [] then s
    else ProcessAll(Gdpr.Process(s, queue[0], subject(queue[0]), doc(queue[0])), queue[1..], subject, doc)
  }

  class Requests {
    const db: Tenant
    /** Requests waiting their turn. */
    var queue: seq<RequestId>

    constructor (db: Tenant)
      ensures this.db == db && queue == []
    {
      this.db, queue := db, [];
    }

    method Enqueue(q: RequestId)
      modifies this`queue
      ensures queue == old(queue) + [q]
    {
      queue := queue + [q];
    }

    /** First transaction: any contact with a row will do, soft-deleted ones included. */
    method Known(c: Id) returns (known: bool)
      ensures known <==> c in db.contacts
    {
      known := c in db.contacts;
    }

    /** Second transaction: the request is stored whether or not the contact is still there. */
    method Create(q: RequestId, c: Id, kind: RequestKind)
      modifies db`requests
      ensures db.State() == Gdpr.WithRequest(old(db.State()), q, c, kind)
    {
      db.requests := db.requests[q := Tables.Request(Some(c), None, kind, RequestPending, None)];
    }

    /** Refused for unknown contacts; else the run of its two transactions with no other between them. */
    method Request(q: RequestId, c: Id, kind: RequestKind) returns (ok: bool)
      requires q !in db.requests
      modifies this`queue, db`requests
      ensures ok <==> c in db.contacts
      ensures ok ==> TenantRuns.AskedAlone(old(db.State()), q, c, kind, db.State())
      ensures if ok then queue == old(queue) + [q] else queue == old(queue) && db.State() == old(db.State())
    {
      var known := Known(c);
      if !known {
        return false;
      }
      TenantRuns.AskingAlone(db.State(), q, c, kind);
      Create(q, c, kind);
      Enqueue(q);
      ok := true;
    }

    /** The consents of `c` keep everything but their text. */
    method Anonymize(c: Id)
      modifies db`consents
      ensures db.consents == Anonymized(old(db.consents), c)
    {
      ghost var was := db.consents;
      var i := 0;
      while i < |db.consents|
        invariant i <= |db.consents| == |was|
        invariant forall k :: 0 <= k < i ==> db.consents[k] == Anonymized(was, c)[k]
        invariant forall k :: i <= k < |was| ==> db.consents[k] == was[k]
      {
        if db.consents[i].contact == c && db.consents[i].text.Some? {
          db.consents := db.consents[i := db.consents[i].(text := None)];
        }
        i := i + 1;
      }
    }

    /** Deletes what is keyed by the contact. */
    method DeleteRows(c: Id)
      modifies db`uniq, db`members, db`relational, db`links
      ensures db.uniq == NotNaming(old(db.uniq), c) && db.members == NotMember(old(db.members), c)
      ensures db.relational == RowsOfOthers(old(db.relational), c) && db.links == NotNaming(old(db.links), c)
    {
      db.uniq := NotNaming(db.uniq, c);
      db.members := NotMember(db.members, c);
      db.relational := RowsOfOthers(db.relational, c);
      db.links := NotNaming(db.links, c);
    }

    /** Deletes the contact, and says so if there was one. */
    method DeleteContact(c: Id)
      modifies db`contacts, db`events
      ensures db.contacts == old(db.contacts) - {c}
      ensures db.events == if c in old(db.contacts) then old(db.events) + DeletedEvents([c], "gdpr") else old(db.events)
    {
      if c in db.contacts {
        db.contacts := db.contacts - {c};
        db.events := db.events + DeletedEvents([c], "gdpr");
      }
    }

    /** The erasure transaction. */
    method Forget(q: RequestId, c: Id, subject: string)
      requires q in db.requests
      modifies db
      ensures db.State() == Erase(old(db.State()), q, c, subject)
    {
      DeleteRows(c);
      DeleteContact(c);
      var requests := Unlinked(db.requests, c, subject);
      db.requests := requests[q := requests[q].(status := RequestDone)];
      Anonymize(c);
    }

    /** One request: claimed unless it has ended, then exported or forgotten. */
    method Run(q: RequestId, subject: string, doc: string)
      modifies db
      ensures db.State() == Gdpr.Process(old(db.State()), q, subject, doc)
    {
      if q !in db.requests || db.requests[q].status !in {RequestPending, RequestRunning} {
        return;
      }
      db.requests := db.requests[q := db.requests[q].(status := RequestRunning)];
      var r := db.requests[q];
      if r.kind == Export {
        var there := r.contact.Some? && r.contact.value in db.contacts;
        var ended := if there then r.(status := RequestDone, result := Some(doc)) else r.(status := RequestFailed);
        db.requests := db.requests[q := ended];
      } else if r.contact.Some? {
        Forget(q, r.contact.value, subject);
      } else {
        db.requests := db.requests[q := r.(status := RequestDone)];
      }
    }

    /** Works the queue off, first come first served. */
    method Idle(subject: RequestId -> string, doc: RequestId -> string)
      modifies this`queue, db
      ensures queue == [] && db.State() == ProcessAll(old(db.State()), old(queue), subject, doc)
    {
      while queue != []
        invariant ProcessAll(db.State(), queue, subject, doc) == ProcessAll(old(db.State()), old(queue), subject, doc)
        decreases |queue|
      {
        var q := queue[0];
        queue := queue[1..];
        Run(q, subject(q), doc(q));
      }
    }
  }

  lemma OtherWaits(s: Store, q: RequestId, subject: string, doc: string, r: RequestId)
    requires q != r && r in s.requests
    requires Gdpr.Open(s, q) && s.requests[q].kind == Forget ==>
      s.requests[q].contact.None? || s.requests[q].contact != s.requests[r].contact
    ensures r in Gdpr.Process(s, q, subject, doc).requests
    ensures Gdpr.Process(s, q, subject, doc).requests[r] == s.requests[r]
  {
    OtherFinishes(Gdpr.Claim(s, q), q, subject, doc, r);
  }

  lemma OtherFinishes(s: Store, q: RequestId, subject: string, doc: string, r: RequestId)
    requires q != r && r in s.requests
    requires Gdpr.Open(s, q) && s.requests[q].kind == Forget ==>
      s.requests[q].contact.None? || s.requests[q].contact != s.requests[r].contact
    ensures r in Gdpr.Finish(s, q, subject, doc).requests
    ensures Gdpr.Finish(s, q, subject, doc).requests[r] == s.requests[r]
  {
    if Gdpr.Open(s, q) && s.requests[q].kind == Forget && s.requests[q].contact.Some? {
      OtherUnlinked(s, q, s.requests[q].contact.value, subject, r);
    }
  }

  lemma OtherUnlinked(s: Store, q: RequestId, c: Id, subject: string, r: RequestId)
    requires q in s.requests && q != r && r in s.requests && s.requests[r].contact != Some(c)
    ensures r in Erase(s, q, c, subject).requests && Erase(s, q, c, subject).requests[r] == s.requests[r]
  {
  }

  /** Main result: once a request to forget `c` has been worked off, nothing names `c`, whatever else was queued. */
  lemma {:induction false} QueueForgets(
      s: Store, queue: seq<RequestId>, i: nat, subject: RequestId -> string, doc: RequestId -> string, c: Id)
    requires Consistent(s) && i < |queue| && Gdpr.Open(s, queue[i]) && s.requests[queue[i]].kind == Forget
    requires s.requests[queue[i]].contact == Some(c) && forall j :: 0 <= j < i ==> queue[j] != queue[i]
    ensures Consistent(ProcessAll(s, queue, subject, doc)) && Erased(ProcessAll(s, queue, subject, doc), c)
    decreases |queue|
  {
    var q := queue[0];
    var t := Gdpr.Process(s, q, subject(q), doc(q));
    Gdpr.ProcessKeepsConsistent(s, q, subject(q), doc(q));
    if Gdpr.Open(s, q) && s.requests[q].kind == Forget && s.requests[q].contact == Some(c) {
      Gdpr.ProcessForgets(s, q, c, subject(q), doc(q));
      StaysErased(t, queue[1..], subject, doc, c);
    } else {
      OtherWaits(s, q, subject(q), doc(q), queue[i]);
      QueueForgets(t, queue[1..], i - 1, subject, doc, c);
    }
  }

  lemma {:induction false} StaysErased(
      s: Store, queue: seq<RequestId>, subject: RequestId -> string, doc: RequestId -> string, c: Id)
    requires Consistent(s) && Erased(s, c)
    ensures Consistent(ProcessAll(s, queue, subject, doc)) && Erased(ProcessAll(s, queue, subject, doc), c)
    decreases |queue|
  {
    if queue != [] {
      Gdpr.ProcessKeepsConsistent(s, queue[0], subject(queue[0]), doc(queue[0]));
      Gdpr.ProcessKeepsUnnamed(s, queue[0], subject(queue[0]), doc(queue[0]), c);
      StaysErased(Gdpr.Process(s, queue[0], subject(queue[0]), doc(queue[0])), queue[1..], subject, doc, c);
    }
  }
}
