/**
 Sending an upsert again, as the importer's retries do: it changes nothing, exactly if no number it
 sends is a negative zero.
 */
module BatchReplay {
  import opened Wrappers
  import opened FieldValues
  import opened Tables
  import opened BatchCommit
  import opened KeyResolver
  import opened BatchChecks
  import opened BatchSafety
  import opened BatchTheorems
  import opened BatchRefinement

  /** Merging the same fields twice is merging them once. */
  lemma MergeTwice(prior: Data, fields: FieldSet)
    ensures Merge(Merge(prior, fields), fields) == Merge(prior, fields)
  {
    var once := Merge(prior, fields);
    var twice := Merge(once, fields);
    forall f ensures At(twice, f) == At(once, f) {
      MergeAt(prior, fields, f);
      MergeAt(once, fields, f);
    }
    assert forall f :: (f in twice <==> At(twice, f).Some?) && (f in once <==> At(once, f).Some?);
  }

  /** Some sent number is a negative zero, which equals nothing stored. */
  ghost predicate Signed(fields: FieldSet) {
    exists f :: Sent(fields, f) == Some(Some(MinusZero))
  }

  /** Merged a second time, exactly the negative zeros count as changes. */
  lemma ChangedAgain(d: Data, fields: FieldSet)
    ensures forall f :: f in ChangedOf(d, d, fields) <==> Sent(fields, f) == Some(Some(MinusZero))
    ensures ChangedOf(d, d, fields) == [] <==> !Signed(fields)
  {
    forall f ensures f in ChangedOf(d, d, fields) <==> Sent(fields, f) == Some(Some(MinusZero)) {
      ChangedHas(d, d, fields, f);
    }
    if ChangedOf(d, d, fields) != [] {
      assert ChangedOf(d, d, fields)[0] in ChangedOf(d, d, fields);
    }
  }

  /** Exactly when a write bumps the version of a contact: a stored value differs, or a negative zero was sent. */
  lemma VersionRisesExactly(contacts: map<Id, Contact>, p: Pending)
    requires !p.created && p.id in contacts
    ensures RowAfter(contacts, p).version == contacts[p.id].version + 1 <==>
      Merge(contacts[p.id].data, p.fields) != contacts[p.id].data || Signed(p.fields)
    ensures RowAfter(contacts, p).version in {contacts[p.id].version, contacts[p.id].version + 1}
  {
    var d := contacts[p.id].data;
    if Merge(d, p.fields) == d {
      ChangedAgain(d, p.fields);
    } else if ChangedOf(d, Merge(d, p.fields), p.fields) == [] {
      NoChange(d, p.fields);
    }
  }

  /** Existing items that change nothing make no change at all. */
  lemma {:induction false} NoUpdates(contacts: map<Id, Contact>, ps: seq<Pending>, source: string)
    requires forall i :: 0 <= i < |ps| ==>
      ps[i].id in contacts && Merge(contacts[ps[i].id].data, ps[i].fields) == contacts[ps[i].id].data
    requires forall i :: 0 <= i < |ps| ==> !Signed(ps[i].fields)
    ensures UpdateChanges(contacts, ps, source) == []
  {
    if ps != [] {
      var p := ps[|ps| - 1];
      NoUpdates(contacts, ps[..|ps| - 1], source);
      ChangedAgain(contacts[p.id].data, p.fields);
    }
  }

  lemma {:induction false} AllExisting(ps: seq<Pending>)
    requires forall i :: 0 <= i < |ps| ==> !ps[i].created
    ensures Existing(ps) == ps && New(ps) == []
  {
    if ps != [] {
      AllExisting(ps[..|ps| - 1]);
      assert ps == ps[..|ps| - 1] + [ps[|ps| - 1]];
    }
  }

  /** A batch of items that change nothing commits and leaves the tables as they are. */
  lemma NoOpCommits(s: Store, ps: seq<Pending>, source: string, explicit: Option<ConsentInput>)
    requires RowsFound(s.contacts, ps)
    requires forall i :: 0 <= i < |ps| ==> !ps[i].created
    requires forall i :: 0 <= i < |ps| ==> Merge(s.contacts[ps[i].id].data, ps[i].fields) == s.contacts[ps[i].id].data
    requires forall i :: 0 <= i < |ps| ==> !Signed(ps[i].fields)
    ensures Commit(s, LiveFields(s.fields), ps, source, explicit) == Some(s)
  {
    AllExisting(ps);
    NoUpdates(s.contacts, ps, source);
    EmptyCommit(s, ps, source, explicit);
  }

  lemma EmptyCommit(s: Store, ps: seq<Pending>, source: string, explicit: Option<ConsentInput>)
    requires RowsFound(s.contacts, Existing(ps)) && BatchChanges(s.contacts, ps, source) == []
    ensures Commit(s, LiveFields(s.fields), ps, source, explicit) == Some(s)
  {
    assert Without(s.uniq, {}) == s.uniq;
    assert s.consents + ConsentRows([], explicit) == s.consents;
    assert s.events + ConsentEvents([]) + Snapshots(s.contacts, s.members, []) == s.events;
  }

  // ---- a fully accepted batch

  ghost predicate FullyAccepted(s: Store, b: Batch) {
    forall i :: 0 <= i < |b.items| ==> IsAccepted(s, b, i)
  }

  lemma AllCandidates(s: Store, b: Batch, n: nat)
    requires n <= |b.items|
    requires forall i :: 0 <= i < n ==> Resolved(s, LiveFields(s.fields), b, i).Ok?
    ensures var ps := Candidates(s, LiveFields(s.fields), b, n);
      |ps| == n && forall i :: 0 <= i < n ==> ps[i] == Resolved(s, LiveFields(s.fields), b, i).value
  {
    CollectedAll(AllResolved(s, LiveFields(s.fields), b, n));
  }

  lemma {:induction false} AllStand(ps: seq<Pending>, errors: seq<Option<ItemError>>)
    requires |ps| == |errors| && forall j :: 0 <= j < |ps| ==> errors[j].None?
    ensures Standing(ps, errors) == ps
  {
    if ps != [] {
      AllStand(ps[..|ps| - 1], errors[..|ps| - 1]);
      assert ps == ps[..|ps| - 1] + [ps[|ps| - 1]];
    }
  }

  lemma AcceptedResolves(s: Store, b: Batch, i: nat) returns (p: Pending)
    requires IsAccepted(s, b, i)
    ensures Resolved(s, LiveFields(s.fields), b, i) == Ok(p) && p.index == i
    ensures p in Accepted(s, LiveFields(s.fields), b, s.nextField)
  {
    p := EveryItemAnswered(s, b, i);
    AcceptedAnswer(s, b, p);
  }

  lemma StandsAtItsIndex(ps: seq<Pending>, errors: seq<Option<ItemError>>, i: nat)
    requires i < |ps| == |errors| && ps[i] in Standing(ps, errors)
    requires forall k :: 0 <= k < |ps| ==> ps[k].index == k
    ensures errors[i].None?
  {
    var j := StandsErrorFree(ps, errors, ps[i]);
  }

  /** When every item is accepted, the candidates are the items. */
  lemma FullyCandidates(s: Store, b: Batch, accepted: seq<Pending>) returns (ps: seq<Pending>)
    requires FullyAccepted(s, b) && accepted == Accepted(s, LiveFields(s.fields), b, s.nextField)
    ensures |ps| == |b.items| && Candidates(s, LiveFields(s.fields), b, |b.items|) == ps
    ensures forall i :: 0 <= i < |ps| ==> ps[i].index == i && ps[i] in accepted
  {
    ps := [];
    for i := 0 to |b.items|
      invariant |ps| == i && Candidates(s, LiveFields(s.fields), b, i) == ps
      invariant forall k :: 0 <= k < i ==> ps[k].index == k && ps[k] in accepted
    {
      var p := AcceptedResolves(s, b, i);
      CandidatesStep(s, LiveFields(s.fields), b, i);
      ps := ps + [p];
    }
  }

  /** All of them stand. */
  lemma FullyAcceptedItems(s: Store, b: Batch) returns (ps: seq<Pending>)
    requires FullyAccepted(s, b)
    ensures |ps| == |b.items| && Accepted(s, LiveFields(s.fields), b, s.nextField) == ps
    ensures forall i :: 0 <= i < |ps| ==> ps[i].index == i && IsCandidate(s, b, ps[i])
  {
    ps := FullyCandidates(s, b, Accepted(s, LiveFields(s.fields), b, s.nextField));
    var errors := AfterFields(s, LiveFields(s.fields), b.key, ps, s.nextField);
    forall i | 0 <= i < |ps| ensures errors[i].None? {
      StandsAtItsIndex(ps, errors, i);
    }
    AllStand(ps, errors);
    CandidatesAre(s, b, |b.items|);
  }

  // ---- sent again

  function Again(p: Pending): Pending {
    p.(created := false)
  }

  lemma FoundAgain(s: Store, b: Batch, ps: seq<Pending>, r: Store, p: Pending)
    requires Callable(s, b) && Consistent(r) && Sound(s, ps) && Applied(s, ps, r) && p in ps && IsCandidate(s, b, p)
    ensures Lookup(r, b.key, p.key) == Some(p.id)
  {
    CandidateFits(s, b, p);
    if b.key.FieldKey? {
      GivenAnswers(s, ps, r, p, b.key.field);
    } else {
      assert Answers(r, b.key, p.key, p.id);
      LookupUnique(r, b.key, p.key, p.id);
    }
  }

  lemma ResolvedAgain(s: Store, b: Batch, again: Batch, r: Store, p: Pending)
    requires IsCandidate(s, b, p) && r.fields == s.fields && b.mode != Create
    requires again.key == b.key && again.mode == b.mode && again.items == b.items
    requires Lookup(r, b.key, p.key) == Some(p.id)
    ensures Resolved(r, LiveFields(r.fields), again, p.index) == Ok(Again(p))
  {
  }

  lemma ChecksAgain(s: Store, ps: seq<Pending>, r: Store, key: Key, qs: seq<Pending>)
    requires Consistent(s) && Consistent(r) && Sound(s, ps) && Applied(s, ps, r)
    requires AllAgain(ps, qs)
    ensures AfterFields(r, LiveFields(r.fields), key, qs, r.nextField) == NoErrors(|qs|)
  {
    var defs := LiveFields(r.fields);
    forall i, f ensures 0 <= i < |qs| ==> Claim(qs[i], f) == Claim(ps[i], f) {
    }
    forall j, f | 0 <= j < |qs| && 0 <= f < r.nextField && Checks(defs, key, f) ensures FreeAt(r, qs[j], f) {
      if Claim(ps[j], f).Some? { GivenAnswers(s, ps, r, ps[j], f); }
    }
    forall i, j, f | 0 <= i < j < |qs| && 0 <= f < r.nextField && Checks(defs, key, f)
      ensures ApartAt(qs[i], qs[j], f)
    {
      assert Apart(s, ps[i], ps[j]) && UniqueField(s, f);
    }
    ChecksComplete(r, defs, key, qs, r.nextField);
  }

  /** `qs` are the items `ps` resolved to the contacts they wrote. */
  ghost predicate AllAgain(ps: seq<Pending>, qs: seq<Pending>) {
    |qs| == |ps| && forall i :: 0 <= i < |ps| ==> qs[i] == Again(ps[i])
  }

  lemma CandidatesAgain(s: Store, b: Batch, again: Batch, ps: seq<Pending>, r: Store, qs: seq<Pending>)
    requires Callable(s, b) && b.mode != Create && Consistent(r) && Sound(s, ps) && Applied(s, ps, r)
    requires again.key == b.key && again.mode == b.mode && again.items == b.items && |ps| == |b.items|
    requires forall i :: 0 <= i < |ps| ==> ps[i].index == i && IsCandidate(s, b, ps[i])
    requires AllAgain(ps, qs)
    ensures Candidates(r, LiveFields(r.fields), again, |b.items|) == qs
  {
    forall i | 0 <= i < |ps| ensures Resolved(r, LiveFields(r.fields), again, i) == Ok(qs[i]) {
      FoundAgain(s, b, ps, r, ps[i]);
      ResolvedAgain(s, b, again, r, ps[i]);
    }
    AllCandidates(r, again, |b.items|);
  }

  lemma AcceptedAgain(s: Store, b: Batch, again: Batch, ps: seq<Pending>, r: Store) returns (qs: seq<Pending>)
    requires Callable(s, b) && b.mode != Create && Consistent(r) && Sound(s, ps) && Applied(s, ps, r)
    requires again.key == b.key && again.mode == b.mode && again.items == b.items && |ps| == |b.items|
    requires forall i :: 0 <= i < |ps| ==> ps[i].index == i && IsCandidate(s, b, ps[i])
    ensures AllAgain(ps, qs) && Accepted(r, LiveFields(r.fields), again, r.nextField) == qs
  {
    qs := seq(|ps|, i requires 0 <= i < |ps| => Again(ps[i]));
    CandidatesAgain(s, b, again, ps, r, qs);
    ChecksAgain(s, ps, r, b.key, qs);
    AllStand(qs, NoErrors(|qs|));
  }

  lemma NoOpRows(s: Store, ps: seq<Pending>, r: Store, qs: seq<Pending>)
    requires Sound(s, ps) && Applied(s, ps, r) && AllAgain(ps, qs)
    ensures RowsFound(r.contacts, qs)
    ensures forall i :: 0 <= i < |qs| ==> !qs[i].created
    ensures forall i :: 0 <= i < |qs| ==> Merge(r.contacts[qs[i].id].data, qs[i].fields) == r.contacts[qs[i].id].data
  {
    forall i | 0 <= i < |qs|
      ensures Live(r.contacts, qs[i].id) && Merge(r.contacts[qs[i].id].data, qs[i].fields) == r.contacts[qs[i].id].data
    {
      assert ps[i] in ps && Fit(s, ps[i]);
      MergeTwice(Prior(s.contacts, ps[i]), ps[i].fields);
    }
    forall i, j | 0 <= i < j < |qs| ensures qs[i].id != qs[j].id {
      assert Apart(s, ps[i], ps[j]);
    }
  }

  /** What was written, with its claims, is fit to be written again. */
  lemma SoundAgain(s: Store, ps: seq<Pending>, r: Store, qs: seq<Pending>)
    requires Consistent(s) && Consistent(r) && Sound(s, ps) && Applied(s, ps, r) && AllAgain(ps, qs)
    ensures Sound(r, qs)
  {
    NoOpRows(s, ps, r, qs);
    forall i | 0 <= i < |qs| ensures Fit(r, qs[i]) {
      var p, q := ps[i], qs[i];
      assert Fit(s, p) && p in ps;
      forall f | UniqueField(r, f) && Claim(q, f).Some?
        ensures Lookup(r, FieldKey(f), Claim(q, f).value) == Some(q.id)
      {
        assert Claim(q, f) == Claim(p, f);
        GivenAnswers(s, ps, r, p, f);
      }
    }
    forall i, j | 0 <= i < j < |qs| ensures Apart(r, qs[i], qs[j]) {
      assert Apart(s, ps[i], ps[j]);
      forall f ensures Claim(qs[i], f) == Claim(ps[i], f) && Claim(qs[j], f) == Claim(ps[j], f) {
      }
    }
  }

  function Bumped(c: Contact, up: bool): Contact {
    c.(version := c.version + (if up then 1 else 0))
  }

  /** The second write of an item: its row as it is, one version more if it sends a negative zero. */
  lemma RowAgain(contacts: map<Id, Contact>, q: Pending)
    requires !q.created && q.id in contacts && Merge(contacts[q.id].data, q.fields) == contacts[q.id].data
    ensures RowAfter(contacts, q) == Bumped(contacts[q.id], Signed(q.fields))
  {
    ChangedAgain(contacts[q.id].data, q.fields);
  }

  /** A call whose accepted items repeat what is stored leaves the tables exactly if none is signed. */
  lemma CommitAgain(r: Store, qs: seq<Pending>, source: string, explicit: Option<ConsentInput>) returns (t: Store)
    requires Consistent(r) && Sound(r, qs) && forall i :: 0 <= i < |qs| ==> !qs[i].created
    requires forall i :: 0 <= i < |qs| ==>
      qs[i].id in r.contacts && Merge(r.contacts[qs[i].id].data, qs[i].fields) == r.contacts[qs[i].id].data
    ensures Commit(r, LiveFields(r.fields), qs, source, explicit) == Some(t)
    ensures t == r <==> forall i :: 0 <= i < |qs| ==> !Signed(qs[i].fields)
    ensures forall i :: 0 <= i < |qs| ==>
      qs[i].id in t.contacts && t.contacts[qs[i].id] == Bumped(r.contacts[qs[i].id], Signed(qs[i].fields))
  {
    SoundCommits(r, qs, source, explicit);
    t := Commit(r, LiveFields(r.fields), qs, source, explicit).value;
    CommitApplies(r, qs, source, explicit, t);
    forall i | 0 <= i < |qs|
      ensures qs[i].id in t.contacts && t.contacts[qs[i].id] == Bumped(r.contacts[qs[i].id], Signed(qs[i].fields))
    {
      assert qs[i] in qs;
      RowAgain(r.contacts, qs[i]);
    }
    if forall i :: 0 <= i < |qs| ==> !Signed(qs[i].fields) {
      AllExisting(qs);
      BatchFrom(r, qs, source);
      NoOpCommits(r, qs, source, explicit);
    }
  }

  /** What a repeated item is answered: its contact, not created, nothing changed. */
  function Unchanged(r: ItemResult): ItemResult {
    r.(created := false, changed := [])
  }

  /** Property `f` of the item normalizes to a negative zero. */
  predicate SendsMinusZero(defs: map<nat, FieldDef>, item: Item, f: nat) {
    f in defs && Get(item, FieldKey(f)).Some? && NormalizeValue(defs[f], Get(item, FieldKey(f)).value) ==
      Ok(Some(MinusZero))
  }

  ghost predicate SignedItem(defs: map<nat, FieldDef>, item: Item) {
    exists f :: SendsMinusZero(defs, item, f)
  }

  lemma SignedIs(s: Store, b: Batch, p: Pending)
    requires IsCandidate(s, b, p)
    ensures Signed(p.fields) <==> SignedItem(LiveFields(s.fields), b.items[p.index])
  {
    var defs, item := LiveFields(s.fields), b.items[p.index];
    forall f ensures Sent(p.fields, f) == Some(Some(MinusZero)) <==> SendsMinusZero(defs, item, f) {
      FieldsSent(defs, b.key, item, f);
    }
  }

  /** An accepted item answered again: the same contact, and exactly its negative zeros changed. */
  lemma AnswerAgain(s: Store, b: Batch, again: Batch, r: Store, p: Pending)
    requires p in Accepted(s, LiveFields(s.fields), b, s.nextField)
    requires Again(p) in Accepted(r, LiveFields(r.fields), again, r.nextField)
    requires p.id in r.contacts && Merge(r.contacts[p.id].data, p.fields) == r.contacts[p.id].data
    ensures p.index < |b.items| && p.index < |again.items|
    ensures
      var first := Results(s, LiveFields(s.fields), b, s.nextField)[p.index];
      var second := Results(r, LiveFields(r.fields), again, r.nextField)[p.index];
      && second.(changed := []) == Unchanged(first) && second.id == Some(p.id)
      && (second == Unchanged(first) <==> !SignedItem(LiveFields(s.fields), b.items[p.index]))
  {
    AcceptedAnswer(s, b, p);
    AcceptedAnswer(r, again, Again(p));
    SignedIs(s, b, p);
    ChangedAgain(r.contacts[p.id].data, p.fields);
  }

  /** The second call of a fully accepted batch accepts it in full. */
  lemma ReplayAccepts(s: Store, b: Batch, again: Batch, r: Store, ps: seq<Pending>) returns (qs: seq<Pending>)
    requires Callable(s, b) && b.mode != Create && again == b.(ids := again.ids)
    requires ps == Accepted(s, LiveFields(s.fields), b, s.nextField) && |ps| == |b.items|
    requires forall i :: 0 <= i < |ps| ==> ps[i].index == i && IsCandidate(s, b, ps[i])
    requires Sound(s, ps) && Applied(s, ps, r) && Consistent(r)
    ensures AllAgain(ps, qs) && Accepted(r, LiveFields(r.fields), again, r.nextField) == qs && Sound(r, qs)
    ensures forall i :: 0 <= i < |qs| ==>
      qs[i].id in r.contacts && Merge(r.contacts[qs[i].id].data, qs[i].fields) == r.contacts[qs[i].id].data
  {
    qs := AcceptedAgain(s, b, again, ps, r);
    NoOpRows(s, ps, r, qs);
    SoundAgain(s, ps, r, qs);
  }

  /** What the second call leaves, given the items it accepts. */
  lemma ReplayLeaves(r: Store, again: Batch, qs: seq<Pending>) returns (t: Store)
    requires Consistent(r) && Sound(r, qs) && qs == Accepted(r, LiveFields(r.fields), again, r.nextField)
    requires forall i :: 0 <= i < |qs| ==> !qs[i].created && qs[i].id in r.contacts
    requires forall i :: 0 <= i < |qs| ==> Merge(r.contacts[qs[i].id].data, qs[i].fields) == r.contacts[qs[i].id].data
    ensures Attempt(r, again).Finished? && Attempt(r, again).store == t
    ensures t == r <==> forall i :: 0 <= i < |qs| ==> !Signed(qs[i].fields)
  {
    t := CommitAgain(r, qs, again.source, again.explicit);
  }

  ghost predicate SignedBatch(defs: map<nat, FieldDef>, b: Batch) {
    exists i :: 0 <= i < |b.items| && SignedItem(defs, b.items[i])
  }

  lemma SignedBatchIs(s: Store, b: Batch, ps: seq<Pending>, qs: seq<Pending>)
    requires |ps| == |b.items| && AllAgain(ps, qs)
    requires forall i :: 0 <= i < |ps| ==> ps[i].index == i && IsCandidate(s, b, ps[i])
    ensures SignedBatch(LiveFields(s.fields), b) <==> exists i :: 0 <= i < |qs| && Signed(qs[i].fields)
  {
    forall i | 0 <= i < |ps| ensures Signed(qs[i].fields) <==> SignedItem(LiveFields(s.fields), b.items[i]) {
      SignedIs(s, b, ps[i]);
    }
  }

  /**
   Main result, exact: a fully accepted upsert or update sent again finds the contacts it wrote and leaves
   every table as it is, with no version, event or consent entry more, if and only if no property it sends
   normalizes to -0.
   */
  lemma ReplayExactly(s: Store, b: Batch, again: Batch, r: Store)
    requires Callable(s, b) && b.mode != Create && FullyAccepted(s, b) && again == b.(ids := again.ids)
    requires Attempt(s, b).Finished? && r == Attempt(s, b).store
    ensures Attempt(r, again).Finished?
    ensures Attempt(r, again).store == r <==> !SignedBatch(LiveFields(s.fields), b)
  {
    AcceptedSound(s, b);
    AttemptApplies(s, b);
    var ps := FullyAcceptedItems(s, b);
    var qs := ReplayAccepts(s, b, again, r, ps);
    var t := ReplayLeaves(r, again, qs);
    SignedBatchIs(s, b, ps, qs);
  }

  /**
   Each item is accepted again and answered as before but for `created`; nothing but a negative zero counts as
   changed.
   */
  lemma ReplayAnswers(s: Store, b: Batch, again: Batch, r: Store, i: nat)
    requires Callable(s, b) && b.mode != Create && FullyAccepted(s, b) && again == b.(ids := again.ids)
    requires Attempt(s, b).Finished? && r == Attempt(s, b).store && i < |b.items|
    ensures
      var first := Results(s, LiveFields(s.fields), b, s.nextField)[i];
      var second := Results(r, LiveFields(r.fields), again, r.nextField)[i];
      && second.(changed := []) == Unchanged(first)
      && (second == Unchanged(first) <==> !SignedItem(LiveFields(s.fields), b.items[i]))
  {
    AcceptedSound(s, b);
    AttemptApplies(s, b);
    var ps := FullyAcceptedItems(s, b);
    var qs := ReplayAccepts(s, b, again, r, ps);
    assert ps[i] in ps && qs[i] in qs;
    AnswerAgain(s, b, again, r, ps[i]);
  }

  /** The importer's "-0": sent to a numeric field, it makes every retry write again. */
  lemma MinusZeroIsSigned(s: Store, f: nat, item: Item)
    requires f in LiveFields(s.fields) && s.fields[f].fieldType.Numeric? && Get(item, FieldKey(f)) == Some(JStr("-0"))
    ensures SignedItem(LiveFields(s.fields), item)
  {
    MinusZeroText(s.fields[f]);
    assert SendsMinusZero(LiveFields(s.fields), item, f);
  }
}
