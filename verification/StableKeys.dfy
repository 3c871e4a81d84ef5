/**
 Where validation stops being complete: a key that does not read like what is stored for it. White
 space that the service trims and the generated column keeps, or a number that is not written as
 JavaScript prints it. The contact stored under such a key cannot be found by it again.
 */
module StableKeys {
  import opened Wrappers
  import opened Text
  import opened FieldValues
  import opened Tables
  import opened BatchCommit
  import opened CommitInvariant
  import opened KeyResolver
  import opened BatchChecks
  import opened BatchTheorems
  import opened BatchRefinement
  import opened BatchReplay
  import opened TenantRuns

  lemma AllSpacesLeft(v: string)
    requires forall i :: 0 <= i < |v| ==> v[i] == ' '
    ensures DropLeft(v, IsJsSpace) == ""
  {
  }

  lemma DropRightNone(v: string)
    requires DropRight(v, IsPgSpace) == ""
    ensures forall i :: 0 <= i < |v| ==> v[i] == ' '
  {
  }

  lemma DropLeftSpaces(v: string)
    requires forall i :: 0 <= i < |DropLeft(v, IsPgSpace)| ==> DropLeft(v, IsPgSpace)[i] == ' '
    ensures forall i :: 0 <= i < |v| ==> v[i] == ' '
  {
    if v != "" && IsPgSpace(v[0]) {
      assert DropLeft(v, IsPgSpace) == DropLeft(v[1..], IsPgSpace);
      DropLeftSpaces(v[1..]);
      assert v == [v[0]] + v[1..];
    } else {
      assert DropLeft(v, IsPgSpace) == v;
    }
  }

  /** Text that is not blank to the service is not empty to the database either. */
  lemma NotBlankInDatabase(f: nat, v: string)
    requires !Blank(v)
    ensures PgNorm(f, v) != ""
  {
    if PgTrim(v) == "" {
      DropRightNone(DropLeft(v, IsPgSpace));
      DropLeftSpaces(v);
      AllSpacesLeft(v);
    }
  }

  /** Key text `k` of field `f`, stored as value `v`, is found again by the same text. */
  predicate StableKey(f: nat, k: string, v: Value) {
    if IsColumn(f) then Plain(f, k) else Str(v) == k
  }

  // ---- a call with nothing but its key

  /** An upsert of one contact that sends only its key. */
  function OnlyKey(f: nat, raw: Raw, id: Id, source: string): Batch {
    Call(FieldKey(f), Upsert, [[(FieldKey(f), raw)]], [id], source, None)
  }

  /** Unique field `f` takes `raw` as its value `v`; the text of the key is `k`. */
  ghost predicate Takes(s: Store, f: nat, raw: Raw, k: string, v: Value) {
    && UniqueField(s, f) && !s.fields[f].readOnly
    && KeyText([(FieldKey(f), raw)], FieldKey(f)) == k && !Blank(k) && !Blank(Str(v))
    && NormalizeValue(s.fields[f], raw) == Ok(Some(v))
  }

  lemma ColumnTakesText(s: Store, f: nat, raw: Raw, k: string, v: Value)
    requires SystemFields(s) && IsColumn(f) && Takes(s, f, raw, k, v)
    ensures v == TextValue(k) && Str(v) == k
  {
    assert f in {EMAIL, EXTERNAL_ID};
  }

  lemma OnlyKeyResolves(s: Store, f: nat, raw: Raw, k: string, v: Value, id: Id, source: string)
    requires Takes(s, f, raw, k, v)
    ensures var found := Lookup(s, FieldKey(f), k);
      Resolved(s, LiveFields(s.fields), OnlyKey(f, raw, id, source), 0)
        == Ok(Pending(0, k, [(f, Some(v))], if found.Some? then found.value else id, found.None?))
  {
    var b := OnlyKey(f, raw, id, source);
    var item := b.items[0];
    assert Fields(LiveFields(s.fields), b.key, item[..0]) == Ok([]);
    assert FieldError(LiveFields(s.fields), FieldKey(f), raw) == Ok(Some(v));
    assert [] + [(f, Some(v))] == [(f, Some(v))];
    assert Fields(LiveFields(s.fields), b.key, item) == Ok([(f, Some(v))]);
  }

  lemma OnlyKeyAccepted(s: Store, f: nat, raw: Raw, v: Value, id: Id, source: string, p: Pending)
    requires Resolved(s, LiveFields(s.fields), OnlyKey(f, raw, id, source), 0) == Ok(p)
    requires p.fields == [(f, Some(v))]
    ensures Accepted(s, LiveFields(s.fields), OnlyKey(f, raw, id, source), s.nextField) == [p]
  {
    var defs := LiveFields(s.fields);
    OneCandidate(s, OnlyKey(f, raw, id, source), p);
    forall x | Checks(defs, FieldKey(f), x) ensures Claim(p, x).None? {
      assert Sent(p.fields, x) == if f == x then Some(Some(v)) else Sent([], x);
    }
    ChecksComplete(s, defs, FieldKey(f), [p], s.nextField);
    assert Standing([], []) == [];
  }

  /** What the call answers, given where its key leads. */
  lemma OnlyKeyAttempt(s: Store, f: nat, raw: Raw, k: string, v: Value, id: Id, source: string) returns (p: Pending)
    requires Takes(s, f, raw, k, v)
    ensures var found := Lookup(s, FieldKey(f), k);
      p == Pending(0, k, [(f, Some(v))], if found.Some? then found.value else id, found.None?)
    ensures Attempt(s, OnlyKey(f, raw, id, source)) ==
      match Commit(s, LiveFields(s.fields), [p], source, None)
      case Some(r) => Finished([Succeeded(s.contacts, p)], r)
      case None => Retry
  {
    var b := OnlyKey(f, raw, id, source);
    OnlyKeyResolves(s, f, raw, k, v, id, source);
    p := Resolved(s, LiveFields(s.fields), b, 0).value;
    OnlyKeyAccepted(s, f, raw, v, id, source, p);
    AcceptedAnswer(s, b, p);
    assert Results(s, LiveFields(s.fields), b, s.nextField) == [Succeeded(s.contacts, p)];
  }

  // ---- its transaction

  lemma OneField(prior: Data, f: nat, v: Value)
    ensures Merge(prior, [(f, Some(v))]) == prior[f := Stored(v)]
    ensures ChangedOf(prior, prior[f := Stored(v)], [(f, Some(v))]) ==
      if At(prior, f) == Some(Stored(v)) && v != MinusZero then [] else [f]
    ensures Signed([(f, Some(v))]) <==> v == MinusZero
  {
    var sent: FieldSet := [(f, Some(v))];
    assert sent[..0] == [];
    assert Merge(prior, []) == prior;
    forall x ensures Sent(sent, x) == if x == f then Some(Some(v)) else None {
      assert Sent([], x) == None;
    }
    assert v == MinusZero ==> Sent(sent, f) == Some(Some(MinusZero));
  }

  /** The change a one-item batch makes. */
  lemma OneChange(s: Store, p: Pending, source: string)
    requires p.created || (Live(s.contacts, p.id) && ChangeOf(Prior(s.contacts, p), false, p, source).changed != [])
    ensures RowsFound(s.contacts, Existing([p]))
    ensures BatchChanges(s.contacts, [p], source) == [ChangeOf(Prior(s.contacts, p), p.created, p, source)]
  {
    assert [p][..0] == [];
    assert Existing([]) == [] && New([]) == [];
    assert New([p]) == New([p][..0]) + (if p.created then [p] else []);
    assert Existing([p]) == if p.created then [] else [p];
    if !p.created {
      assert UpdateChanges(s.contacts, [], source) == [];
    }
  }

  /** A live contact that has the column's value makes the insert of another one fail. */
  lemma KeyTaken(s: Store, f: nat, c: Id, v: string, p: Pending, source: string)
    requires IsColumn(f) && !Blank(v) && Live(s.contacts, c) && c != p.id
    requires f in s.contacts[c].data && Str(s.contacts[c].data[f]) == v
    requires p.created && p.fields == [(f, Some(TextValue(v)))]
    ensures Commit(s, LiveFields(s.fields), [p], source, None).None?
  {
    var change := ChangeOf(map[], true, p, source);
    OneField(map[], f, TextValue(v));
    OneChange(s, p, source);
    NotBlankInDatabase(f, v);
    assert Column(change.after, f) == Some(PgNorm(f, v));
    assert f in {EMAIL, EXTERNAL_ID} && c in s.contacts;
    assert Taken(s.contacts, p.id, change.after);
    assert [change][..0] == [];
    assert PutRows(s.contacts, [change]) == PutRow(s.contacts, change);
  }

  lemma OneValue(defs: map<nat, FieldDef>, change: Change, f: nat)
    requires change.changed == [f] && Synced(defs, f)
    ensures Cleared(defs, [change]) == {(change.contact, f)}
    ensures Values(defs, [change]) ==
      if Entry(change.after, f).Some? then [((f, Entry(change.after, f).value), change.contact)] else []
  {
    assert [f][..0] == [] && [change][..0] == [];
    assert ClearedBy(defs, change, []) == {} && Cleared(defs, []) == {};
    assert ValuesBy(defs, change, []) == [] && Values(defs, []) == [];
  }

  lemma InsertOne(uniq: map<(nat, string), Id>, k: (nat, string), c: Id)
    ensures InsertAll(uniq, [(k, c)]).None? <==> k in uniq
  {
    assert [(k, c)][..0] == [];
    assert InsertAll(uniq, []) == Some(uniq);
  }

  lemma ValueConflicts(uniq: map<(nat, string), Id>, defs: map<nat, FieldDef>, change: Change, f: nat, t: string)
    requires change.changed == [f] && Synced(defs, f) && Entry(change.after, f) == Some(t)
    requires (f, t) in uniq && uniq[(f, t)] != change.contact
    ensures SyncUnique(uniq, defs, [change]).None?
  {
    OneValue(defs, change, f);
    InsertOne(Without(uniq, {(change.contact, f)}), (f, t), change.contact);
  }

  lemma OtherHasNot(s: Store, f: nat, c: Id, o: Id, v: Value)
    requires Consistent(s) && UniqueField(s, f) && !IsColumn(f) && !Blank(Str(v)) && Live(s.contacts, c) && c != o
    requires At(s.contacts[c].data, f) == Some(Stored(v))
    ensures (f, Str(v)) in s.uniq && s.uniq[(f, Str(v))] == c
    ensures Live(s.contacts, o) ==> At(s.contacts[o].data, f) != Some(Stored(v))
  {
    assert Synced(s.fields, f) && Entry(s.contacts[c].data, f) == Some(Str(v));
    assert Live(s.contacts, o) && At(s.contacts[o].data, f) == Some(Stored(v)) ==>
      Entry(s.contacts[o].data, f) == Some(Str(v));
  }

  lemma OneValueChange(prior: Data, f: nat, v: Value, p: Pending, source: string) returns (change: Change)
    requires At(prior, f) != Some(Stored(v)) && p.fields == [(f, Some(v))] && !Blank(Str(v)) && !IsColumn(f)
    ensures change == ChangeOf(prior, p.created, p, source)
    ensures change.contact == p.id && change.changed == [f] && Entry(change.after, f) == Some(Str(v))
  {
    OneField(prior, f, v);
    change := ChangeOf(prior, p.created, p, source);
  }

  /** A live contact that has a custom unique value makes every write of it to another one fail. */
  lemma ValueTaken(s: Store, f: nat, c: Id, v: Value, p: Pending, source: string)
    requires Consistent(s) && UniqueField(s, f) && !IsColumn(f) && !Blank(Str(v)) && Live(s.contacts, c) && c != p.id
    requires At(s.contacts[c].data, f) == Some(Stored(v)) && p.fields == [(f, Some(v))]
    requires p.created || Live(s.contacts, p.id)
    ensures Commit(s, LiveFields(s.fields), [p], source, None).None?
  {
    OtherHasNot(s, f, c, p.id, v);
    var change := OneValueChange(Prior(s.contacts, p), f, v, p, source);
    OneChange(s, p, source);
    ValueConflicts(s.uniq, LiveFields(s.fields), change, f, Str(v));
  }

  lemma OwnKeyNoOp(s: Store, f: nat, c: Id, v: Value, p: Pending, source: string)
    requires Consistent(s) && Live(s.contacts, c) && At(s.contacts[c].data, f) == Some(Stored(v))
    requires !p.created && p.id == c && p.fields == [(f, Some(v))]
    ensures v != MinusZero ==> Commit(s, LiveFields(s.fields), [p], source, None) == Some(s)
    ensures Succeeded(s.contacts, p) ==
      ItemResult(p.index, Some(p.key), Some(c), false, if v == MinusZero then [f] else [], None)
  {
    var d := s.contacts[c].data;
    OneField(d, f, v);
    assert d[f := Stored(v)] == d;
    if v != MinusZero {
      NoOpCommits(s, [p], source, None);
    }
  }

  // ---- the exact condition

  lemma FoundExactly(s: Store, f: nat, c: Id, k: string, v: Value)
    requires Consistent(s) && UniqueField(s, f) && Live(s.contacts, c) && !Blank(k) && !Blank(Str(v))
    requires At(s.contacts[c].data, f) == Some(Stored(v)) && (IsColumn(f) ==> Str(v) == k)
    ensures Lookup(s, FieldKey(f), k) == Some(c) <==> StableKey(f, k, v)
  {
    if IsColumn(f) {
      FoundByOwnValue(s, f, c);
    } else {
      LookupIsScan(s, f, k, c);
    }
  }

  lemma StableKeyAgain(s: Store, f: nat, c: Id, raw: Raw, k: string, v: Value, id: Id, source: string)
    requires Consistent(s) && Takes(s, f, raw, k, v) && StableKey(f, k, v)
    requires Live(s.contacts, c) && At(s.contacts[c].data, f) == Some(Stored(v))
    ensures Attempt(s, OnlyKey(f, raw, id, source)).Finished? ==>
      Attempt(s, OnlyKey(f, raw, id, source)).results ==
        [ItemResult(0, Some(k), Some(c), false, if v == MinusZero then [f] else [], None)]
    ensures v != MinusZero ==>
      Attempt(s, OnlyKey(f, raw, id, source)) == Finished([ItemResult(0, Some(k), Some(c), false, [], None)], s)
  {
    var p := OnlyKeyAttempt(s, f, raw, k, v, id, source);
    if IsColumn(f) {
      ColumnTakesText(s, f, raw, k, v);
    }
    FoundExactly(s, f, c, k, v);
    OwnKeyNoOp(s, f, c, v, p, source);
  }

  /** The answer names the contact the key leads to. */
  lemma OnlyKeyFinds(s: Store, f: nat, raw: Raw, k: string, v: Value, id: Id, source: string)
    requires Takes(s, f, raw, k, v) && Lookup(s, FieldKey(f), k).Some?
    ensures Attempt(s, OnlyKey(f, raw, id, source)).Finished? ==>
      Attempt(s, OnlyKey(f, raw, id, source)).results[0].id == Lookup(s, FieldKey(f), k)
  {
    var p := OnlyKeyAttempt(s, f, raw, k, v, id, source);
    assert [Succeeded(s.contacts, p)][0].id == Lookup(s, FieldKey(f), k);
  }

  lemma UnstableColumnAgain(s: Store, f: nat, c: Id, raw: Raw, k: string, v: Value, id: Id, source: string)
    requires Consistent(s) && Takes(s, f, raw, k, v) && !StableKey(f, k, v) && Unused(s, id) && IsColumn(f)
    requires Live(s.contacts, c) && At(s.contacts[c].data, f) == Some(Stored(v))
    ensures Lookup(s, FieldKey(f), k) != Some(c)
    ensures Lookup(s, FieldKey(f), k).None? ==> Attempt(s, OnlyKey(f, raw, id, source)) == Retry
  {
    ColumnTakesText(s, f, raw, k, v);
    FoundExactly(s, f, c, k, v);
    if Lookup(s, FieldKey(f), k).None? {
      var p := OnlyKeyAttempt(s, f, raw, k, v, id, source);
      KeyTaken(s, f, c, k, p, source);
    }
  }

  lemma UnstableCustomAgain(s: Store, f: nat, c: Id, raw: Raw, k: string, v: Value, id: Id, source: string)
    requires Consistent(s) && Takes(s, f, raw, k, v) && !StableKey(f, k, v) && Unused(s, id) && !IsColumn(f)
    requires Live(s.contacts, c) && At(s.contacts[c].data, f) == Some(Stored(v))
    ensures Attempt(s, OnlyKey(f, raw, id, source)) == Retry
  {
    var p := OnlyKeyAttempt(s, f, raw, k, v, id, source);
    FoundExactly(s, f, c, k, v);
    ValueTaken(s, f, c, v, p, source);
  }

  /**
   Main result, exact: sending a contact's own stored key again is the no-op it should be if and only if
   the key is stable and no negative zero. If it is not stable the attempt collides with the contact it
   could not find, and so does every retry; for a column, unless another contact answers to the key.
   */
  lemma OwnKeyAgain(s: Store, f: nat, c: Id, raw: Raw, k: string, v: Value, id: Id, source: string)
    requires Consistent(s) && Takes(s, f, raw, k, v) && Unused(s, id)
    requires Live(s.contacts, c) && At(s.contacts[c].data, f) == Some(Stored(v))
    ensures StableKey(f, k, v) && v != MinusZero <==>
      Attempt(s, OnlyKey(f, raw, id, source)) == Finished([ItemResult(0, Some(k), Some(c), false, [], None)], s)
    ensures !StableKey(f, k, v) && (IsColumn(f) ==> Lookup(s, FieldKey(f), k).None?) ==>
      Attempt(s, OnlyKey(f, raw, id, source)) == Retry
  {
    if StableKey(f, k, v) {
      StableKeyAgain(s, f, c, raw, k, v, id, source);
    } else if IsColumn(f) {
      UnstableColumnAgain(s, f, c, raw, k, v, id, source);
      if Lookup(s, FieldKey(f), k).Some? {
        OnlyKeyFinds(s, f, raw, k, v, id, source);
      }
    } else {
      UnstableCustomAgain(s, f, c, raw, k, v, id, source);
    }
  }

  // ---- from an empty tenant

  lemma FirstCommit(s: Store, f: nat, v: Value, p: Pending, source: string) returns (r: Store)
    requires Fresh(s) && p.created && p.fields == [(f, Some(v))] && f !in {31, 32, 33}
    ensures Commit(s, LiveFields(s.fields), [p], source, None) == Some(r)
    ensures r.contacts == map[p.id := Contact(map[f := Stored(v)], 1, false)] && r.consents == []
    ensures r.fields == s.fields
  {
    var change := ChangeOf(map[], true, p, source);
    var changes := [change];
    OneField(map[], f, v);
    OneChange(s, p, source);
    assert changes[..0] == [] && [f][..0] == [];
    assert PutRows(s.contacts, changes) == PutRow(s.contacts, change);
    FirstValues(s, change, f);
    assert ConsentRowsBy(change, [f], None) == ConsentRowsBy(change, [f][..0], None);
    assert ConsentRows(changes, None) == ConsentRows(changes[..0], None) + [];
    r := Commit(s, LiveFields(s.fields), [p], source, None).value;
  }

  lemma FirstIsConsistent(s: Store, f: nat, v: Value, p: Pending, source: string, r: Store)
    requires Fresh(s) && f in LiveFields(s.fields) && p.created && p.fields == [(f, Some(v))] && f !in {31, 32, 33}
    requires Commit(s, LiveFields(s.fields), [p], source, None) == Some(r)
    ensures Consistent(r)
  {
    FreshIsConsistent(s);
    forall x ensures Sent(p.fields, x).Some? ==> x == f {
      assert p.fields[..0] == [] && Sent([], x) == None;
    }
    assert Ready(s, LiveFields(s.fields), [p][0]);
    CommitKeepsConsistent(s, LiveFields(s.fields), [p], source, None);
  }

  /** The first contact of a tenant gets its key. */
  lemma FirstWrite(s: Store, f: nat, raw: Raw, k: string, v: Value, id: Id, source: string) returns (r: Store)
    requires Fresh(s) && Takes(s, f, raw, k, v) && f !in {31, 32, 33}
    ensures Attempt(s, OnlyKey(f, raw, id, source)).Finished? && Attempt(s, OnlyKey(f, raw, id, source)).store == r
    ensures Consistent(r) && r.fields == s.fields && r.contacts == map[id := Contact(map[f := Stored(v)], 1, false)]
    ensures r.consents == []
  {
    var p := OnlyKeyAttempt(s, f, raw, k, v, id, source);
    r := FirstCommit(s, f, v, p, source);
    FirstIsConsistent(s, f, v, p, source, r);
  }

  lemma FirstValues(s: Store, change: Change, f: nat)
    requires s.uniq == map[] && change.changed == [f]
    ensures SyncUnique(s.uniq, LiveFields(s.fields), [change]).Some?
  {
    var defs := LiveFields(s.fields);
    if Synced(defs, f) {
      OneValue(defs, change, f);
      if Entry(change.after, f).Some? {
        InsertOne(Without(s.uniq, Cleared(defs, [change])), (f, Entry(change.after, f).value), change.contact);
      }
    } else {
      assert [f][..0] == [] && [change][..0] == [];
      assert ValuesBy(defs, change, []) == [] && Values(defs, []) == [];
      assert Values(defs, [change]) == [];
    }
  }

  /** The only contact does not answer to an unstable key, and nothing else can. */
  lemma NoOther(r: Store, f: nat, raw: Raw, k: string, v: Value, first: Id, second: Id)
    requires Consistent(r) && Takes(r, f, raw, k, v) && first != second && !StableKey(f, k, v)
    requires r.contacts == map[first := Contact(map[f := Stored(v)], 1, false)] && r.consents == []
    ensures Unused(r, second) && (IsColumn(f) ==> Lookup(r, FieldKey(f), k).None?)
  {
    if IsColumn(f) {
      ColumnTakesText(r, f, raw, k, v);
      FoundExactly(r, f, first, k, v);
    }
  }

  lemma AfterFirst(r: Store, f: nat, raw: Raw, k: string, v: Value, first: Id, second: Id, source: string)
    requires Consistent(r) && Takes(r, f, raw, k, v) && first != second && v != MinusZero
    requires r.contacts == map[first := Contact(map[f := Stored(v)], 1, false)] && r.consents == []
    ensures Attempt(r, OnlyKey(f, raw, second, source)) ==
      if StableKey(f, k, v) then Finished([ItemResult(0, Some(k), Some(first), false, [], None)], r) else Retry
  {
    if StableKey(f, k, v) {
      StableKeyAgain(r, f, first, raw, k, v, second, source);
    } else {
      NoOther(r, f, raw, k, v, first, second);
      OwnKeyAgain(r, f, first, raw, k, v, second, source);
    }
  }

  /** The same key sent twice to a new tenant: the second call is refused for good exactly if the key is not stable. */
  lemma SentTwice(s: Store, f: nat, raw: Raw, k: string, v: Value, first: Id, second: Id, source: string)
    requires Fresh(s) && Takes(s, f, raw, k, v) && f !in {31, 32, 33} && first != second && v != MinusZero
    ensures Attempt(s, OnlyKey(f, raw, first, source)).Finished?
    ensures Consistent(Attempt(s, OnlyKey(f, raw, first, source)).store)
    ensures
      var r := Attempt(s, OnlyKey(f, raw, first, source)).store;
      Attempt(r, OnlyKey(f, raw, second, source)) ==
        if StableKey(f, k, v) then Finished([ItemResult(0, Some(k), Some(first), false, [], None)], r) else Retry
  {
    var r := FirstWrite(s, f, raw, k, v, first, source);
    AfterFirst(r, f, raw, k, v, first, second, source);
  }

  const TABBED := "\ta@b.c"

  /** An email with a tab in front is written once and refused ever after. */
  lemma TabbedEmail(s: Store, first: Id, second: Id, source: string)
    requires Fresh(s) && first != second
    ensures
      var b := OnlyKey(EMAIL, JStr(TABBED), first, source);
      && Attempt(s, b).Finished? && Consistent(Attempt(s, b).store)
      && Attempt(Attempt(s, b).store, b.(ids := [second])) == Retry
  {
    var k := TABBED;
    assert k[1..] == "a@b.c";
    assert DropLeft("a@b.c", IsJsSpace) == "a@b.c";
    assert DropLeft(k, IsJsSpace) == "a@b.c";
    assert EMAIL in {EMAIL, EXTERNAL_ID};
    assert Takes(s, EMAIL, JStr(k), k, TextValue(k));
    assert !Plain(EMAIL, k);
    SentTwice(s, EMAIL, JStr(k), k, TextValue(k), first, second, source);
  }

  /** So is "01" as the key of a unique numeric field, which is stored as 1. */
  lemma PaddedNumber(s: Store, f: nat, first: Id, second: Id, source: string)
    requires Fresh(s) && UniqueField(s, f) && !s.fields[f].readOnly && s.fields[f].fieldType.Numeric? && first != second
    ensures
      var b := OnlyKey(f, JStr("01"), first, source);
      && Attempt(s, b).Finished? && Consistent(Attempt(s, b).store)
      && Attempt(Attempt(s, b).store, b.(ids := [second])) == Retry
  {
    PaddedNumberIsOne(s.fields[f]);
    assert f !in {31, 32, 33} && !IsColumn(f) by {
      assert forall x :: x in {EMAIL, EXTERNAL_ID} ==> s.fields[x].fieldType == FieldType.Text;
    }
    assert Takes(s, f, JStr("01"), "01", Number(Decimal(1, 0)));
    SentTwice(s, f, JStr("01"), "01", Number(Decimal(1, 0)), first, second, source);
  }

  lemma PaddedNumberIsOne(def: FieldDef)
    requires def.fieldType.Numeric?
    ensures NormalizeValue(def, JStr("01")) == Ok(Some(Number(Decimal(1, 0)))) && Str(Number(Decimal(1, 0))) == "1"
    ensures !Blank("01") && !Blank("1")
  {
    var s := "01";
    assert DropLeft(s, IsJsSpace) == s && DropRight(s, IsJsSpace) == s;
    assert s[1..] == "1" && "1"[1..] == "" && DotAt("") == 0 && DotAt("1") == 1 && DotAt(s) == 2;
    assert s[..2] == s && s + "0" == "010";
    assert "010"[..2] == "01" && "01"[..1] == "0" && "0"[..0] == "";
    assert DigitsValue("") == 0 && DigitsValue("0") == 0 && DigitsValue("01") == 1 && DigitsValue("010") == 10;
    assert Shorten(10, 1) == Decimal(1, 0) by {
      assert Shorten(1, 0) == Decimal(1, 0);
    }
    assert PadLeft("1", 1) == "1";
  }
}
