/**
 Sending a partly accepted batch again. What was accepted keeps its data; but an item refused the first
 time may come further the second time and claim a value first, so that a later item, which had got the
 value, is refused.
 */
module PartialReplay {
  import opened Wrappers
  import opened Text
  import opened FieldValues
  import opened Tables
  import opened BatchCommit
  import opened KeyResolver
  import opened BatchChecks
  import opened BatchSafety
  import opened BatchTheorems
  import opened BatchRefinement
  import opened BatchReplay

  // ---- checks that only a repeated value can fail

  /** An item before the `j`-th, not refused until field `f`, asks for the same value of it. */
  ghost predicate Forestalled(s: Store, key: Key, ps: seq<Pending>, j: nat, f: nat) {
    && j < |ps| && Checks(LiveFields(s.fields), key, f) && Claim(ps[j], f).Some?
    && exists i :: 0 <= i < j
         && Setter(ps, AfterFields(s, LiveFields(s.fields), key, ps, f), f, i) && !ApartAt(ps[i], ps[j], f)
  }

  /** What the item asks for in the unique fields below `n` is free or its contact's own. */
  ghost predicate FreeOwn(s: Store, key: Key, p: Pending, n: nat) {
    forall f :: 0 <= f < n && Checks(LiveFields(s.fields), key, f) ==> FreeAt(s, p, f)
  }

  /** One more field fails an item whose value is free exactly if the item is forestalled there. */
  lemma FieldFails(s: Store, key: Key, ps: seq<Pending>, j: nat, f: nat)
    requires j < |ps| && FreeOwn(s, key, ps[j], f + 1)
    ensures AfterFields(s, LiveFields(s.fields), key, ps, f + 1)[j] ==
      var e := AfterFields(s, LiveFields(s.fields), key, ps, f)[j];
      if e.None? && Forestalled(s, key, ps, j, f) then Some(ItemError(NO_KEY, Some(FieldKey(f)))) else e
  {
    var head := AfterFields(s, LiveFields(s.fields), key, ps, f);
    if Checks(LiveFields(s.fields), key, f) && head[j].None? && Claim(ps[j], f).Some? {
      assert FreeAt(s, ps[j], f);
      assert Setter(ps, head, f, j);
    }
  }

  ghost predicate ForestalledBelow(s: Store, key: Key, ps: seq<Pending>, j: nat, n: nat) {
    n > 0 && (ForestalledBelow(s, key, ps, j, n - 1) || Forestalled(s, key, ps, j, n - 1))
  }

  lemma {:induction false} BelowHas(s: Store, key: Key, ps: seq<Pending>, j: nat, f: nat, n: nat)
    requires f < n && Forestalled(s, key, ps, j, f)
    ensures ForestalledBelow(s, key, ps, j, n)
  {
    if f < n - 1 {
      BelowHas(s, key, ps, j, f, n - 1);
    }
  }

  lemma {:induction false} BelowNone(s: Store, key: Key, ps: seq<Pending>, j: nat, n: nat)
    requires forall f :: 0 <= f < n ==> !Forestalled(s, key, ps, j, f)
    ensures !ForestalledBelow(s, key, ps, j, n)
  {
    if n > 0 {
      BelowNone(s, key, ps, j, n - 1);
    }
  }

  /** The error of such an item, without the other items' errors. */
  ghost function ErrorBelow(s: Store, key: Key, ps: seq<Pending>, j: nat, n: nat): Option<ItemError> {
    if n == 0 then None
    else
      var e := ErrorBelow(s, key, ps, j, n - 1);
      if e.None? && Forestalled(s, key, ps, j, n - 1) then Some(ItemError(NO_KEY, Some(FieldKey(n - 1)))) else e
  }

  lemma {:induction false} ErrorBelowIs(s: Store, key: Key, ps: seq<Pending>, j: nat, n: nat)
    requires j < |ps| && FreeOwn(s, key, ps[j], n)
    ensures AfterFields(s, LiveFields(s.fields), key, ps, n)[j] == ErrorBelow(s, key, ps, j, n)
  {
    if n > 0 {
      ErrorBelowIs(s, key, ps, j, n - 1);
      FieldFails(s, key, ps, j, n - 1);
    }
  }

  lemma {:induction false} ErrorBelowExactly(s: Store, key: Key, ps: seq<Pending>, j: nat, n: nat)
    ensures ErrorBelow(s, key, ps, j, n).Some? <==> ForestalledBelow(s, key, ps, j, n)
    ensures ErrorBelow(s, key, ps, j, n).Some? ==> ErrorBelow(s, key, ps, j, n).value.code == NO_KEY
  {
    if n > 0 {
      ErrorBelowExactly(s, key, ps, j, n - 1);
    }
  }

  /** Such an item stands exactly if it is forestalled nowhere, and fails as repeated where it first is. */
  lemma FailsExactly(s: Store, key: Key, ps: seq<Pending>, j: nat, n: nat, e: Option<ItemError>)
    requires j < |ps| && FreeOwn(s, key, ps[j], n) && e == AfterFields(s, LiveFields(s.fields), key, ps, n)[j]
    ensures e.Some? <==> ForestalledBelow(s, key, ps, j, n)
    ensures e.Some? ==> e.value.code == NO_KEY
  {
    ErrorBelowIs(s, key, ps, j, n);
    ErrorBelowExactly(s, key, ps, j, n);
  }

  // ---- the second call

  ghost predicate Leaves(s: Store, b: Batch, r: Store) {
    Attempt(s, b).Finished? && Attempt(s, b).store == r
  }

  /** The first call left `r`; the second brings the same items with IDs not used yet. */
  ghost predicate SentAgain(s: Store, b: Batch, again: Batch, r: Store) {
    && Callable(s, b) && b.mode != Create && Leaves(s, b, r)
    && again == b.(ids := again.ids) && FreshIds(r, again)
  }

  lemma CallableAgain(s: Store, b: Batch, again: Batch, r: Store)
    requires SentAgain(s, b, again, r)
    ensures Callable(r, again) && r.fields == s.fields && r.nextField == s.nextField
    ensures Sound(s, Accepted(s, LiveFields(s.fields), b, s.nextField))
    ensures Applied(s, Accepted(s, LiveFields(s.fields), b, s.nextField), r)
  {
    AcceptedSound(s, b);
    AttemptApplies(s, b);
  }

  /** What the first call accepted resolves to the contact it wrote and claims only what that contact holds. */
  lemma CandidateAgain(s: Store, b: Batch, again: Batch, r: Store, p: Pending)
    requires SentAgain(s, b, again, r) && p in Accepted(s, LiveFields(s.fields), b, s.nextField)
    ensures p.index < |b.items| && Resolved(r, LiveFields(r.fields), again, p.index) == Ok(Again(p))
    ensures FreeOwn(r, again.key, Again(p), r.nextField)
    ensures p.id in r.contacts && Merge(r.contacts[p.id].data, p.fields) == r.contacts[p.id].data
  {
    var ps := Accepted(s, LiveFields(s.fields), b, s.nextField);
    CallableAgain(s, b, again, r);
    AcceptedAnswer(s, b, p);
    FoundAgain(s, b, ps, r, p);
    ResolvedAgain(s, b, again, r, p);
    MergeTwice(Prior(s.contacts, p), p.fields);
    OwnStaysFree(s, b, again, r, p);
  }

  lemma OwnStaysFree(s: Store, b: Batch, again: Batch, r: Store, p: Pending)
    requires SentAgain(s, b, again, r) && p in Accepted(s, LiveFields(s.fields), b, s.nextField)
    ensures FreeOwn(r, again.key, Again(p), r.nextField)
  {
    var ps := Accepted(s, LiveFields(s.fields), b, s.nextField);
    CallableAgain(s, b, again, r);
    forall f | Checks(LiveFields(r.fields), again.key, f) ensures FreeAt(r, Again(p), f) {
      assert Claim(Again(p), f) == Claim(p, f);
      if Claim(p, f).Some? { GivenAnswers(s, ps, r, p, f); }
    }
  }

  /** Position of an item among the candidates of a call. */
  ghost function Place(r: Store, b: Batch, i: nat): nat {
    Position(Candidates(r, LiveFields(r.fields), b, |b.items|), i)
  }

  /** The item is forestalled in some unique field. */
  ghost predicate LosesRace(r: Store, b: Batch, i: nat) {
    ForestalledBelow(r, b.key, Candidates(r, LiveFields(r.fields), b, |b.items|), Place(r, b, i), r.nextField)
  }

  lemma {:induction false} StandsExactly(ps: seq<Pending>, errors: seq<Option<ItemError>>, j: nat)
    requires j < |ps| == |errors| && forall i, k :: 0 <= i < k < |ps| ==> ps[i].index < ps[k].index
    ensures ps[j] in Standing(ps, errors) <==> errors[j].None?
  {
    if errors[j].None? {
      ErrorFreeStands(ps, errors, j);
    } else if ps[j] in Standing(ps, errors) {
      var k := StandsErrorFree(ps, errors, ps[j]);
    }
  }

  lemma VerdictFails(r: Store, b: Batch, q: Pending, j: nat, e: ItemError)
    requires q.index < |b.items| && Resolved(r, LiveFields(r.fields), b, q.index) == Ok(q) && Place(r, b, q.index) == j
    requires j < |Candidates(r, LiveFields(r.fields), b, |b.items|)|
    requires var qs := Candidates(r, LiveFields(r.fields), b, |b.items|);
      AfterFields(r, LiveFields(r.fields), b.key, qs, r.nextField)[j] == Some(e)
    ensures Verdict(r, LiveFields(r.fields), b, r.nextField, q.index) == Failed(q.index, q.key, e)
  {
  }

  /** Where the item stands among the candidates, and its error there. */
  lemma PlaceOf(r: Store, b: Batch, q: Pending, qs: seq<Pending>) returns (j: nat)
    requires q.index < |b.items| && Resolved(r, LiveFields(r.fields), b, q.index) == Ok(q)
    requires qs == Candidates(r, LiveFields(r.fields), b, |b.items|)
    ensures j < |qs| && qs[j] == q && Place(r, b, q.index) == j
    ensures forall i, k :: 0 <= i < k < |qs| ==> qs[i].index < qs[k].index
  {
    CandidatesAre(r, b, |b.items|);
    j := CandidateListed(r, b, |b.items|, q);
    PositionOf(qs, j);
  }

  /**
   An item with free values of its own is accepted exactly if it does not lose a race, else refused as a repetition.
   */
  lemma RaceDecides(r: Store, b: Batch, q: Pending)
    requires q.index < |b.items| && Resolved(r, LiveFields(r.fields), b, q.index) == Ok(q)
    requires FreeOwn(r, b.key, q, r.nextField)
    ensures q in Accepted(r, LiveFields(r.fields), b, r.nextField) <==> !LosesRace(r, b, q.index)
    ensures LosesRace(r, b, q.index) ==> Repeated(Verdict(r, LiveFields(r.fields), b, r.nextField, q.index))
  {
    var qs := Candidates(r, LiveFields(r.fields), b, |b.items|);
    var j := PlaceOf(r, b, q, qs);
    var e := AfterFields(r, LiveFields(r.fields), b.key, qs, r.nextField)[j];
    FailsExactly(r, b.key, qs, j, r.nextField, e);
    StandsExactly(qs, AfterFields(r, LiveFields(r.fields), b.key, qs, r.nextField), j);
    if e.Some? {
      VerdictFails(r, b, q, j, e.value);
    }
  }

  /** Answered with 2014 and no contact. */
  predicate Repeated(r: ItemResult) {
    r.id.None? && r.error.Some? && r.error.value.code == NO_KEY
  }

  lemma OneForAContact(r: Store, b: Batch, x: Pending, q: Pending)
    requires Callable(r, b) && IsCandidate(r, b, x) && IsCandidate(r, b, q) && x.id == q.id
    ensures x == q
  {
    if x.index < q.index {
      CandidatesApart(r, b, x, q);
    } else if q.index < x.index {
      CandidatesApart(r, b, q, x);
    }
  }

  /** An item that is not accepted has no part in what is written to its contact. */
  lemma NotWritten(r: Store, b: Batch, q: Pending, accepted: seq<Pending>)
    requires Callable(r, b) && IsCandidate(r, b, q) && q !in accepted
    requires forall x :: x in accepted ==> IsCandidate(r, b, x)
    ensures !Writes(accepted, q.id)
  {
    forall x | x in accepted ensures x.id != q.id {
      if x.id == q.id {
        OneForAContact(r, b, x, q);
      }
    }
  }

  lemma AcceptedAre(r: Store, b: Batch)
    ensures forall x :: x in Accepted(r, LiveFields(r.fields), b, r.nextField) ==> IsCandidate(r, b, x)
  {
    forall x | x in Accepted(r, LiveFields(r.fields), b, r.nextField) ensures IsCandidate(r, b, x) {
      AcceptedAnswer(r, b, x);
    }
  }

  /**
   Main result, exact: sent again, an item accepted before is accepted again if and only if it loses no
   race, and then finds its contact and changes nothing but the version of one it sends a negative zero
   to; otherwise it is refused with 2014. `first` and `second` are its answers in the two calls.
   */
  lemma PartialReplayExactly(
      s: Store, b: Batch, again: Batch, r: Store, p: Pending, first: ItemResult, second: ItemResult)
    requires SentAgain(s, b, again, r) && p in Accepted(s, LiveFields(s.fields), b, s.nextField) && p.index < |b.items|
    requires first == Verdict(s, LiveFields(s.fields), b, s.nextField, p.index)
    requires second == Verdict(r, LiveFields(r.fields), again, r.nextField, p.index)
    ensures second.(changed := []) == Unchanged(first) <==> !LosesRace(r, again, p.index)
    ensures second == Unchanged(first) <==>
      !LosesRace(r, again, p.index) && !SignedItem(LiveFields(s.fields), b.items[p.index])
    ensures LosesRace(r, again, p.index) ==> Repeated(second)
  {
    CandidateAgain(s, b, again, r, p);
    RaceDecides(r, again, Again(p));
    AcceptedAnswer(s, b, p);
    if !LosesRace(r, again, p.index) {
      AnswerAgain(s, b, again, r, p);
    }
  }

  lemma RowPartly(s: Store, b: Batch, again: Batch, r: Store, p: Pending, t: Store)
    requires SentAgain(s, b, again, r) && p in Accepted(s, LiveFields(s.fields), b, s.nextField)
    requires Callable(r, again) && Applied(r, Accepted(r, LiveFields(r.fields), again, r.nextField), t)
    ensures p.index < |b.items| && p.id in r.contacts && p.id in t.contacts
    ensures t.contacts[p.id] == Bumped(r.contacts[p.id], !LosesRace(r, again, p.index) && Signed(p.fields))
  {
    var q := Again(p);
    CandidateAgain(s, b, again, r, p);
    RaceDecides(r, again, q);
    if LosesRace(r, again, p.index) {
      ResolvedIs(r, again, p.index);
      AcceptedAre(r, again);
      NotWritten(r, again, q, Accepted(r, LiveFields(r.fields), again, r.nextField));
    } else {
      RowAgain(r.contacts, q);
      assert Signed(q.fields) == Signed(p.fields);
    }
  }

  lemma SecondFinishes(s: Store, b: Batch, again: Batch, r: Store)
    requires SentAgain(s, b, again, r)
    ensures Attempt(r, again).Finished?
    ensures Applied(r, Accepted(r, LiveFields(r.fields), again, r.nextField), Attempt(r, again).store)
  {
    CallableAgain(s, b, again, r);
    AttemptApplies(r, again);
  }

  /** Accepted again or not, its contact keeps the data the first call gave it. */
  lemma AcceptedIsKept(s: Store, b: Batch, again: Batch, r: Store, p: Pending, t: Store)
    requires SentAgain(s, b, again, r) && p in Accepted(s, LiveFields(s.fields), b, s.nextField)
    requires Leaves(r, again, t)
    ensures p.index < |b.items| && p.id in r.contacts && p.id in t.contacts
    ensures t.contacts[p.id] == Bumped(r.contacts[p.id], !LosesRace(r, again, p.index) && Signed(p.fields))
  {
    CallableAgain(s, b, again, r);
    SecondFinishes(s, b, again, r);
    RowPartly(s, b, again, r, p, t);
  }

  // ---- batches without the danger

  /** The value of unique field `f` an item asks for. */
  function ItemClaim(defs: map<nat, FieldDef>, item: Item, f: nat): Option<string> {
    if f !in defs || Get(item, FieldKey(f)).None? then None
    else
      match NormalizeValue(defs[f], Get(item, FieldKey(f)).value)
      case Ok(Some(v)) => if Blank(Str(v)) then None else Some(JsNorm(f, Str(v)))
      case _ => None
  }

  /** No two items ask for the same value of a unique field. */
  ghost predicate NothingShared(defs: map<nat, FieldDef>, b: Batch) {
    forall i, j, f :: 0 <= i < j < |b.items| && Checks(defs, b.key, f) && ItemClaim(defs, b.items[i], f).Some? ==>
      ItemClaim(defs, b.items[i], f) != ItemClaim(defs, b.items[j], f)
  }

  lemma ClaimIs(s: Store, b: Batch, p: Pending, f: nat)
    requires IsCandidate(s, b, p) && f in LiveFields(s.fields)
    ensures ItemClaim(LiveFields(s.fields), b.items[p.index], f) ==
      if Claim(p, f).Some? then Some(JsNorm(f, Claim(p, f).value)) else None
  {
    FieldsSent(LiveFields(s.fields), b.key, b.items[p.index], f);
  }

  /** Then no item loses a race, so every accepted one is accepted again. */
  lemma NothingSharedNoRace(r: Store, b: Batch, q: Pending)
    requires NothingShared(LiveFields(r.fields), b)
    requires q.index < |b.items| && Resolved(r, LiveFields(r.fields), b, q.index) == Ok(q)
    ensures !LosesRace(r, b, q.index)
  {
    var qs := Candidates(r, LiveFields(r.fields), b, |b.items|);
    var j := PlaceOf(r, b, q, qs);
    CandidatesAre(r, b, |b.items|);
    forall i, f | 0 <= i < j && Checks(LiveFields(r.fields), b.key, f) ensures ApartAt(qs[i], qs[j], f) {
      assert IsCandidate(r, b, qs[i]) && IsCandidate(r, b, qs[j]);
      ClaimIs(r, b, qs[i], f);
      ClaimIs(r, b, qs[j], f);
    }
    BelowNone(r, b.key, qs, j, r.nextField);
  }

  lemma NothingSharedReplays(s: Store, b: Batch, again: Batch, r: Store, p: Pending)
    requires SentAgain(s, b, again, r) && p in Accepted(s, LiveFields(s.fields), b, s.nextField)
    requires NothingShared(LiveFields(s.fields), b)
    ensures p.index < |b.items| && !LosesRace(r, again, p.index)
  {
    CallableAgain(s, b, again, r);
    CandidateAgain(s, b, again, r, p);
    NothingSharedNoRace(r, again, Again(p));
  }

  // ---- an item accepted once

  /** Two unique text fields. */
  ghost predicate TwoFields(s: Store, f: nat, g: nat) {
    && f < g && UniqueField(s, f) && UniqueField(s, g) && !IsColumn(f) && !IsColumn(g)
    && s.fields[f].fieldType == FieldType.Text && s.fields[g].fieldType == FieldType.Text
    && !s.fields[f].readOnly && !s.fields[g].readOnly
  }

  function TwoTexts(f: nat, x: string, g: nat, y: string): FieldSet
    requires f != g
  {
    [(f, Some(TextValue(x))), (g, Some(TextValue(y)))]
  }

  function TwoTextsItem(c: Id, f: nat, x: string, g: nat, y: string): Item
    requires f != g
  {
    [(FieldKey(f), JStr(x)), (FieldKey(g), JStr(y)), (IdKey, JStr(c))]
  }

  /** Contact `c` is moved from "5" to "6" in field `f`; `a` asks for that "5", and for the "7" `c` has in field `g`. */
  function Rivals(a: Id, c: Id, f: nat, g: nat, ids: seq<Id>, source: string): Batch
    requires f != g && |ids| == 2
  {
    Call(IdKey, Update, [TwoTextsItem(a, f, "5", g, "7"), TwoTextsItem(c, f, "6", g, "7")], ids, source, None)
  }

  lemma TextTaken(defs: map<nat, FieldDef>, f: nat, x: string)
    requires f in defs && !defs[f].readOnly && defs[f].fieldType == FieldType.Text
    ensures FieldError(defs, FieldKey(f), JStr(x)) == Ok(Some(TextValue(x)))
  {
  }

  lemma OneMoreSent(defs: map<nat, FieldDef>, item: Item, f: nat, raw: Raw, v: Option<Value>)
    requires item != [] && item[|item| - 1] == (FieldKey(f), raw) && Fields(defs, IdKey, item[..|item| - 1]).Ok?
    requires FieldError(defs, FieldKey(f), raw) == Ok(v)
    ensures Fields(defs, IdKey, item).Ok?
    ensures Fields(defs, IdKey, item).value == Fields(defs, IdKey, item[..|item| - 1]).value + [(f, v)]
  {
  }

  lemma TwoTextsFields(defs: map<nat, FieldDef>, c: Id, f: nat, x: string, g: nat, y: string)
    requires f != g && f in defs && g in defs && !defs[f].readOnly && !defs[g].readOnly
    requires defs[f].fieldType == FieldType.Text && defs[g].fieldType == FieldType.Text
    ensures Fields(defs, IdKey, TwoTextsItem(c, f, x, g, y)) == Ok(TwoTexts(f, x, g, y))
    ensures KeyText(TwoTextsItem(c, f, x, g, y), IdKey) == c
  {
    var item := TwoTextsItem(c, f, x, g, y);
    var one: Item, two: Item := item[..1], item[..2];
    assert one[..0] == [] && two[..1] == one && item[..3 - 1] == two;
    TextTaken(defs, f, x);
    TextTaken(defs, g, y);
    OneMoreSent(defs, one, f, JStr(x), Some(TextValue(x)));
    OneMoreSent(defs, two, g, JStr(y), Some(TextValue(y)));
    assert [] + [(f, Some(TextValue(x)))] + [(g, Some(TextValue(y)))] == TwoTexts(f, x, g, y);
  }

  lemma TwoTextsSent(f: nat, x: string, g: nat, y: string, h: nat)
    requires f != g
    ensures Sent(TwoTexts(f, x, g, y), h) ==
      if h == f then Some(Some(TextValue(x))) else if h == g then Some(Some(TextValue(y))) else None
  {
    var sent := TwoTexts(f, x, g, y);
    assert sent[..1][..0] == [] && sent[..1] == [(f, Some(TextValue(x)))];
    assert Sent([], h) == None;
  }

  function RivalItems(a: Id, c: Id, f: nat, g: nat): seq<Pending>
    requires f != g
  {
    [Pending(0, a, TwoTexts(f, "5", g, "7"), a, false), Pending(1, c, TwoTexts(f, "6", g, "7"), c, false)]
  }

  lemma ById(s: Store, c: Id)
    requires Live(s.contacts, c)
    ensures Lookup(s, IdKey, c) == Some(c)
  {
    assert Answers(s, IdKey, c, c);
  }

  /** Both items resolve to their contacts, in the first call and in the second. */
  lemma RivalsResolve(s: Store, a: Id, c: Id, f: nat, g: nat, ids: seq<Id>, source: string)
    requires TwoFields(s, f, g) && Live(s.contacts, a) && Live(s.contacts, c) && a != c && !Blank(a) && !Blank(c)
    requires |ids| == 2
    ensures var b := Rivals(a, c, f, g, ids, source);
      && Resolved(s, LiveFields(s.fields), b, 0) == Ok(RivalItems(a, c, f, g)[0])
      && Resolved(s, LiveFields(s.fields), b, 1) == Ok(RivalItems(a, c, f, g)[1])
  {
    var b, defs := Rivals(a, c, f, g, ids, source), LiveFields(s.fields);
    TwoTextsFields(defs, a, f, "5", g, "7");
    TwoTextsFields(defs, c, f, "6", g, "7");
    ById(s, a);
    ById(s, c);
    assert SeenKeys(IdKey, b.items, 0) == {};
    assert SeenKeys(IdKey, b.items, 1) == {a};
  }

  lemma RivalCandidates(s: Store, b: Batch, qs: seq<Pending>)
    requires |b.items| == 2 == |qs|
    requires Resolved(s, LiveFields(s.fields), b, 0) == Ok(qs[0])
    requires Resolved(s, LiveFields(s.fields), b, 1) == Ok(qs[1])
    ensures Candidates(s, LiveFields(s.fields), b, 2) == qs
  {
    assert AllResolved(s, LiveFields(s.fields), b, 0) == [];
    CandidatesStep(s, LiveFields(s.fields), b, 0);
    CandidatesStep(s, LiveFields(s.fields), b, 1);
    assert qs == [qs[0]] + [qs[1]];
  }

  lemma RivalClaims(a: Id, c: Id, f: nat, g: nat, h: nat)
    requires f != g && !IsColumn(f) && !IsColumn(g)
    ensures Claim(RivalItems(a, c, f, g)[0], h) == if h == f then Some("5") else if h == g then Some("7") else None
    ensures Claim(RivalItems(a, c, f, g)[1], h) == if h == f then Some("6") else if h == g then Some("7") else None
  {
    TwoTextsSent(f, "5", g, "7", h);
    TwoTextsSent(f, "6", g, "7", h);
    assert !Blank("5") && !Blank("6") && !Blank("7");
  }

  /** The only holder of a custom value is the contact it is looked up as. */
  lemma HolderFound(s: Store, f: nat, v: string, c: Id)
    requires Consistent(s) && UniqueField(s, f) && !IsColumn(f) && !Blank(v)
    ensures Lookup(s, FieldKey(f), v) == Some(c) <==> Live(s.contacts, c) && Entry(s.contacts[c].data, f) == Some(v)
  {
    LookupIsScan(s, f, v, c);
  }

  lemma FirstFails(s: Store, f: nat, g: nat, a: Id, c: Id, qs: seq<Pending>, n: nat)
    requires TwoFields(s, f, g) && a != c && qs == RivalItems(a, c, f, g) && f < n
    requires Lookup(s, FieldKey(f), "5") == Some(c)
    ensures AfterFields(s, LiveFields(s.fields), IdKey, qs, n)[0].Some?
  {
    RivalClaims(a, c, f, g, f);
    if AfterFields(s, LiveFields(s.fields), IdKey, qs, n)[0].None? {
      ChecksFree(s, LiveFields(s.fields), IdKey, qs, n, f, 0);
      assert false;
    }
  }

  lemma SecondIsFree(s: Store, f: nat, g: nat, a: Id, c: Id, q: Pending)
    requires TwoFields(s, f, g) && q == RivalItems(a, c, f, g)[1]
    requires Lookup(s, FieldKey(f), "6").None? && Lookup(s, FieldKey(g), "7") == Some(c)
    ensures FreeOwn(s, IdKey, q, s.nextField)
  {
    forall h ensures FreeAt(s, q, h) {
      RivalClaims(a, c, f, g, h);
    }
  }

  /** First call: the value the first item asks for in the lower field is taken, so the second item has no rival. */
  lemma SecondWins(s: Store, f: nat, g: nat, a: Id, c: Id, qs: seq<Pending>)
    requires TwoFields(s, f, g) && a != c && qs == RivalItems(a, c, f, g)
    requires Lookup(s, FieldKey(f), "5") == Some(c) && Lookup(s, FieldKey(f), "6").None?
    requires Lookup(s, FieldKey(g), "7") == Some(c)
    ensures AfterFields(s, LiveFields(s.fields), IdKey, qs, s.nextField)[1].None?
  {
    SecondIsFree(s, f, g, a, c, qs[1]);
    FirstFails(s, f, g, a, c, qs, g);
    forall h ensures !Forestalled(s, IdKey, qs, 1, h) {
      RivalClaims(a, c, f, g, h);
    }
    BelowNone(s, IdKey, qs, 1, s.nextField);
    FailsExactly(s, IdKey, qs, 1, s.nextField, AfterFields(s, LiveFields(s.fields), IdKey, qs, s.nextField)[1]);
  }

  /** Second call: it is free, so the first item stays long enough to ask for the second one's value. */
  lemma FirstForestalls(r: Store, f: nat, g: nat, a: Id, c: Id, qs: seq<Pending>)
    requires TwoFields(r, f, g) && a != c && qs == RivalItems(a, c, f, g)
    requires Lookup(r, FieldKey(f), "5").None?
    ensures Forestalled(r, IdKey, qs, 1, g)
  {
    forall h | 0 <= h < g ensures FreeAt(r, qs[0], h) {
      RivalClaims(a, c, f, g, h);
    }
    BelowNone(r, IdKey, qs, 0, g);
    FailsExactly(r, IdKey, qs, 0, g, AfterFields(r, LiveFields(r.fields), IdKey, qs, g)[0]);
    RivalClaims(a, c, f, g, g);
    assert Setter(qs, AfterFields(r, LiveFields(r.fields), IdKey, qs, g), g, 0);
  }

  /** Two contacts, and the values the second one holds. */
  ghost predicate TwoContacts(s: Store, a: Id, c: Id, f: nat, g: nat) {
    Consistent(s) && TwoFields(s, f, g) && !Blank(a) && !Blank(c) && Pair(s.contacts, a, c, f, g)
  }

  predicate Pair(contacts: map<Id, Contact>, a: Id, c: Id, f: nat, g: nat) {
    a != c && contacts ==
      map[a := Contact(map[], 1, false), c := Contact(map[f := TextValue("5"), g := TextValue("7")], 1, false)]
  }

  lemma TwoTextsGet(c: Id, f: nat, x: string, g: nat, y: string, h: nat)
    requires f != g && h != f && h != g
    ensures Get(TwoTextsItem(c, f, x, g, y), FieldKey(h)).None?
  {
    var item := TwoTextsItem(c, f, x, g, y);
    var one: Item, two: Item := item[..1], item[..2];
    assert one[..0] == [] && two[..1] == one && item[..3 - 1] == two;
    assert Get(one, FieldKey(h)) == Get([], FieldKey(h)) && Get(two, FieldKey(h)) == Get(one, FieldKey(h));
  }

  lemma RivalsCallable(s: Store, a: Id, c: Id, f: nat, g: nat, ids: seq<Id>, source: string)
    requires TwoContacts(s, a, c, f, g) && |ids| == 2 && FreshIds(s, Rivals(a, c, f, g, ids, source))
    ensures Callable(s, Rivals(a, c, f, g, ids, source))
  {
    var b := Rivals(a, c, f, g, ids, source);
    forall h | h in {EMAIL, EXTERNAL_ID}
      ensures Get(b.items[0], FieldKey(h)).None? && Get(b.items[1], FieldKey(h)).None?
    {
      TwoTextsGet(a, f, "5", g, "7", h);
      TwoTextsGet(c, f, "6", g, "7", h);
    }
  }

  lemma NobodyFound(s: Store, f: nat, v: string)
    requires Consistent(s) && UniqueField(s, f) && !IsColumn(f) && !Blank(v)
    requires forall d :: Live(s.contacts, d) ==> Entry(s.contacts[d].data, f) != Some(v)
    ensures Lookup(s, FieldKey(f), v).None?
  {
    if Lookup(s, FieldKey(f), v).Some? {
      HolderFound(s, f, v, Lookup(s, FieldKey(f), v).value);
    }
  }

  lemma SixIsFree(s: Store, a: Id, c: Id, f: nat, g: nat)
    requires Consistent(s) && UniqueField(s, f) && !IsColumn(f) && f != g && Pair(s.contacts, a, c, f, g)
    ensures Lookup(s, FieldKey(f), "6").None?
  {
    assert !Blank("6");
    NobodyFound(s, f, "6");
  }

  lemma HeldByPair(s: Store, a: Id, c: Id, f: nat, g: nat, h: nat, v: string)
    requires Consistent(s) && UniqueField(s, h) && !IsColumn(h) && f != g && Pair(s.contacts, a, c, f, g)
    requires (h == f && v == "5") || (h == g && v == "7")
    ensures Lookup(s, FieldKey(h), v) == Some(c)
  {
    assert !Blank("5") && !Blank("7");
    HolderFound(s, h, v, c);
  }

  lemma LastStands(ps: seq<Pending>, errors: seq<Option<ItemError>>)
    requires |ps| == |errors| == 2 && errors[0].Some? && errors[1].None?
    ensures Standing(ps, errors) == [ps[1]]
  {
    assert ps[..1] == [ps[0]] && errors[..1] == [errors[0]];
    assert Standing([], []) == [];
    assert Standing(ps[..1], errors[..1]) == [];
  }

  /** The first item is refused, the second accepted. */
  lemma FirstCall(s: Store, a: Id, c: Id, f: nat, g: nat, b: Batch, qs: seq<Pending>)
    requires TwoContacts(s, a, c, f, g) && |b.ids| == 2 && b == Rivals(a, c, f, g, b.ids, b.source)
    requires qs == RivalItems(a, c, f, g)
    ensures Accepted(s, LiveFields(s.fields), b, s.nextField) == [qs[1]]
  {
    var errors := AfterFields(s, LiveFields(s.fields), IdKey, qs, s.nextField);
    RivalsResolve(s, a, c, f, g, b.ids, b.source);
    RivalCandidates(s, b, qs);
    HeldByPair(s, a, c, f, g, f, "5");
    HeldByPair(s, a, c, f, g, g, "7");
    SixIsFree(s, a, c, f, g);
    SecondWins(s, f, g, a, c, qs);
    FirstFails(s, f, g, a, c, qs, s.nextField);
    LastStands(qs, errors);
  }

  lemma MovedRow(contacts: map<Id, Contact>, q: Pending, c: Id, f: nat, g: nat)
    requires f != g && Live(contacts, c) && q == Pending(1, c, TwoTexts(f, "6", g, "7"), c, false)
    ensures Entry(RowAfter(contacts, q).data, f) == Some("6") && !RowAfter(contacts, q).deleted
  {
    MergeAt(contacts[c].data, q.fields, f);
    TwoTextsSent(f, "6", g, "7", f);
    assert !Blank("6");
  }

  /** The rows it leaves. */
  lemma FirstRows(s: Store, a: Id, c: Id, f: nat, g: nat, q: Pending, r: Store)
    requires f != g && Pair(s.contacts, a, c, f, g) && q == RivalItems(a, c, f, g)[1] && Applied(s, [q], r)
    ensures Live(r.contacts, a) && Live(r.contacts, c) && r.contacts.Keys <= {a, c}
    ensures r.contacts[a].data == map[] && Entry(r.contacts[c].data, f) == Some("6")
  {
    assert [q][0] in [q];
    forall d | d != c ensures !Writes([q], d) {
    }
    MovedRow(s.contacts, q, c, f, g);
  }

  /** Then nobody holds the "5" any more. */
  lemma FiveIsFree(r: Store, a: Id, c: Id, f: nat)
    requires Consistent(r) && UniqueField(r, f) && !IsColumn(f)
    requires Live(r.contacts, a) && Live(r.contacts, c) && r.contacts.Keys <= {a, c}
    requires r.contacts[a].data == map[] && Entry(r.contacts[c].data, f) == Some("6")
    ensures Lookup(r, FieldKey(f), "5").None?
  {
    assert !Blank("5");
    NobodyFound(r, f, "5");
  }

  lemma LosesIf(r: Store, b: Batch, qs: seq<Pending>, j: nat, f: nat)
    requires qs == Candidates(r, LiveFields(r.fields), b, |b.items|) && j < |qs| && qs[j].index < |b.items|
    requires forall i, k :: 0 <= i < k < |qs| ==> qs[i].index < qs[k].index
    requires f < r.nextField && Forestalled(r, b.key, qs, j, f)
    ensures LosesRace(r, b, qs[j].index)
  {
    PositionOf(qs, j);
    BelowHas(r, b.key, qs, j, f, r.nextField);
  }

  lemma SecondCall(r: Store, a: Id, c: Id, f: nat, g: nat, again: Batch, p: Pending)
    requires TwoFields(r, f, g) && Live(r.contacts, a) && Live(r.contacts, c) && a != c && !Blank(a) && !Blank(c)
    requires |again.ids| == 2 && again == Rivals(a, c, f, g, again.ids, again.source) && p == RivalItems(a, c, f, g)[1]
    requires Lookup(r, FieldKey(f), "5").None? && g < r.nextField
    ensures LosesRace(r, again, 1)
  {
    var qs := RivalItems(a, c, f, g);
    RivalsResolve(r, a, c, f, g, again.ids, again.source);
    RivalCandidates(r, again, qs);
    FirstForestalls(r, f, g, a, c, qs);
    LosesIf(r, again, qs, 1, g);
  }

  /** The IDs of the second call are as unused after the first one. */
  lemma StillFresh(s: Store, q: Pending, again: Batch, r: Store)
    requires FreshIds(s, again) && q.id in s.contacts && Applied(s, [q], r)
    ensures FreshIds(r, again)
  {
    forall i | 0 <= i < |again.ids| ensures Unused(r, again.ids[i]) {
      assert !Writes([q], again.ids[i]);
    }
  }

  /** The first call commits, and the second one may follow. */
  lemma RivalsSent(s: Store, a: Id, c: Id, f: nat, g: nat, b: Batch, again: Batch) returns (r: Store)
    requires TwoContacts(s, a, c, f, g) && |b.ids| == 2 && b == Rivals(a, c, f, g, b.ids, b.source)
    requires again == b.(ids := again.ids) && FreshIds(s, b) && FreshIds(s, again)
    ensures SentAgain(s, b, again, r) && Applied(s, [RivalItems(a, c, f, g)[1]], r)
    ensures Accepted(s, LiveFields(s.fields), b, s.nextField) == [RivalItems(a, c, f, g)[1]]
  {
    RivalsCallable(s, a, c, f, g, b.ids, b.source);
    FirstCall(s, a, c, f, g, b, RivalItems(a, c, f, g));
    AttemptApplies(s, b);
    r := Attempt(s, b).store;
    StillFresh(s, RivalItems(a, c, f, g)[1], again, r);
  }

  /**
   An item accepted once: while another contact's value keeps an earlier item out, it is written; the
   write frees that value, and on the resend the earlier item asks first for what the later one holds.
   */
  lemma AcceptedOnce(s: Store, a: Id, c: Id, f: nat, g: nat, b: Batch, again: Batch) returns (r: Store)
    requires TwoContacts(s, a, c, f, g) && |b.ids| == 2 && b == Rivals(a, c, f, g, b.ids, b.source)
    requires again == b.(ids := again.ids) && FreshIds(s, b) && FreshIds(s, again)
    ensures SentAgain(s, b, again, r)
    ensures RivalItems(a, c, f, g)[1] in Accepted(s, LiveFields(s.fields), b, s.nextField)
    ensures Repeated(Verdict(r, LiveFields(r.fields), again, r.nextField, 1))
  {
    var p := RivalItems(a, c, f, g)[1];
    r := RivalsSent(s, a, c, f, g, b, again);
    CallableAgain(s, b, again, r);
    FirstRows(s, a, c, f, g, p, r);
    FiveIsFree(r, a, c, f);
    SecondCall(r, a, c, f, g, again, p);
    CandidateAgain(s, b, again, r, p);
    RaceDecides(r, again, Again(p));
  }
}
