/**
 What a call answers each item and leaves of the tables, in the terms of the call: its mode, the keys and
 properties of the item, what the key finds, and the codes written out.
 */
module CallAnswers {
  import opened Wrappers
  import opened Text
  import opened FieldValues
  import opened Tables
  import opened BatchCommit
  import opened KeyResolver
  import opened BatchChecks
  import opened BatchTheorems
  import opened BatchRefinement
  import opened PartialReplay
  import ContactsWriteService

  // ---- keys

  /** The key of item `i` is there, and no earlier item has the same. */
  ghost predicate KeyUsable(key: Key, items: seq<Item>, i: nat)
    requires i < |items|
  {
    && !Blank(KeyText(items[i], key))
    && forall j :: 0 <= j < i ==> !SameKey(key, items[j], items[i])
  }

  ghost predicate SameKey(key: Key, a: Item, b: Item) {
    !Blank(KeyText(a, key)) && KeyNorm(key, KeyText(a, key)) == KeyNorm(key, KeyText(b, key))
  }

  /** One of the first `n` items has the normalized key `x`. */
  ghost predicate Seen(key: Key, items: seq<Item>, n: nat, x: string)
    requires n <= |items|
  {
    exists j :: 0 <= j < n && !Blank(KeyText(items[j], key)) && KeyNorm(key, KeyText(items[j], key)) == x
  }

  lemma SeenNext(key: Key, items: seq<Item>, n: nat, x: string)
    requires n < |items|
    ensures Seen(key, items, n + 1, x) <==>
      Seen(key, items, n, x) || (!Blank(KeyText(items[n], key)) && KeyNorm(key, KeyText(items[n], key)) == x)
  {
  }

  lemma {:induction false} SeenAre(key: Key, items: seq<Item>, n: nat, x: string)
    requires n <= |items|
    ensures x in SeenKeys(key, items, n) <==> Seen(key, items, n, x)
  {
    if n > 0 {
      SeenAre(key, items, n - 1, x);
      SeenNext(key, items, n - 1, x);
    }
  }

  lemma KeyErrorIs(key: Key, items: seq<Item>, i: nat)
    requires i < |items|
    ensures KeyError(key, items, i) == if KeyUsable(key, items, i) then None else Some(ItemError(2014, None))
  {
    SeenAre(key, items, i, KeyNorm(key, KeyText(items[i], key)));
    if !Blank(KeyText(items[i], key)) {
      if j :| 0 <= j < i && SameKey(key, items[j], items[i]) {
      }
    }
  }

  // ---- properties

  /** Property `k` of an item counts as data: it is not the `id` it is looked up by. */
  predicate IsData(key: Key, k: Key) {
    !(k == IdKey && key == IdKey)
  }

  /** The code of a bad property: unknown field, read-only field, or a value the field does not take. */
  function PropertyCode(defs: map<nat, FieldDef>, k: Key, raw: Raw): Option<nat> {
    if !k.FieldKey? || k.field !in defs then Some(2011)
    else if defs[k.field].readOnly then Some(2013)
    else if NormalizeValue(defs[k.field], raw).Err? then Some(2010)
    else None
  }

  predicate Good(defs: map<nat, FieldDef>, key: Key, p: (Key, Raw)) {
    IsData(key, p.0) ==> PropertyCode(defs, p.0, p.1).None?
  }

  predicate AllGood(defs: map<nat, FieldDef>, key: Key, item: Item) {
    forall i :: 0 <= i < |item| ==> Good(defs, key, item[i])
  }

  /** Property `i` is the first bad one. */
  predicate FirstBad(defs: map<nat, FieldDef>, key: Key, item: Item, i: nat) {
    && i < |item| && !Good(defs, key, item[i])
    && forall j :: 0 <= j < i ==> Good(defs, key, item[j])
  }

  /** The error of a bad property names it and has its code. */
  predicate IsError(defs: map<nat, FieldDef>, key: Key, item: Item, i: nat, e: ItemError) {
    && FirstBad(defs, key, item, i)
    && e.field == Some(item[i].0) && Some(e.code) == PropertyCode(defs, item[i].0, item[i].1)
  }

  ghost predicate FailsAs(defs: map<nat, FieldDef>, key: Key, item: Item, e: ItemError) {
    exists i: nat :: IsError(defs, key, item, i, e)
  }

  lemma FieldErrorIs(defs: map<nat, FieldDef>, k: Key, raw: Raw)
    ensures var r, code := FieldError(defs, k, raw), PropertyCode(defs, k, raw);
      (r.Ok? <==> code.None?) && (r.Err? ==> r.error.field == Some(k) && Some(r.error.code) == code)
  {
  }

  lemma StillFails(defs: map<nat, FieldDef>, key: Key, init: Item, item: Item, e: ItemError)
    requires |init| < |item| && init == item[..|init|] && FailsAs(defs, key, init, e)
    ensures FailsAs(defs, key, item, e) && !AllGood(defs, key, item)
  {
    var i: nat :| IsError(defs, key, init, i, e);
    assert forall j :: 0 <= j <= i ==> init[j] == item[j];
    assert IsError(defs, key, item, i, e);
  }

  lemma LastDecides(defs: map<nat, FieldDef>, key: Key, init: Item, item: Item)
    requires |init| + 1 == |item| && init == item[..|init|] && AllGood(defs, key, init)
    ensures AllGood(defs, key, item) <==> Good(defs, key, item[|init|])
    ensures !Good(defs, key, item[|init|]) ==> FirstBad(defs, key, item, |init|)
  {
    assert forall j :: 0 <= j < |init| ==> init[j] == item[j];
  }

  /** An item's properties are all taken, or the first bad one is its error. */
  lemma {:induction false} FieldsAre(defs: map<nat, FieldDef>, key: Key, item: Item)
    ensures Fields(defs, key, item).Ok? <==> AllGood(defs, key, item)
    ensures Fields(defs, key, item).Err? ==> FailsAs(defs, key, item, Fields(defs, key, item).error)
  {
    if item != [] {
      var n := |item| - 1;
      var init: Item := item[..n];
      FieldsAre(defs, key, init);
      if Fields(defs, key, init).Err? {
        StillFails(defs, key, init, item, Fields(defs, key, init).error);
      } else {
        LastDecides(defs, key, init, item);
        FieldErrorIs(defs, item[n].0, item[n].1);
        assert Fields(defs, key, item).Err? ==> IsError(defs, key, item, n, Fields(defs, key, item).error);
      }
    }
  }

  // ---- answers

  /** Item `i` is refused: it names no contact, and nothing is said to be created or changed. */
  predicate RefusedAs(r: ItemResult, i: nat, code: nat, field: Option<Key>) {
    r.index == i && r.id.None? && !r.created && r.changed == [] && r.error == Some(ItemError(code, field))
  }

  ghost predicate RefusedFor(r: ItemResult, i: nat, defs: map<nat, FieldDef>, b: Batch)
    requires i < |b.items|
  {
    && r.error.Some? && FailsAs(defs, b.key, b.items[i], r.error.value)
    && RefusedAs(r, i, r.error.value.code, r.error.value.field)
  }

  /** An item without a usable key fails with 2014, one with a bad property for the first such. */
  lemma BadItemsFail(s: Store, b: Batch, i: nat)
    requires i < |b.items|
    ensures var r, defs := Results(s, LiveFields(s.fields), b, s.nextField)[i], LiveFields(s.fields);
      && (!KeyUsable(b.key, b.items, i) ==> RefusedAs(r, i, 2014, None))
      && (KeyUsable(b.key, b.items, i) && !AllGood(defs, b.key, b.items[i]) ==> RefusedFor(r, i, defs, b))
  {
    KeyErrorIs(b.key, b.items, i);
    FieldsAre(LiveFields(s.fields), b.key, b.items[i]);
  }

  /**
   Main result: what the mode of a call does with an item that is good in itself. `create` refuses one whose
   key finds a contact, with 2012; `update`, and any call by `id`, one whose key finds none, with 2008.
   */
  lemma ModeDecides(s: Store, b: Batch, i: nat)
    requires i < |b.items| && KeyUsable(b.key, b.items, i) && AllGood(LiveFields(s.fields), b.key, b.items[i])
    ensures var r := Results(s, LiveFields(s.fields), b, s.nextField)[i];
      var found := Lookup(s, b.key, KeyText(b.items[i], b.key));
      && (b.mode == Create && found.Some? ==> RefusedAs(r, i, 2012, None))
      && ((b.mode == Update || b.key == IdKey) && found.None? ==> RefusedAs(r, i, 2008, None))
  {
    KeyErrorIs(b.key, b.items, i);
    FieldsAre(LiveFields(s.fields), b.key, b.items[i]);
  }

  /**
   Main result: an answer with a contact names the one the item's key finds, unless the call is `create`; or
   a new one, if the key finds none and the call is neither `update` nor by `id`.
   */
  lemma AnswersFollowTheMode(s: Store, b: Batch, i: nat)
    requires i < |b.items|
    ensures var r := Results(s, LiveFields(s.fields), b, s.nextField)[i];
      var found := Lookup(s, b.key, KeyText(b.items[i], b.key));
      && (r.id.Some? ==> KeyUsable(b.key, b.items, i) && AllGood(LiveFields(s.fields), b.key, b.items[i]))
      && (r.id.Some? && !r.created ==> b.mode != Create && found == r.id)
      && (r.id.Some? && r.created ==> b.mode != Update && b.key != IdKey && found.None? && r.id == Some(b.ids[i]))
      && (r.key == if KeyText(b.items[i], b.key) == "" then None else Some(KeyText(b.items[i], b.key)))
  {
    KeyErrorIs(b.key, b.items, i);
    FieldsAre(LiveFields(s.fields), b.key, b.items[i]);
    var p := EveryItemAnswered(s, b, i);
    if Results(s, LiveFields(s.fields), b, s.nextField)[i].id.Some? {
      AcceptedAnswer(s, b, p);
      assert JsTrim("") == "";
    }
  }

  /** Every contact a call writes is one it answers with. */
  lemma WrittenAreAnswered(s: Store, b: Batch, c: Id) returns (i: nat)
    requires Writes(Accepted(s, LiveFields(s.fields), b, s.nextField), c)
    ensures i < |b.items| && Results(s, LiveFields(s.fields), b, s.nextField)[i].id == Some(c)
  {
    var p :| p in Accepted(s, LiveFields(s.fields), b, s.nextField) && p.id == c;
    AcceptedAnswer(s, b, p);
    i := p.index;
  }

  /** Main result: `create` leaves every row there was as it was; `update`, and a call by `id`, add none. */
  lemma ModeKeepsRows(s: Store, b: Batch, c: Id)
    requires Callable(s, b)
    ensures Attempt(s, b).Finished?
    ensures var t := Attempt(s, b).store;
      && (b.mode == Create && c in s.contacts ==> c in t.contacts && t.contacts[c] == s.contacts[c])
      && (b.mode == Update || b.key == IdKey ==> (c in t.contacts <==> c in s.contacts))
  {
    AttemptApplies(s, b);
    var accepted := Accepted(s, LiveFields(s.fields), b, s.nextField);
    if Writes(accepted, c) {
      var p :| p in accepted && p.id == c;
      AcceptedAnswer(s, b, p);
      AnswersFollowTheMode(s, b, p.index);
      WrittenIs(s, b, p);
    }
  }

  lemma WrittenIs(s: Store, b: Batch, p: Pending)
    requires Callable(s, b) && IsCandidate(s, b, p)
    ensures p.created ==> p.id !in s.contacts
    ensures !p.created ==> p.id in s.contacts
  {
    CandidateFits(s, b, p);
  }

  // ---- unique values

  /** What item `j` asks for in field `f` is free or its contact's own, and no earlier item in the race asks for it. */
  ghost predicate Passes(s: Store, key: Key, ps: seq<Pending>, j: nat, f: nat)
    requires j < |ps|
  {
    f in s.fields && s.fields[f].unique && !s.fields[f].deleted && key != FieldKey(f) ==>
      FreeAt(s, ps[j], f) && !Forestalled(s, key, ps, j, f)
  }

  /** One field more fails an item that stands, exactly if it does not pass, as a repetition or as another's. */
  lemma FieldDecides(s: Store, key: Key, ps: seq<Pending>, j: nat, f: nat)
    requires j < |ps|
    ensures AfterFields(s, LiveFields(s.fields), key, ps, f + 1)[j] ==
      var e := AfterFields(s, LiveFields(s.fields), key, ps, f)[j];
      if e.Some? || Passes(s, key, ps, j, f) then e
      else Some(ItemError(if Forestalled(s, key, ps, j, f) then 2014 else 2012, Some(FieldKey(f))))
  {
    var head := AfterFields(s, LiveFields(s.fields), key, ps, f);
    if Checks(LiveFields(s.fields), key, f) && head[j].None? && Claim(ps[j], f).Some? {
      assert Setter(ps, head, f, j);
    }
  }

  /** Field `f` is the lowest one in which item `j` does not pass: 2014 for a repeated value, 2012 for another's. */
  ghost predicate FailsFirstAt(s: Store, key: Key, ps: seq<Pending>, j: nat, f: nat, e: ItemError)
    requires j < |ps|
  {
    && e == ItemError(if Forestalled(s, key, ps, j, f) then 2014 else 2012, Some(FieldKey(f)))
    && !Passes(s, key, ps, j, f)
    && forall g :: 0 <= g < f ==> Passes(s, key, ps, j, g)
  }

  /** Main result: an item passes the unique checks exactly if it passes each, and else fails at the lowest field. */
  lemma {:induction false} UniqueDecides(s: Store, key: Key, ps: seq<Pending>, j: nat, n: nat)
    requires j < |ps|
    ensures var e := AfterFields(s, LiveFields(s.fields), key, ps, n)[j];
      && (e.None? <==> forall f :: 0 <= f < n ==> Passes(s, key, ps, j, f))
      && (e.Some? ==> exists f: nat :: f < n && FailsFirstAt(s, key, ps, j, f, e.value))
  {
    if n > 0 {
      UniqueDecides(s, key, ps, j, n - 1);
      var head := AfterFields(s, LiveFields(s.fields), key, ps, n - 1)[j];
      DecidedNext(s, key, ps, j, n - 1, head, AfterFields(s, LiveFields(s.fields), key, ps, n)[j]);
    }
  }

  lemma DecidedNext(
      s: Store, key: Key, ps: seq<Pending>, j: nat, n: nat, head: Option<ItemError>, e: Option<ItemError>)
    requires j < |ps|
    requires head == AfterFields(s, LiveFields(s.fields), key, ps, n)[j]
    requires e == AfterFields(s, LiveFields(s.fields), key, ps, n + 1)[j]
    requires head.None? ==> forall f :: 0 <= f < n ==> Passes(s, key, ps, j, f)
    ensures head.Some? ==> e == head
    ensures e.None? <==> head.None? && Passes(s, key, ps, j, n)
    ensures head.None? && e.Some? ==> FailsFirstAt(s, key, ps, j, n, e.value)
  {
    FieldDecides(s, key, ps, j, n);
  }

  // ---- keys as text

  lemma {:induction false} PropertyIs(item: Item, i: nat)
    requires i < |item|
    ensures Get(item, item[i].0) == Some(item[i].1)
  {
    if i < |item| - 1 {
      PropertyIs(item[..|item| - 1], i);
    }
  }

  lemma {:induction false} NoProperty(item: Item, key: Key)
    requires forall i :: 0 <= i < |item| ==> item[i].0 != key
    ensures Get(item, key).None?
  {
    if item != [] {
      NoProperty(item[..|item| - 1], key);
    }
  }

  /** The key of an item: a string as it is, a number as it prints, and nothing for any other value or none. */
  lemma KeyTextIs(item: Item, key: Key)
    ensures (forall i :: 0 <= i < |item| ==> item[i].0 != key) ==> KeyText(item, key) == ""
    ensures forall i :: 0 <= i < |item| && item[i].0 == key ==>
      && (item[i].1.JStr? ==> KeyText(item, key) == item[i].1.s)
      && (item[i].1.JNum? ==> KeyText(item, key) == DecimalText(item[i].1.n))
      && (item[i].1.JMinusZero? ==> KeyText(item, key) == DecimalText(Decimal(0, 0)))
      && (!item[i].1.JStr? && !item[i].1.JNum? && !item[i].1.JMinusZero? ==> KeyText(item, key) == "")
  {
    if forall i :: 0 <= i < |item| ==> item[i].0 != key {
      NoProperty(item, key);
    }
    forall i | 0 <= i < |item| && item[i].0 == key ensures Get(item, key) == Some(item[i].1) {
      PropertyIs(item, i);
    }
  }

  // ---- deletes and attempts

  /**
   Main result: what a delete answers. An item without a usable key fails with 2014, one whose key finds nobody with
   2008, and any other names the contact its key finds.
   */
  lemma DeleteAnswers(s: Store, b: Batch, i: nat)
    requires i < |b.items|
    ensures var r := ContactsWriteService.DeletedResults(s, b, |b.items|)[i];
      var found := Lookup(s, b.key, KeyText(b.items[i], b.key));
      && (!KeyUsable(b.key, b.items, i) ==> RefusedAs(r, i, 2014, None))
      && (KeyUsable(b.key, b.items, i) && found.None? ==> RefusedAs(r, i, 2008, None))
      && (KeyUsable(b.key, b.items, i) && found.Some? ==>
           r.index == i && r.id == found && !r.created && r.changed == [] && r.error.None?)
  {
    KeyErrorIs(b.key, b.items, i);
    DeletedAt(s, b, i);
  }

  lemma DeletedAt(s: Store, b: Batch, i: nat)
    requires i < |b.items|
    ensures ContactsWriteService.DeletedResults(s, b, |b.items|)[i] == ContactsWriteService.DeletedResult(s, b, i)
  {
    ContactsWriteService.TabulatedAt(
      |b.items|, (k: nat) requires k < |b.items| => ContactsWriteService.DeletedResult(s, b, k), i);
  }

  /** Attempt `a`, with its own fresh IDs. */
  ghost function AttemptAt(s: Store, b: Batch, ids: seq<seq<Id>>, a: nat): Attempted
    requires ContactsWriteService.IdsFor(b, ids) && a < 3
  {
    Attempt(s, b.(ids := ids[a]))
  }

  /** A call makes three attempts at most, and what it leaves and answers is what the first that commits does. */
  lemma FirstOfThree(s: Store, b: Batch, ids: seq<seq<Id>>)
    requires ContactsWriteService.IdsFor(b, ids)
    ensures ContactsWriteService.Outcome(s, b, ids, 0) ==
      if AttemptAt(s, b, ids, 0).Finished? then AttemptAt(s, b, ids, 0)
      else if AttemptAt(s, b, ids, 1).Finished? then AttemptAt(s, b, ids, 1)
      else AttemptAt(s, b, ids, 2)
  {
    ContactsWriteService.NextOutcome(s, b, ids, 0, AttemptAt(s, b, ids, 0));
    ContactsWriteService.NextOutcome(s, b, ids, 1, AttemptAt(s, b, ids, 1));
    ContactsWriteService.NextOutcome(s, b, ids, 2, AttemptAt(s, b, ids, 2));
  }

  // ---- the fields an answer names

  /** Field `f` is the one sent at place `i`. */
  predicate SentAtPlace(sent: FieldSet, i: nat, f: nat) {
    i < |sent| && sent[i].0 == f
  }

  /** The changed fields are named in the order they were sent, each once. */
  lemma {:induction false} ChangedInOrder(prior: Data, next: Data, sent: FieldSet, a: nat, b: nat)
    returns (i: nat, j: nat)
    requires a < b < |ChangedOf(prior, next, sent)|
    ensures i < j && SentAtPlace(sent, i, ChangedOf(prior, next, sent)[a])
    ensures SentAtPlace(sent, j, ChangedOf(prior, next, sent)[b])
  {
    var n := |sent| - 1;
    var head := ChangedOf(prior, next, sent[..n]);
    if b < |head| {
      i, j := ChangedInOrder(prior, next, sent[..n], a, b);
    } else {
      i := ChangedPlace(prior, next, sent[..n], a);
      j := n;
    }
  }

  lemma {:induction false} ChangedPlace(prior: Data, next: Data, sent: FieldSet, a: nat) returns (i: nat)
    requires a < |ChangedOf(prior, next, sent)|
    ensures SentAtPlace(sent, i, ChangedOf(prior, next, sent)[a])
  {
    var n := |sent| - 1;
    if a < |ChangedOf(prior, next, sent[..n])| {
      i := ChangedPlace(prior, next, sent[..n], a);
    } else {
      i := n;
    }
  }

  /** What field `f` of the item's contact was before the call; nothing, if the contact is new. */
  function Before(s: Store, p: Pending, f: nat): Option<Value> {
    if p.id in s.contacts then At(s.contacts[p.id].data, f) else None
  }

  /** Main result: an answer names exactly the fields the item sent that the call changed, and those sent as -0. */
  lemma ChangedExactly(s: Store, b: Batch, p: Pending, f: nat)
    requires Callable(s, b) && p in Accepted(s, LiveFields(s.fields), b, s.nextField)
    ensures p.index < |b.items| && Attempt(s, b).Finished?
    ensures var r, t := Results(s, LiveFields(s.fields), b, s.nextField)[p.index], Attempt(s, b).store;
      && p.id in t.contacts
      && (f in r.changed <==>
           Sent(p.fields, f).Some? &&
             (Before(s, p, f) != At(t.contacts[p.id].data, f) || Sent(p.fields, f) == Some(Some(MinusZero))))
  {
    AttemptApplies(s, b);
    AcceptedAnswer(s, b, p);
    WrittenIs(s, b, p);
    var prior := Prior(s.contacts, p);
    ChangedHas(prior, Merge(prior, p.fields), p.fields, f);
  }

  // ---- blank values

  /** A blank value of a unique field is never refused, and no index entry holds one. */
  lemma BlankIsShared(s: Store, key: Key, ps: seq<Pending>, j: nat, f: nat, v: Value)
    requires j < |ps| && Sent(ps[j].fields, f) == Some(Some(v)) && JsTrim(Str(v)) == ""
    ensures Passes(s, key, ps, j, f)
    ensures Consistent(s) && Synced(s.fields, f) ==> (f, Str(v)) !in s.uniq
  {
  }
}
