/** From the items of a call to the soundness of the ones it accepts. */
module BatchTheorems {
  import opened Wrappers
  import opened Text
  import opened FieldValues
  import opened Tables
  import opened BatchCommit
  import opened CommitInvariant
  import opened KeyResolver
  import opened BatchChecks
  import opened BatchSafety

  // ---- conditions on a call

  /** The key is `id` or a unique field. */
  ghost predicate IndexKey(s: Store, key: Key) {
    key == IdKey || (key.FieldKey? && UniqueField(s, key.field))
  }

  /** What the item would store in its key field reads as the key it is looked up by. */
  predicate CanonicalItem(defs: map<nat, FieldDef>, key: Key, item: Item) {
    key.FieldKey? && key.field in defs && Get(item, key).Some? ==>
      match NormalizeValue(defs[key.field], Get(item, key).value)
      case Ok(Some(v)) => Str(v) == KeyText(item, key)
      case _ => true
  }

  /** Text is stored as it was sent, so every key of a text field is canonical. */
  lemma TextKeyIsCanonical(defs: map<nat, FieldDef>, key: Key, item: Item)
    requires key.FieldKey? && key.field in defs ==> defs[key.field].fieldType == FieldType.Text
    ensures CanonicalItem(defs, key, item)
  {
  }

  predicate CanonicalBatch(defs: map<nat, FieldDef>, b: Batch) {
    forall i :: 0 <= i < |b.items| ==> CanonicalItem(defs, b.key, b.items[i])
  }

  /** IDs from `uuidv7()`: unused and all different. */
  ghost predicate FreshIds(s: Store, b: Batch) {
    && (forall i :: 0 <= i < |b.ids| ==> Unused(s, b.ids[i]))
    && (forall i, j :: 0 <= i < j < |b.ids| ==> b.ids[i] != b.ids[j])
  }

  /** No email or external ID of the item has a white space at its ends that only JavaScript trims. */
  predicate PlainItem(item: Item) {
    forall f :: f in {EMAIL, EXTERNAL_ID} ==>
      var raw := Get(item, FieldKey(f));
      raw.Some? && raw.value.JStr? ==> Plain(f, raw.value.s)
  }

  predicate PlainBatch(b: Batch) {
    forall i :: 0 <= i < |b.items| ==> PlainItem(b.items[i])
  }

  ghost predicate Callable(s: Store, b: Batch) {
    Consistent(s) && IndexKey(s, b.key) && FreshIds(s, b) && PlainBatch(b) && CanonicalBatch(LiveFields(s.fields), b)
  }

  // ---- fields

  /** An accepted item sends, for each property, its normalized value. */
  lemma {:induction false} FieldsSent(defs: map<nat, FieldDef>, key: Key, item: Item, f: nat)
    requires Fields(defs, key, item).Ok?
    ensures var raw := Get(item, FieldKey(f)); var sent := Sent(Fields(defs, key, item).value, f);
      && (raw.None? ==> sent.None?)
      && (raw.Some? ==> f in defs && NormalizeValue(defs[f], raw.value).Ok?)
      && (raw.Some? ==> sent == Some(NormalizeValue(defs[f], raw.value).value))
  {
    if item != [] {
      var n := |item| - 1;
      FieldsSent(defs, key, item[..n], f);
      var head := Fields(defs, key, item[..n]).value;
      var all := Fields(defs, key, item).value;
      if all != head {
        assert all[..|all| - 1] == head;
      }
    }
  }

  lemma FieldsFit(s: Store, key: Key, item: Item, p: Pending)
    requires SystemFields(s) && PlainItem(item)
    requires Fields(LiveFields(s.fields), key, item) == Ok(p.fields)
    ensures KnownFields(s, p) && PlainFields(p)
  {
    var defs := LiveFields(s.fields);
    forall f ensures Sent(p.fields, f).Some? ==> f in defs
      ensures f in {31, 32, 33} ==> Sent(p.fields, f) != Some(Some(MinusZero))
      ensures IsColumn(f) && Sent(p.fields, f).Some? && Sent(p.fields, f).value.Some? ==>
        Plain(f, Str(Sent(p.fields, f).value.value))
    {
      FieldsSent(defs, key, item, f);
      if IsColumn(f) {
        assert f in {EMAIL, EXTERNAL_ID};
      }
    }
    forall ch ensures Sent(p.fields, ConsentField(ch)) != Some(Some(MinusZero)) {
      assert ConsentField(ch) in {31, 32, 33};
    }
  }

  /** The item claims its own key. */
  lemma KeyClaimed(s: Store, key: Key, item: Item, p: Pending)
    requires IndexKey(s, key) && key.FieldKey? && !Blank(KeyText(item, key)) && p.key == KeyText(item, key)
    requires CanonicalItem(LiveFields(s.fields), key, item)
    requires Fields(LiveFields(s.fields), key, item) == Ok(p.fields)
    ensures Claim(p, key.field) == Some(p.key)
  {
    FieldsSent(LiveFields(s.fields), key, item, key.field);
    assert JsTrim("") == "";
  }

  // ---- candidates

  ghost predicate IsCandidate(s: Store, b: Batch, p: Pending) {
    && p.index < |b.items|
    && Screened(LiveFields(s.fields), b.key, b.items, p.index) == Ok(p.fields)
    && Placed(s, b, p.index, p.fields) == Ok(p)
  }

  ghost predicate AreCandidates(s: Store, b: Batch, ps: seq<Pending>) {
    && (forall i :: 0 <= i < |ps| ==> IsCandidate(s, b, ps[i]))
    && (forall i, j :: 0 <= i < j < |ps| ==> ps[i].index < ps[j].index)
  }

  lemma ResolvedIs(s: Store, b: Batch, i: nat)
    requires i < |b.items|
    ensures var r := Resolved(s, LiveFields(s.fields), b, i);
      r.Ok? ==> r.value.index == i && IsCandidate(s, b, r.value)
  {
  }

  lemma CandidatesStep(s: Store, defs: map<nat, FieldDef>, b: Batch, i: nat)
    requires i < |b.items|
    ensures Candidates(s, defs, b, i + 1) == Candidates(s, defs, b, i) +
      (if Resolved(s, defs, b, i).Ok? then [Resolved(s, defs, b, i).value] else [])
  {
    var rs := AllResolved(s, defs, b, i + 1);
    assert rs[..i] == AllResolved(s, defs, b, i);
  }

  ghost predicate Indexed(rs: seq<Result<Pending, ItemError>>) {
    forall i :: 0 <= i < |rs| && rs[i].Ok? ==> rs[i].value.index == i
  }

  /** Each collected item is the result at its index. */
  lemma {:induction false} CollectedAre(rs: seq<Result<Pending, ItemError>>)
    requires Indexed(rs)
    ensures forall k :: 0 <= k < |Collected(rs)| ==>
      Collected(rs)[k].index < |rs| && rs[Collected(rs)[k].index] == Ok(Collected(rs)[k])
    ensures forall j, k :: 0 <= j < k < |Collected(rs)| ==> Collected(rs)[j].index < Collected(rs)[k].index
  {
    if rs != [] {
      var n := |rs| - 1;
      var head, ps := Collected(rs[..n]), Collected(rs);
      CollectedAre(rs[..n]);
      forall k | 0 <= k < |ps| ensures ps[k].index < |rs| && rs[ps[k].index] == Ok(ps[k]) {
        assert k < |head| ==> ps[k] == head[k] && rs[..n][head[k].index] == rs[head[k].index];
      }
    }
  }

  /** Each result without error is collected. */
  lemma {:induction false} CollectedHas(rs: seq<Result<Pending, ItemError>>, i: nat) returns (j: nat)
    requires i < |rs| && rs[i].Ok?
    ensures j < |Collected(rs)| && Collected(rs)[j] == rs[i].value
  {
    var n := |rs| - 1;
    if i < n {
      j := CollectedHas(rs[..n], i);
    } else {
      j := |Collected(rs[..n])|;
    }
  }

  lemma {:induction false} CollectedAll(rs: seq<Result<Pending, ItemError>>)
    requires forall i :: 0 <= i < |rs| ==> rs[i].Ok?
    ensures |Collected(rs)| == |rs| && forall i :: 0 <= i < |rs| ==> Collected(rs)[i] == rs[i].value
  {
    if rs != [] {
      CollectedAll(rs[..|rs| - 1]);
    }
  }

  lemma ResolvedAtIndex(s: Store, b: Batch, n: nat)
    requires n <= |b.items|
    ensures Indexed(AllResolved(s, LiveFields(s.fields), b, n))
    ensures var rs := AllResolved(s, LiveFields(s.fields), b, n);
      forall i :: 0 <= i < |rs| && rs[i].Ok? ==> IsCandidate(s, b, rs[i].value)
  {
    forall i | 0 <= i < n
      ensures Resolved(s, LiveFields(s.fields), b, i).Ok? ==>
        Resolved(s, LiveFields(s.fields), b, i).value.index ==
          i && IsCandidate(s, b, Resolved(s, LiveFields(s.fields), b, i).value)
    {
      ResolvedIs(s, b, i);
    }
  }

  lemma CandidatesAre(s: Store, b: Batch, n: nat)
    requires n <= |b.items|
    ensures var ps := Candidates(s, LiveFields(s.fields), b, n);
      AreCandidates(s, b, ps) && forall i :: 0 <= i < |ps| ==> ps[i].index < n
  {
    var rs := AllResolved(s, LiveFields(s.fields), b, n);
    ResolvedAtIndex(s, b, n);
    CollectedAre(rs);
    var ps := Collected(rs);
    forall k | 0 <= k < |ps| ensures IsCandidate(s, b, ps[k]) {
      assert rs[ps[k].index] == Ok(ps[k]);
    }
  }

  lemma SeenHas(key: Key, items: seq<Item>, n: nat, i: nat)
    requires i < n <= |items| && !Blank(KeyText(items[i], key))
    ensures KeyNorm(key, KeyText(items[i], key)) in SeenKeys(key, items, n)
  {
  }

  lemma CandidateFits(s: Store, b: Batch, p: Pending)
    requires Callable(s, b) && IsCandidate(s, b, p)
    ensures FoundByKey(s, b.key, p) && KnownFields(s, p) && PlainFields(p)
    ensures b.key.FieldKey? ==> Claim(p, b.key.field) == Some(p.key)
    ensures p.created ==> p.id == b.ids[p.index] && b.key.FieldKey?
  {
    FieldsFit(s, b.key, b.items[p.index], p);
    if b.key.FieldKey? {
      KeyClaimed(s, b.key, b.items[p.index], p);
    }
  }

  /** The contact was looked up by the item's key. */
  ghost predicate FoundByKey(s: Store, key: Key, p: Pending) {
    && Located(s, p) && !Blank(p.key)
    && Lookup(s, key, p.key) == if p.created then None else Some(p.id)
  }

  lemma DifferentKeys(s: Store, b: Batch, p: Pending, q: Pending)
    requires IsCandidate(s, b, p) && IsCandidate(s, b, q) && p.index < q.index
    ensures KeyNorm(b.key, p.key) != KeyNorm(b.key, q.key)
  {
    SeenHas(b.key, b.items, q.index, p.index);
  }

  lemma DifferentKeysApart(s: Store, key: Key, p: Pending, q: Pending)
    requires Consistent(s) && IndexKey(s, key)
    requires FoundByKey(s, key, p) && FoundByKey(s, key, q) && KeyNorm(key, p.key) != KeyNorm(key, q.key)
    requires p.created && q.created ==> p.id != q.id
    ensures p.id != q.id
  {
    if !p.created && !q.created && key.FieldKey? {
      LookupIsScan(s, key.field, p.key, p.id);
      LookupIsScan(s, key.field, q.key, q.id);
    }
  }

  /** Candidates name different contacts, by different keys. */
  lemma CandidatesApart(s: Store, b: Batch, p: Pending, q: Pending)
    requires Callable(s, b) && IsCandidate(s, b, p) && IsCandidate(s, b, q) && p.index < q.index
    ensures p.id != q.id && KeyNorm(b.key, p.key) != KeyNorm(b.key, q.key)
  {
    CandidateFits(s, b, p);
    CandidateFits(s, b, q);
    DifferentKeys(s, b, p, q);
    DifferentKeysApart(s, b.key, p, q);
  }

  // ---- unique checks

  ghost predicate FreeAt(s: Store, p: Pending, f: nat) {
    Claim(p, f).Some? ==> Lookup(s, FieldKey(f), Claim(p, f).value) in {None, Some(p.id)}
  }

  ghost predicate ApartAt(p: Pending, q: Pending, f: nat) {
    Claim(p, f).Some? && Claim(q, f).Some? ==> JsNorm(f, Claim(p, f).value) != JsNorm(f, Claim(q, f).value)
  }

  lemma {:induction false} ErrorsStay(
      s: Store, defs: map<nat, FieldDef>, key: Key, ps: seq<Pending>, m: nat, n: nat, j: nat)
    requires m <= n && j < |ps| && AfterFields(s, defs, key, ps, n)[j].None?
    ensures AfterFields(s, defs, key, ps, m)[j].None?
  {
    if m < n { ErrorsStay(s, defs, key, ps, m, n - 1, j); }
  }

  lemma FieldPassed(s: Store, ps: seq<Pending>, head: seq<Option<ItemError>>, f: nat, j: nat)
    requires |ps| == |head| && j < |ps| && AfterField(s, ps, head, f)[j].None?
    ensures head[j].None? && FreeAt(s, ps[j], f)
    ensures forall i :: 0 <= i < j && head[i].None? ==> ApartAt(ps[i], ps[j], f)
  {
    forall i | 0 <= i < j && head[i].None? ensures ApartAt(ps[i], ps[j], f) {
      if Claim(ps[i], f).Some? && Claim(ps[j], f).Some? {
        assert Setter(ps, head, f, i) && Setter(ps, head, f, j);
      }
    }
  }

  /** An item that still stands after the checks claims only free values. */
  lemma ChecksFree(s: Store, defs: map<nat, FieldDef>, key: Key, ps: seq<Pending>, n: nat, f: nat, j: nat)
    requires f < n && Checks(defs, key, f) && j < |ps| && AfterFields(s, defs, key, ps, n)[j].None?
    ensures FreeAt(s, ps[j], f)
  {
    ErrorsStay(s, defs, key, ps, f + 1, n, j);
    FieldPassed(s, ps, AfterFields(s, defs, key, ps, f), f, j);
  }

  /** Two items that still stand after the checks claim different values. */
  lemma ChecksApart(s: Store, defs: map<nat, FieldDef>, key: Key, ps: seq<Pending>, n: nat, f: nat, i: nat, j: nat)
    requires f < n && Checks(defs, key, f) && i < j < |ps|
    requires AfterFields(s, defs, key, ps, n)[i].None? && AfterFields(s, defs, key, ps, n)[j].None?
    ensures ApartAt(ps[i], ps[j], f)
  {
    ErrorsStay(s, defs, key, ps, f, n, i);
    ErrorsStay(s, defs, key, ps, f + 1, n, j);
    FieldPassed(s, ps, AfterFields(s, defs, key, ps, f), f, j);
  }

  /** Items that claim only free values, each its own, all pass the checks. */
  lemma {:induction false} ChecksComplete(s: Store, defs: map<nat, FieldDef>, key: Key, ps: seq<Pending>, n: nat)
    requires forall j, f :: 0 <= j < |ps| && 0 <= f < n && Checks(defs, key, f) ==> FreeAt(s, ps[j], f)
    requires forall i, j, f :: 0 <= i < j < |ps| && 0 <= f < n && Checks(defs, key, f) ==> ApartAt(ps[i], ps[j], f)
    ensures AfterFields(s, defs, key, ps, n) == NoErrors(|ps|)
  {
    if n > 0 {
      ChecksComplete(s, defs, key, ps, n - 1);
      var head := NoErrors(|ps|);
      if Checks(defs, key, n - 1) {
        var errors := AfterField(s, ps, head, n - 1);
        forall j | 0 <= j < |ps| ensures errors[j] == None {
          assert FreeAt(s, ps[j], n - 1);
          forall i | 0 <= i < j ensures ApartAt(ps[i], ps[j], n - 1) {
          }
        }
      }
    }
  }

  lemma {:induction false} StandingSound(s: Store, ps: seq<Pending>, errors: seq<Option<ItemError>>)
    requires |ps| == |errors|
    requires forall j :: 0 <= j < |ps| && errors[j].None? ==> Fit(s, ps[j])
    requires forall i, j :: 0 <= i < j < |ps| && errors[i].None? && errors[j].None? ==> Apart(s, ps[i], ps[j])
    ensures Sound(s, Standing(ps, errors))
    ensures forall p :: p in Standing(ps, errors) ==> exists j :: 0 <= j < |ps| && ps[j] == p && errors[j].None?
  {
    if ps != [] {
      var n := |ps| - 1;
      StandingSound(s, ps[..n], errors[..n]);
      var head := Standing(ps[..n], errors[..n]);
      forall i | 0 <= i < |head| ensures exists j :: 0 <= j < n && ps[j] == head[i] && errors[j].None? {
        assert head[i] in head;
        var j :| 0 <= j < n && ps[..n][j] == head[i] && errors[..n][j].None?;
        assert ps[j] == head[i] && errors[j].None?;
      }
    }
  }

  lemma StandingFits(s: Store, b: Batch, ps: seq<Pending>, j: nat)
    requires Callable(s, b) && j < |ps| && IsCandidate(s, b, ps[j])
    requires AfterFields(s, LiveFields(s.fields), b.key, ps, s.nextField)[j].None?
    ensures Fit(s, ps[j])
  {
    CandidateFits(s, b, ps[j]);
    forall f | UniqueField(s, f) ensures FreeAt(s, ps[j], f) {
      if b.key != FieldKey(f) { ChecksFree(s, LiveFields(s.fields), b.key, ps, s.nextField, f, j); }
    }
  }

  lemma StandingApart(s: Store, b: Batch, ps: seq<Pending>, i: nat, j: nat)
    requires Callable(s, b) && i < j < |ps| && IsCandidate(s, b, ps[i]) && IsCandidate(s, b, ps[j])
    requires ps[i].index < ps[j].index
    requires AfterFields(s, LiveFields(s.fields), b.key, ps, s.nextField)[i].None?
    requires AfterFields(s, LiveFields(s.fields), b.key, ps, s.nextField)[j].None?
    ensures Apart(s, ps[i], ps[j])
  {
    CandidatesApart(s, b, ps[i], ps[j]);
    CandidateFits(s, b, ps[i]);
    CandidateFits(s, b, ps[j]);
    forall f | UniqueField(s, f) ensures ApartAt(ps[i], ps[j], f) {
      if b.key != FieldKey(f) { ChecksApart(s, LiveFields(s.fields), b.key, ps, s.nextField, f, i, j); }
    }
  }

  lemma AllStandingSound(s: Store, b: Batch, ps: seq<Pending>)
    requires Callable(s, b) && AreCandidates(s, b, ps)
    ensures Sound(s, Standing(ps, AfterFields(s, LiveFields(s.fields), b.key, ps, s.nextField)))
  {
    var errors := AfterFields(s, LiveFields(s.fields), b.key, ps, s.nextField);
    forall j | 0 <= j < |ps| && errors[j].None? ensures Fit(s, ps[j]) {
      StandingFits(s, b, ps, j);
    }
    forall i, j | 0 <= i < j < |ps| && errors[i].None? && errors[j].None? ensures Apart(s, ps[i], ps[j]) {
      StandingApart(s, b, ps, i, j);
    }
    StandingSound(s, ps, errors);
  }

  /** Every item a call accepts is sound: it is where its key says and claims only what nobody else holds. */
  lemma AcceptedSound(s: Store, b: Batch)
    requires Callable(s, b)
    ensures Sound(s, Accepted(s, LiveFields(s.fields), b, s.nextField))
  {
    var ps := Candidates(s, LiveFields(s.fields), b, |b.items|);
    var errors := AfterFields(s, LiveFields(s.fields), b.key, ps, s.nextField);
    CandidatesAre(s, b, |b.items|);
    AllStandingSound(s, b, ps);
  }

  /** Main result: with canonical keys, plain values and no other writer, no attempt has to be repeated. */
  lemma ValidationIsComplete(s: Store, b: Batch)
    requires Callable(s, b)
    ensures Attempt(s, b).Finished? && Consistent(Attempt(s, b).store)
  {
    var accepted := Accepted(s, LiveFields(s.fields), b, s.nextField);
    AcceptedSound(s, b);
    SoundCommits(s, accepted, b.source, b.explicit);
    if accepted != [] {
      forall i | 0 <= i < |accepted| ensures Ready(s, LiveFields(s.fields), accepted[i]) {
        assert Fit(s, accepted[i]);
      }
      CommitKeepsConsistent(s, LiveFields(s.fields), accepted, b.source, b.explicit);
    }
  }
}
