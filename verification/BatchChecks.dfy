/**
 Validation of a batch before its transaction: keys are de-duplicated, fields normalized, keys
 resolved and unique values checked against the tables and against earlier items.
 */
module BatchChecks {
  import opened Wrappers
  import opened Text
  import opened FieldValues
  import opened Tables
  import opened BatchCommit
  import opened KeyResolver

  datatype Mode = Create | Update | Upsert

  predicate DistinctKeys(s: seq<(Key, Raw)>) {
    forall i, j :: 0 <= i < j < |s| ==> s[i].0 != s[j].0
  }

  /** A JSON object: its properties in the order JavaScript lists them. */
  type Item = s: seq<(Key, Raw)> | DistinctKeys(s) witness []

  /** One call of the engine; `ids` are the IDs it would give new contacts, one for each item. */
  datatype Call = Call(
    key: Key,
    mode: Mode,
    items: seq<Item>,
    ids: seq<Id>,
    source: string,
    explicit: Option<ConsentInput>)

  type Batch = b: Call | |b.items| == |b.ids| witness Call(IdKey, Upsert, [], [], "", None)

  const NOT_FOUND: nat := 2008
  const BAD_KEY: nat := 2009
  const NO_FIELD: nat := 2011
  const EXISTS: nat := 2012
  const READ_ONLY: nat := 2013
  const NO_KEY: nat := 2014

  datatype ItemError = ItemError(code: nat, field: Option<Key>)

  datatype ItemResult = ItemResult(
    index: nat,
    key: Option<string>,
    id: Option<Id>,
    created: bool,
    changed: seq<nat>,
    error: Option<ItemError>)

  // ---- keys

  function Get(item: Item, k: Key): Option<Raw> {
    if item == [] then None
    else if item[|item| - 1].0 == k then Some(item[|item| - 1].1)
    else Get(item[..|item| - 1], k)
  }

  /** The key as text, empty unless it is a string or a number. */
  function KeyText(item: Item, key: Key): string {
    match Get(item, key)
    case Some(JStr(s)) => s
    case Some(JNum(n)) => DecimalText(n)
    case Some(JMinusZero) => DecimalText(ZERO)
    case _ => ""
  }

  /** Normalized keys of the first `n` items. */
  function SeenKeys(key: Key, items: seq<Item>, n: nat): set<string>
    requires n <= |items|
  {
    if n == 0 then {}
    else
      var k := KeyText(items[n - 1], key);
      SeenKeys(key, items, n - 1) + (if Blank(k) then {} else {KeyNorm(key, k)})
  }

  function KeyError(key: Key, items: seq<Item>, i: nat): Option<ItemError>
    requires i < |items|
  {
    var k := KeyText(items[i], key);
    if Blank(k) || KeyNorm(key, k) in SeenKeys(key, items, i) then Some(ItemError(NO_KEY, None)) else None
  }

  // ---- fields

  function FieldError(defs: map<nat, FieldDef>, k: Key, raw: Raw): Result<Option<Value>, ItemError> {
    if !k.FieldKey? || k.field !in defs then Err(ItemError(NO_FIELD, Some(k)))
    else if defs[k.field].readOnly then Err(ItemError(READ_ONLY, Some(k)))
    else
      match NormalizeValue(defs[k.field], raw)
      case Ok(v) => Ok(v)
      case Err(code) => Err(ItemError(code, Some(k)))
  }

  function FieldIds(fields: seq<(nat, Option<Value>)>): set<nat> {
    set i | 0 <= i < |fields| :: fields[i].0
  }

  function NamedFields(item: seq<(Key, Raw)>): set<nat> {
    set i | 0 <= i < |item| && item[i].0.FieldKey? :: item[i].0.field
  }

  lemma OneMoreField(fields: FieldSet, item: seq<(Key, Raw)>, f: nat, v: Option<Value>)
    requires item != [] && DistinctKeys(item) && item[|item| - 1].0 == FieldKey(f)
    requires FieldIds(fields) <= NamedFields(item[..|item| - 1])
    ensures DistinctFields(fields + [(f, v)]) && FieldIds(fields + [(f, v)]) <= NamedFields(item)
  {
    forall i | 0 <= i < |fields| ensures fields[i].0 != f && fields[i].0 in NamedFields(item) {
      assert fields[i].0 in FieldIds(fields);
      var j :| 0 <= j < |item| - 1 && item[j].0 == FieldKey(fields[i].0);
    }
    assert item[|item| - 1].0.field in NamedFields(item);
  }

  lemma FewerNamed(item: seq<(Key, Raw)>)
    requires item != []
    ensures NamedFields(item[..|item| - 1]) <= NamedFields(item)
  {
    forall f | f in NamedFields(item[..|item| - 1]) ensures f in NamedFields(item) {
      var j :| 0 <= j < |item| - 1 && item[j].0 == FieldKey(f);
    }
  }

  /** The normalized fields of an item, or the error of the first bad one. */
  function Fields(defs: map<nat, FieldDef>, key: Key, item: Item): (r: Result<FieldSet, ItemError>)
    ensures r.Ok? ==> FieldIds(r.value) <= NamedFields(item)
  {
    if item == [] then Ok([])
    else
      var (k, raw) := item[|item| - 1];
      var head := Fields(defs, key, item[..|item| - 1]);
      FewerNamed(item);
      if head.Err? || (k == IdKey && key == IdKey) then head
      else
        match FieldError(defs, k, raw)
        case Ok(v) =>
          OneMoreField(head.value, item, k.field, v);
          Ok(head.value + [(k.field, v)])
        case Err(e) => Err(e)
  }

  // ---- resolution

  /** The fields of an item whose key is usable and not repeated. */
  function Screened(defs: map<nat, FieldDef>, key: Key, items: seq<Item>, i: nat): Result<FieldSet, ItemError>
    requires i < |items|
  {
    match KeyError(key, items, i)
    case Some(e) => Err(e)
    case None => Fields(defs, key, items[i])
  }

  /** The item with its contact: the one its key names, or a new one. */
  ghost function Placed(s: Store, b: Batch, i: nat, fields: FieldSet): Result<Pending, ItemError>
    requires i < |b.items|
  {
    var k := KeyText(b.items[i], b.key);
    match Lookup(s, b.key, k)
    case Some(c) =>
      if b.mode == Create then Err(ItemError(EXISTS, None)) else Ok(Pending(i, k, fields, c, false))
    case None =>
      if b.mode == Update || b.key == IdKey then Err(ItemError(NOT_FOUND, None))
      else Ok(Pending(i, k, fields, b.ids[i], true))
  }

  ghost function Resolved(s: Store, defs: map<nat, FieldDef>, b: Batch, i: nat): Result<Pending, ItemError>
    requires i < |b.items|
  {
    match Screened(defs, b.key, b.items, i)
    case Ok(fields) => Placed(s, b, i, fields)
    case Err(e) => Err(e)
  }

  ghost function AllResolved(s: Store, defs: map<nat, FieldDef>, b: Batch, n: nat): seq<Result<Pending, ItemError>>
    requires n <= |b.items|
  {
    seq(n, i requires 0 <= i < n => Resolved(s, defs, b, i))
  }

  /** The items that have not failed, in order. */
  function Collected(rs: seq<Result<Pending, ItemError>>): seq<Pending> {
    if rs == [] then []
    else Collected(rs[..|rs| - 1]) + (if rs[|rs| - 1].Ok? then [rs[|rs| - 1].value] else [])
  }

  /** What `valid` holds once keys are resolved. */
  ghost function Candidates(s: Store, defs: map<nat, FieldDef>, b: Batch, n: nat): seq<Pending>
    requires n <= |b.items|
  {
    Collected(AllResolved(s, defs, b, n))
  }

  // ---- unique values

  /** Item `j` still stands and sets unique field `f`. */
  predicate Setter(ps: seq<Pending>, errors: seq<Option<ItemError>>, f: nat, j: nat)
    requires j < |ps| == |errors|
  {
    errors[j].None? && Claim(ps[j], f).Some?
  }

  ghost function UniqueError(
      s: Store, ps: seq<Pending>, errors: seq<Option<ItemError>>, f: nat, j: nat): Option<ItemError>
    requires j < |ps| == |errors| && Setter(ps, errors, f, j)
  {
    var v := Claim(ps[j], f).value;
    var owner := Lookup(s, FieldKey(f), v);
    if exists i :: 0 <= i < j && Setter(ps, errors, f, i) && JsNorm(f, Claim(ps[i], f).value) == JsNorm(f, v) then
      Some(ItemError(NO_KEY, Some(FieldKey(f))))
    else if owner.Some? && owner.value != ps[j].id then Some(ItemError(EXISTS, Some(FieldKey(f))))
    else None
  }

  ghost function AfterField(
      s: Store, ps: seq<Pending>, errors: seq<Option<ItemError>>, f: nat): (r: seq<Option<ItemError>>)
    requires |ps| == |errors|
    ensures |r| == |ps|
  {
    seq(|ps|, j requires 0 <= j < |ps| =>
      if Setter(ps, errors, f, j) then UniqueError(s, ps, errors, f, j) else errors[j])
  }

  function NoErrors(n: nat): seq<Option<ItemError>> {
    seq(n, _ => None)
  }

  predicate Checks(defs: map<nat, FieldDef>, key: Key, f: nat) {
    f in defs && defs[f].unique && key != FieldKey(f)
  }

  /** Errors after the unique fields below `n`, in field order. */
  ghost function AfterFields(
      s: Store, defs: map<nat, FieldDef>, key: Key, ps: seq<Pending>, n: nat): (r: seq<Option<ItemError>>)
    ensures |r| == |ps|
  {
    if n == 0 then NoErrors(|ps|)
    else
      var head := AfterFields(s, defs, key, ps, n - 1);
      if Checks(defs, key, n - 1) then AfterField(s, ps, head, n - 1) else head
  }

  function Standing(ps: seq<Pending>, errors: seq<Option<ItemError>>): seq<Pending>
    requires |ps| == |errors|
  {
    if ps == [] then []
    else
      var n := |ps| - 1;
      Standing(ps[..n], errors[..n]) + (if errors[n].None? then [ps[n]] else [])
  }

  // ---- the attempt

  datatype Attempted = Retry | Finished(results: seq<ItemResult>, store: Store)

  function KeyOption(k: string): Option<string> {
    if k == "" then None else Some(k)
  }

  function Failed(i: nat, k: string, e: ItemError): ItemResult {
    ItemResult(i, KeyOption(k), None, false, [], Some(e))
  }

  function Prior(contacts: map<Id, Contact>, p: Pending): Data {
    if !p.created && p.id in contacts then contacts[p.id].data else map[]
  }

  function Succeeded(contacts: map<Id, Contact>, p: Pending): ItemResult {
    var prior := Prior(contacts, p);
    ItemResult(p.index, Some(p.key), Some(p.id), p.created, ChangedOf(prior, Merge(prior, p.fields), p.fields), None)
  }

  /** Position of item `i` among the candidates. */
  function Position(ps: seq<Pending>, i: nat): (j: nat)
    ensures j < |ps| ==> ps[j].index == i
    ensures j >= |ps| ==> j == |ps| && forall k :: 0 <= k < |ps| ==> ps[k].index != i
  {
    if ps == [] then 0
    else
      var j := Position(ps[..|ps| - 1], i);
      if j < |ps| - 1 then j else if ps[|ps| - 1].index == i then |ps| - 1 else |ps|
  }

  /** The answer for item `i` once the batch is checked. */
  ghost function Verdict(s: Store, defs: map<nat, FieldDef>, b: Batch, n: nat, i: nat): ItemResult
    requires i < |b.items|
  {
    match Resolved(s, defs, b, i)
    case Err(e) => Failed(i, KeyText(b.items[i], b.key), e)
    case Ok(p) =>
      var ps := Candidates(s, defs, b, |b.items|);
      var errors := AfterFields(s, defs, b.key, ps, n);
      var j := Position(ps, i);
      if j < |ps| && errors[j].Some? then Failed(i, p.key, errors[j].value) else Succeeded(s.contacts, p)
  }

  ghost function Results(s: Store, defs: map<nat, FieldDef>, b: Batch, n: nat): seq<ItemResult> {
    seq(|b.items|, i requires 0 <= i < |b.items| => Verdict(s, defs, b, n, i))
  }

  ghost function Accepted(s: Store, defs: map<nat, FieldDef>, b: Batch, n: nat): seq<Pending> {
    var ps := Candidates(s, defs, b, |b.items|);
    Standing(ps, AfterFields(s, defs, b.key, ps, n))
  }

  /** One attempt of the engine on tables `s` that nobody else writes meanwhile. */
  ghost function Attempt(s: Store, b: Batch): Attempted {
    var defs := LiveFields(s.fields);
    var accepted := Accepted(s, defs, b, s.nextField);
    if accepted == [] then Finished(Results(s, defs, b, s.nextField), s)
    else
      match Commit(s, defs, accepted, b.source, b.explicit)
      case Some(r) => Finished(Results(s, defs, b, s.nextField), r)
      case None => Retry
  }
}
