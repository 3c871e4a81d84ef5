/** Keys: the contact behind `id`, email, external ID or a custom unique field. */
module KeyResolver {
  import opened Wrappers
  import opened Text
  import opened FieldValues
  import opened Tables

  /** A property name of an item: `id`, a field ID, or anything else. */
  datatype Key = IdKey | FieldKey(field: nat) | OtherKey(name: string)

  /** `assertKey`: `id` or an existing unique field. */
  predicate KeyExists(fields: map<nat, FieldDef>, key: Key) {
    match key
    case IdKey => true
    case FieldKey(f) => f in LiveFields(fields) && fields[f].unique
    case OtherKey(_) => false
  }

  function KeyNorm(key: Key, v: string): string {
    if key.FieldKey? then JsNorm(key.field, v) else v
  }

  /** The row the lookup query returns for key value `v`. */
  predicate Answers(s: Store, key: Key, v: string, c: Id) {
    && Live(s.contacts, c)
    && match key
       case IdKey => c == v
       case FieldKey(f) =>
         if IsColumn(f) then Column(s.contacts[c].data, f) == Some(JsNorm(f, v))
         else (f, v) in s.uniq && s.uniq[(f, v)] == c
       case OtherKey(_) => false
  }

  ghost function Lookup(s: Store, key: Key, v: string): (r: Option<Id>)
    ensures r.Some? ==> Answers(s, key, v, r.value)
  {
    if exists c :: Answers(s, key, v, c) then (var c :| Answers(s, key, v, c); Some(c)) else None
  }

  /** The text by which field `f` of a contact is unique. */
  function UniqueText(d: Data, f: nat): Option<string> {
    if IsColumn(f) then Column(d, f) else Entry(d, f)
  }

  ghost predicate UniqueField(s: Store, f: nat) {
    f in LiveFields(s.fields) && s.fields[f].unique
  }

  lemma LookupUnique(s: Store, key: Key, v: string, c: Id)
    requires UniqueColumns(s.contacts) && Answers(s, key, v, c)
    ensures Lookup(s, key, v) == Some(c)
  {
  }

  /** Resolving through columns and index finds what a scan of the live contacts would. */
  lemma LookupIsScan(s: Store, f: nat, v: string, c: Id)
    requires Consistent(s) && UniqueField(s, f) && !Blank(v)
    ensures Lookup(s, FieldKey(f), v) == Some(c) <==>
      Live(s.contacts, c) && UniqueText(s.contacts[c].data, f) == Some(JsNorm(f, v))
  {
    assert IsColumn(f) || Synced(s.fields, f);
    if Live(s.contacts, c) && UniqueText(s.contacts[c].data, f) == Some(JsNorm(f, v)) {
      assert Answers(s, FieldKey(f), v, c);
      LookupUnique(s, FieldKey(f), v, c);
    }
  }

  /**
   A contact is found by the very value it was stored with exactly when the service and the
   generated column normalize that value alike.
   */
  lemma FoundByOwnValue(s: Store, f: nat, c: Id)
    requires Consistent(s) && UniqueField(s, f) && Live(s.contacts, c)
    requires f in s.contacts[c].data && !Blank(Str(s.contacts[c].data[f]))
    ensures Lookup(s, FieldKey(f), Str(s.contacts[c].data[f])) == Some(c) <==> Plain(f, Str(s.contacts[c].data[f]))
  {
    var v := Str(s.contacts[c].data[f]);
    LookupIsScan(s, f, v, c);
    NonBlankNorm(f, v);
  }

  /** The contact holds `v` in field `f`, as that field is compared: email, external ID or custom field. */
  predicate HoldsText(d: Data, f: nat, v: string) {
    f in d &&
    if f == 3 then SameButCase(PgTrim(Str(d[f])), JsTrim(v))
    else if f == 4 then PgTrim(Str(d[f])) == JsTrim(v)
    else Str(d[f]) == v
  }

  lemma HeldIsUnique(d: Data, f: nat, v: string)
    requires !Blank(v)
    ensures UniqueText(d, f) == Some(JsNorm(f, v)) <==> HoldsText(d, f, v)
  {
    NonBlankNorm(f, v);
    if f in d {
      SameKeyExactly(f, v, Str(d[f]));
    }
  }

  /**
   Main result: whom a key finds. A field's value finds the live contact that holds it; an ID the live contact
   with that ID; no other property finds anybody.
   */
  lemma FoundExactly(s: Store, key: Key, v: string, c: Id)
    requires Consistent(s) && !Blank(v) && (key.FieldKey? ==> UniqueField(s, key.field))
    ensures Lookup(s, key, v) == Some(c) <==>
      Live(s.contacts, c) && ((key.FieldKey? && HoldsText(s.contacts[c].data, key.field, v)) || (key.IdKey? && c == v))
  {
    if key.FieldKey? {
      LookupIsScan(s, key.field, v, c);
      if Live(s.contacts, c) {
        HeldIsUnique(s.contacts[c].data, key.field, v);
      }
    } else if key.IdKey? && Live(s.contacts, v) {
      LookupUnique(s, key, v, v);
    }
  }

  /** The keys a call may use: `id`, and the fields that are there, not deleted and unique. */
  lemma KeyExistsExactly(s: Store, key: Key)
    ensures KeyExists(s.fields, key) <==> key.IdKey? || (key.FieldKey? && UniqueField(s, key.field))
    ensures key.FieldKey? && KeyExists(s.fields, key) ==>
      key.field in s.fields && s.fields[key.field].unique && !s.fields[key.field].deleted
  {
  }
}
