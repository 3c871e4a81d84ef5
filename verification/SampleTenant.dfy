/**
 A tenant with two contacts, two unique text fields and a request to forget one of the contacts, on which
 the failures that need a special state are shown to happen.
 */
module SampleTenant {
  import opened Wrappers
  import opened Text
  import opened FieldValues
  import opened Tables
  import opened BatchChecks
  import opened BatchTheorems
  import opened BatchRefinement
  import opened PartialReplay
  import TenantRuns

  const UNIQUE_TEXT := FieldDef(FieldType.Text, {}, true, false, false, false)
  const SYSTEM_TEXT := UNIQUE_TEXT.(system := true)
  const CONSENT := FieldDef(SingleChoice, {1, 2}, false, false, true, false)

  function Data(): map<nat, Value> {
    map[100 := TextValue("5"), 101 := TextValue("7")]
  }

  function Def(f: nat): FieldDef {
    if f in {EMAIL, EXTERNAL_ID} then SYSTEM_TEXT else if f in {31, 32, 33} then CONSENT else UNIQUE_TEXT
  }

  function Sample(): Store {
    Store(
      map["a" := Contact(map[], 1, false), "c" := Contact(Data(), 1, false)],
      map[(100, "5") := "c", (101, "7") := "c"],
      map f: nat | f in {EMAIL, EXTERNAL_ID, 31, 32, 33, 100, 101} :: Def(f),
      102, {}, {}, [],
      [Upserted("a", 1, map[], [], {}), Upserted("c", 1, Data(), [100, 101], {})],
      {}, map[], map[0 := Request(Some("c"), None, Forget, RequestPending, None)])
  }

  lemma NotBlank()
    ensures !Blank("5") && !Blank("7") && !Blank("a") && !Blank("c")
  {
  }

  lemma SampleFields()
    ensures SystemFields(Sample())
  {
  }

  lemma SampleRows()
    ensures References(Sample()) && UniqueColumns(Sample().contacts)
  {
    assert forall c :: Live(Sample().contacts, c) ==>
      EMAIL !in Sample().contacts[c].data && EXTERNAL_ID !in Sample().contacts[c].data;
  }

  lemma SampleIndex()
    ensures IndexAgrees(Sample())
  {
    NotBlank();
  }

  lemma SampleLogs()
    ensures ConsentsReplay(Sample()) && SnapshotsFresh(Sample())
  {
    var s := Sample();
    assert s.events[..1] == [s.events[0]];
    assert LastSnapshot(s.events, "c") == Some(s.events[1]);
    assert LastSnapshot(s.events, "a") == LastSnapshot(s.events[..1], "a") == Some(s.events[0]);
    assert ListsOf(s.members, "a") == {} && ListsOf(s.members, "c") == {};
  }

  lemma SampleIsConsistent()
    ensures Consistent(Sample())
  {
    SampleFields();
    SampleRows();
    SampleIndex();
    SampleLogs();
  }

  // ---- accepted once

  /** "c" goes from "5" to "6" in field 100, and "a" asks for that "5" and for the "7" of "c". */
  function First(): Batch {
    Rivals("a", "c", 100, 101, ["x", "y"], "api")
  }

  function Second(): Batch {
    First().(ids := ["u", "v"])
  }

  lemma SamplePair()
    ensures TwoFields(Sample(), 100, 101) && Pair(Sample().contacts, "a", "c", 100, 101)
  {
  }

  lemma SampleIsTwoContacts()
    ensures TwoContacts(Sample(), "a", "c", 100, 101)
  {
    SampleIsConsistent();
    SamplePair();
    NotBlank();
  }


  lemma SampleIds()
    ensures FreshIds(Sample(), First()) && FreshIds(Sample(), Second())
  {
  }

  /** The item for "c" is accepted by the first call and refused with 2014 by the second. */
  lemma AcceptedOnceHappens() returns (r: Store)
    ensures Attempt(Sample(), First()).Finished? && Attempt(Sample(), First()).store == r
    ensures IsAccepted(Sample(), First(), 1)
    ensures Repeated(Results(r, LiveFields(r.fields), Second(), r.nextField)[1])
  {
    var s := Sample();
    SampleIsTwoContacts();
    SampleIds();
    r := AcceptedOnce(s, "a", "c", 100, 101, First(), Second());
    AcceptedAnswer(s, First(), RivalItems("a", "c", 100, 101)[1]);
  }

  // ---- a row that outlives its contact

  /** An upsert that looks "c" up before the erasure and writes after it leaves a row of no contact. */
  lemma RowOutlivesContactHappens() returns (t: TenantRuns.Run)
    ensures var row := RelationalRow(1, "c", "k");
      && TenantRuns.Leads(TenantRuns.Idle(Sample()), TenantRuns.Outliving(0, row, 0, "hash", ""), t)
      && row in t.store.relational && "c" !in t.store.contacts
  {
    SampleIsConsistent();
    t := TenantRuns.RowOutlivesContact(TenantRuns.Idle(Sample()), 0, RelationalRow(1, "c", "k"), 0, "hash", "");
  }
}
