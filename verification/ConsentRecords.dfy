/**
 What a call records of consents, row by row and event by event: the new value of each channel it changed,
 with the source, text and actor of the explicit call if there is one for that channel.
 */
module ConsentRecords {
  import opened Wrappers
  import opened Text
  import opened FieldValues
  import opened Tables
  import opened BatchCommit
  import opened KeyResolver
  import opened BatchChecks
  import opened BatchTheorems
  import opened BatchRefinement
  import opened ContactLog
  import opened CallAnswers
  import PartialReplay
  import StableKeys
  import TenantServices

  // ---- rows and events

  /** The field of a channel by its number. */
  function Number(ch: Channel): nat {
    match ch case ByEmail => 31 case BySms => 32 case ByPush => 33
  }

  /** The channels among changed fields, in order. */
  function ChannelsIn(fs: seq<nat>): seq<Channel> {
    if fs == [] then []
    else
      var f := fs[|fs| - 1];
      ChannelsIn(fs[..|fs| - 1]) +
      if f == 31 then [ByEmail] else if f == 32 then [BySms] else if f == 33 then [ByPush] else []
  }

  /** The new value, and what the explicit call says if it is about the channel, else the call's source. */
  predicate RowSays(row: Consent, c: Id, after: Data, source: string, explicit: Option<ConsentInput>) {
    && row.contact == c && row.value == At(after, Number(row.channel))
    && if explicit.Some? && explicit.value.channel == row.channel
       then row.source == explicit.value.source && row.text == explicit.value.text && row.actor == explicit.value.actor
       else row.source == source && row.text.None? && row.actor.None?
  }

  /** One row for each changed channel, in order. */
  predicate RowsSay(
      rows: seq<Consent>, c: Id, after: Data, changed: seq<nat>, source: string, explicit: Option<ConsentInput>) {
    && |rows| == |ChannelsIn(changed)|
    && forall k :: 0 <= k < |rows| ==>
         rows[k].channel == ChannelsIn(changed)[k] && RowSays(rows[k], c, after, source, explicit)
  }

  /** An event tells what its row does, but for the actor. */
  predicate EventSays(e: Event, row: Consent) {
    && e.ConsentChanged? && e.contact == row.contact && e.channel == row.channel
    && e.value == row.value && e.source == row.source && e.text == row.text
  }

  predicate EventsSay(es: seq<Event>, rows: seq<Consent>) {
    |es| == |rows| && forall k :: 0 <= k < |rows| ==> EventSays(es[k], rows[k])
  }

  /** A snapshot of the contact as it now is, with the fields that changed. */
  predicate SnapshotSays(e: Event, s: Store, c: Id, changed: seq<nat>) {
    && e.Upserted? && e.contact == c && c in s.contacts
    && e.version == s.contacts[c].version && e.data == s.contacts[c].data && e.changed == changed
    && e.lists == set m | m in s.members && m.1 == c :: m.0
  }

  lemma {:induction false} RowsByAre(c: Change, fs: seq<nat>, explicit: Option<ConsentInput>)
    ensures RowsSay(ConsentRowsBy(c, fs, explicit), c.contact, c.after, fs, c.source, explicit)
  {
    if fs != [] {
      RowsByAre(c, fs[..|fs| - 1], explicit);
    }
  }

  lemma EventsAre(rows: seq<Consent>)
    ensures EventsSay(ConsentEvents(rows), rows)
  {
  }

  /**
   Main result: an accepted item adds to the history of its contact a row for each channel it changed, and to
   its events one for each row and, if it changed or created anything, a snapshot after them.
   */
  lemma ItemIsRecorded(s: Store, b: Batch, p: Pending)
    returns (rows: seq<Consent>, es: seq<Event>, snapshot: seq<Event>)
    requires Callable(s, b) && p in Accepted(s, LiveFields(s.fields), b, s.nextField)
    ensures p.index < |b.items| && Attempt(s, b).Finished?
    ensures var r, t := Results(s, LiveFields(s.fields), b, s.nextField)[p.index], Attempt(s, b).store;
      && p.id in t.contacts
      && ConsentsOf(t.consents, p.id) == ConsentsOf(s.consents, p.id) + rows
      && EventsOf(t.events, p.id) == EventsOf(s.events, p.id) + (es + snapshot)
      && RowsSay(rows, p.id, t.contacts[p.id].data, r.changed, b.source, b.explicit)
      && EventsSay(es, rows)
      && |snapshot| == (if r.created || r.changed != [] then 1 else 0)
      && (snapshot != [] ==> SnapshotSays(snapshot[0], t, p.id, r.changed))
  {
    var defs := LiveFields(s.fields);
    AttemptApplies(s, b);
    AcceptedAnswer(s, b, p);
    var t := Attempt(s, b).store;
    var effect := Effect(s, p, b.source);
    rows := RowsOf(effect, b.explicit);
    es := ConsentEvents(rows);
    snapshot := SnapshotAbout(t.contacts, t.members, effect);
    var change := ChangeOf(Prior(s.contacts, p), p.created, p, b.source);
    RowsByAre(change, change.changed, b.explicit);
    EventsAre(rows);
  }

  // ---- an explicit consent

  /** `Put` for contact `c`: an update by `id` of one field. */
  predicate IsPut(b: Batch, c: Id, input: ConsentInput, raw: Raw) {
    && b.key == IdKey && b.mode == Update && b.source == input.source && b.explicit == Some(input)
    && b.items == [[(FieldKey(Number(input.channel)), raw), (IdKey, JStr(c))]]
  }

  lemma CallIsPut(c: Id, input: ConsentInput, raw: Raw, ids: seq<Id>)
    requires |ids| == 1
    ensures IsPut(TenantServices.ConsentCall(c, input, raw, ids), c, input, raw)
  {
  }

  lemma PutFields(defs: map<nat, FieldDef>, c: Id, f: nat, raw: Raw, item: Item, v: Option<Value>)
    requires item == [(FieldKey(f), raw), (IdKey, JStr(c))] && Fields(defs, IdKey, item).Ok?
    requires f in defs && NormalizeValue(defs[f], raw) == Ok(v)
    ensures Fields(defs, IdKey, item) == Ok([(f, v)]) && KeyText(item, IdKey) == c
  {
    var one: Item := item[..1];
    assert item[..2 - 1] == one && one[..0] == [];
    FieldsAre(defs, IdKey, item);
    assert Good(defs, IdKey, item[0]);
    FieldErrorIs(defs, FieldKey(f), raw);
    var none: Item := one[..0];
    assert Fields(defs, IdKey, none) == Ok([]);
    PartialReplay.OneMoreSent(defs, one, f, raw, v);
    assert Fields(defs, IdKey, one).value == [(f, v)];
    assert item[1].0 == IdKey && Fields(defs, IdKey, item) == Fields(defs, IdKey, one);
  }

  /** The one item a recorded `Put` writes. */
  lemma PutItem(s: Store, b: Batch, c: Id, input: ConsentInput, raw: Raw, v: Option<Value>) returns (p: Pending)
    requires Callable(s, b) && IsPut(b, c, input, raw)
    requires Results(s, LiveFields(s.fields), b, s.nextField)[0].error.None?
    requires var f := Number(input.channel);
      f in LiveFields(s.fields) && NormalizeValue(LiveFields(s.fields)[f], raw) == Ok(v)
    ensures p == Pending(0, c, [(Number(input.channel), v)], c, false) && Live(s.contacts, c)
    ensures Accepted(s, LiveFields(s.fields), b, s.nextField) == [p]
  {
    p := EveryItemAnswered(s, b, 0);
    AcceptedAnswer(s, b, p);
    AnswersFollowTheMode(s, b, 0);
    PutFields(LiveFields(s.fields), c, Number(input.channel), raw, b.items[0], v);
    OneCandidate(s, b, p);
    OnlyOneAccepted(s, b, p);
  }

  lemma OnlyOneAccepted(s: Store, b: Batch, p: Pending)
    requires Candidates(s, LiveFields(s.fields), b, |b.items|) == [p]
    requires p in Accepted(s, LiveFields(s.fields), b, s.nextField)
    ensures Accepted(s, LiveFields(s.fields), b, s.nextField) == [p]
  {
    assert Standing([], []) == [];
  }

  /** What one change of an existing contact appends to history and outbox. */
  lemma OneChangeAppends(s: Store, p: Pending, source: string, explicit: Option<ConsentInput>, change: Change, t: Store)
    requires RowsFound(s.contacts, Existing([p])) && BatchChanges(s.contacts, [p], source) == [change]
    requires Commit(s, LiveFields(s.fields), [p], source, explicit) == Some(t) && change.contact in t.contacts
    ensures var rows := ConsentRowsBy(change, change.changed, explicit);
      && t.consents == s.consents + rows && t.members == s.members
      && t.events ==
        s.events + ConsentEvents(rows) + [SnapshotOf(t.contacts, s.members, change.contact, change.changed)]
  {
    assert [change][..0] == [];
    assert ConsentRows([], explicit) == [];
    assert ConsentRows([change], explicit) == ConsentRowsBy(change, change.changed, explicit);
  }

  /** The row an explicit consent leaves. */
  predicate IsConsentOf(row: Consent, c: Id, input: ConsentInput, v: Option<Value>) {
    && row.contact == c && row.channel == input.channel && row.value == v
    && row.source == input.source && row.text == input.text && row.actor == input.actor
  }

  /**
   Main result: a recorded `Put` that changes the channel's value appends exactly one row, with the new value
   and the source, text and actor of the call, and exactly two events: the row's, and the contact's snapshot.
   */
  lemma PutIsRecorded(s: Store, b: Batch, c: Id, input: ConsentInput, raw: Raw, v: Option<Value>)
    returns (row: Consent, told: Event, snapshot: Event)
    requires Callable(s, b) && IsPut(b, c, input, raw)
    requires Results(s, LiveFields(s.fields), b, s.nextField)[0].error.None?
    requires var f := Number(input.channel);
      f in LiveFields(s.fields) && NormalizeValue(LiveFields(s.fields)[f], raw) == Ok(v)
    requires c in s.contacts ==> At(s.contacts[c].data, Number(input.channel)) != StoredOption(v)
    ensures Attempt(s, b).Finished?
    ensures var t := Attempt(s, b).store;
      && t.consents == s.consents + [row] && IsConsentOf(row, c, input, StoredOption(v))
      && t.events == s.events + [told, snapshot] && EventSays(told, row)
      && SnapshotSays(snapshot, t, c, [Number(input.channel)])
      && At(t.contacts[c].data, Number(input.channel)) == StoredOption(v)
  {
    var p := PutItem(s, b, c, input, raw, v);
    var t := AcceptedCommits(s, b, p);
    row, told, snapshot := PutLeaves(s, p, input, v, t);
  }

  lemma AcceptedCommits(s: Store, b: Batch, p: Pending) returns (t: Store)
    requires Callable(s, b) && Accepted(s, LiveFields(s.fields), b, s.nextField) == [p]
    ensures Attempt(s, b).Finished? && Attempt(s, b).store == t
    ensures Commit(s, LiveFields(s.fields), [p], b.source, b.explicit) == Some(t) && Applied(s, [p], t)
  {
    AttemptApplies(s, b);
    t := Attempt(s, b).store;
  }

  lemma PutLeaves(s: Store, p: Pending, input: ConsentInput, v: Option<Value>, t: Store)
    returns (row: Consent, told: Event, snapshot: Event)
    requires Live(s.contacts, p.id) && p == Pending(0, p.id, [(Number(input.channel), v)], p.id, false)
    requires At(s.contacts[p.id].data, Number(input.channel)) != StoredOption(v) && Applied(s, [p], t)
    requires Commit(s, LiveFields(s.fields), [p], input.source, Some(input)) == Some(t)
    ensures t.consents == s.consents + [row] && IsConsentOf(row, p.id, input, StoredOption(v))
    ensures t.events == s.events + [told, snapshot] && EventSays(told, row)
    ensures SnapshotSays(snapshot, t, p.id, [Number(input.channel)])
    ensures At(t.contacts[p.id].data, Number(input.channel)) == StoredOption(v)
  {
    var f, c := Number(input.channel), p.id;
    var change := ChangeOf(s.contacts[c].data, false, p, input.source);
    PutChange(s.contacts[c].data, p, f, v, input.source);
    StableKeys.OneChange(s, p, input.source);
    assert p in [p];
    OneChangeAppends(s, p, input.source, Some(input), change, t);
    row, told := OneRow(change, input);
    snapshot := SnapshotOf(t.contacts, s.members, c, [f]);
    assert s.events + [told] + [snapshot] == s.events + [told, snapshot];
  }

  lemma OneRow(change: Change, input: ConsentInput) returns (row: Consent, told: Event)
    requires change.changed == [Number(input.channel)]
    ensures ConsentRowsBy(change, change.changed, Some(input)) == [row] && ConsentEvents([row]) == [told]
    ensures IsConsentOf(row, change.contact, input, At(change.after, Number(input.channel))) && EventSays(told, row)
  {
    var rows := ConsentRowsBy(change, change.changed, Some(input));
    RowsByAre(change, change.changed, Some(input));
    OneChannel(input.channel);
    row := OnlyRow(rows, change, input);
    EventsAre([row]);
    told := ConsentEvents([row])[0];
    assert EventSays(told, [row][0]);
  }

  lemma OnlyRow(rows: seq<Consent>, change: Change, input: ConsentInput) returns (row: Consent)
    requires ChannelsIn(change.changed) == [input.channel]
    requires RowsSay(rows, change.contact, change.after, change.changed, change.source, Some(input))
    ensures rows == [row] && IsConsentOf(row, change.contact, input, At(change.after, Number(input.channel)))
  {
    row := rows[0];
    assert rows[0].channel == ChannelsIn(change.changed)[0];
    assert RowSays(rows[0], change.contact, change.after, change.source, Some(input));
  }

  lemma OneChannel(ch: Channel)
    ensures ChannelsIn([Number(ch)]) == [ch]
  {
    assert [Number(ch)][..0] == [] && ChannelsIn([]) == [];
  }

  lemma PutChange(d: Data, p: Pending, f: nat, v: Option<Value>, source: string)
    requires p.fields == [(f, v)] && At(d, f) != StoredOption(v)
    ensures ChangeOf(d, p.created, p, source).changed == [f] && At(ChangeOf(d, p.created, p, source).after, f) ==
      StoredOption(v)
  {
    var next := Merge(d, p.fields);
    assert p.fields[..0] == [] && Merge(d, []) == d;
    assert next == if v.Some? then d[f := Stored(v.value)] else d - {f};
    assert ChangedOf(d, next, p.fields) == [] + [f];
  }

  /** What `Put` reports: recorded without an error, no contact for 2008, and else the error. */
  lemma PutReports(r: ItemResult)
    ensures TenantServices.Told(r) == TenantServices.Recorded <==> r.error.None?
    ensures TenantServices.Told(r) == TenantServices.NoContact <==> r.error.Some? && r.error.value.code == 2008
    ensures r.error.Some? && r.error.value.code != 2008 ==>
      TenantServices.Told(r) == TenantServices.Refused(r.error.value)
  {
  }

  /** A `Put` for a contact that is not live, with a value the field takes, reports that there is none. */
  lemma PutForNobody(s: Store, b: Batch, c: Id, input: ConsentInput, raw: Raw)
    requires IsPut(b, c, input, raw) && !Blank(c) && !Live(s.contacts, c)
    requires PropertyCode(LiveFields(s.fields), FieldKey(Number(input.channel)), raw).None?
    ensures TenantServices.Told(Results(s, LiveFields(s.fields), b, s.nextField)[0]) == TenantServices.NoContact
  {
    var item := b.items[0];
    assert item[..1][..0] == [];
    assert KeyText(item, IdKey) == c;
    ModeDecides(s, b, 0);
  }
}
