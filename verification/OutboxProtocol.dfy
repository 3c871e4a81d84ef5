/** The transactional outbox as a protocol: commits, several relays, crashes and a stream that drops duplicates. */
module OutboxProtocol {
  type Id = nat
  type RelayId = nat
  type Time = nat

  /** Seconds for which the stream remembers a message ID. */
  const WINDOW: nat := 120

  /** Rows one drain takes at most. */
  const BATCH: nat := 500

  datatype Stored = Stored(id: Id, at: Time)

  /** A drain under way: the rows it read, how many are acknowledged, and whether its transaction is still open. */
  datatype Drain = Drain(rows: seq<Id>, sent: nat, live: bool)

  datatype System = System(
    committed: set<Id>,
    outbox: set<Id>,
    drains: map<RelayId, Drain>,
    stream: seq<Stored>,
    now: Time)

  datatype Event =
    | Commit(ids: set<Id>)
    | Lock(relay: RelayId, rows: seq<Id>)
    | Send(relay: RelayId, stored: bool, acked: bool)
    | Expire(relay: RelayId)
    | Crash(relay: RelayId)
    | Delete(relay: RelayId)
    | Tick(now: Time)

  // ---- the stream

  predicate Duplicate(stream: seq<Stored>, id: Id, now: Time) {
    exists i :: 0 <= i < |stream| && stream[i].id == id && now < stream[i].at + WINDOW
  }

  function Publish(stream: seq<Stored>, id: Id, now: Time): seq<Stored> {
    if Duplicate(stream, id, now) then stream else stream + [Stored(id, now)]
  }

  predicate Published(stream: seq<Stored>, id: Id) {
    exists i :: 0 <= i < |stream| && stream[i].id == id
  }

  function Copies(stream: seq<Stored>, id: Id): nat {
    if stream == [] then 0
    else Copies(stream[..|stream| - 1], id) + (if stream[|stream| - 1].id == id then 1 else 0)
  }

  // ---- steps

  ghost predicate Locked(s: System, id: Id) {
    exists r :: r in s.drains && s.drains[r].live && id in s.drains[r].rows
  }

  /** The lowest rows nobody has locked, in order, up to a batch. */
  ghost predicate Picked(s: System, rows: seq<Id>) {
    && |rows| <= BATCH
    && (forall i, j :: 0 <= i < j < |rows| ==> rows[i] < rows[j])
    && (forall id :: id in rows ==> id in s.outbox && !Locked(s, id))
    && (forall id :: id in s.outbox && !Locked(s, id) && id !in rows ==> |rows| == BATCH && rows[BATCH - 1] < id)
  }

  ghost predicate Enabled(s: System, e: Event) {
    match e
    case Commit(ids) => ids !! s.committed
    case Lock(r, rows) => r !in s.drains && Picked(s, rows)
    case Send(r, stored, acked) => r in s.drains && s.drains[r].sent < |s.drains[r].rows| && (acked ==> stored)
    case Expire(r) => r in s.drains
    case Crash(r) => r in s.drains
    case Delete(r) => r in s.drains && s.drains[r].live && s.drains[r].sent == |s.drains[r].rows|
    case Tick(t) => s.now <= t
  }

  ghost function Next(s: System, e: Event): System
    requires Enabled(s, e)
  {
    match e
    case Commit(ids) => s.(committed := s.committed + ids, outbox := s.outbox + ids)
    case Lock(r, rows) => s.(drains := s.drains[r := Drain(rows, 0, true)])
    case Send(r, stored, acked) =>
      var d := s.drains[r];
      var stream := if stored then Publish(s.stream, d.rows[d.sent], s.now) else s.stream;
      s.(stream := stream, drains := if acked then s.drains[r := d.(sent := d.sent + 1)] else s.drains - {r})
    case Expire(r) => s.(drains := s.drains[r := s.drains[r].(live := false)])
    case Crash(r) => s.(drains := s.drains - {r})
    case Delete(r) => s.(outbox := s.outbox - (set id | id in s.drains[r].rows), drains := s.drains - {r})
    case Tick(t) => s.(now := t)
  }

  ghost predicate Legal(s: System, events: seq<Event>)
    decreases |events|
  {
    events == [] || (Enabled(s, events[0]) && Legal(Next(s, events[0]), events[1..]))
  }

  ghost function After(s: System, events: seq<Event>): System
    requires Legal(s, events)
    decreases |events|
  {
    if events == [] then s else After(Next(s, events[0]), events[1..])
  }

  // ---- invariant

  /** Copies of one message are at least a window apart. */
  ghost predicate Spaced(stream: seq<Stored>) {
    forall i, j :: 0 <= i < j < |stream| && stream[i].id == stream[j].id ==> stream[i].at + WINDOW <= stream[j].at
  }

  /** Only committed events are published, and none is lost: each is still in the outbox or published. */
  ghost predicate Accounted(s: System) {
    && s.outbox <= s.committed
    && (forall i :: 0 <= i < |s.stream| ==> s.stream[i].id in s.committed)
    && (forall id :: id in s.committed ==> id in s.outbox || Published(s.stream, id))
  }

  ghost predicate Sound(s: System, d: Drain) {
    && d.sent <= |d.rows|
    && (forall id :: id in d.rows ==> id in s.committed && (d.live ==> id in s.outbox))
    && (forall i :: 0 <= i < d.sent ==> Published(s.stream, d.rows[i]))
  }

  ghost predicate Apart(s: System) {
    forall q, r, id | q in s.drains && r in s.drains && q != r && s.drains[q].live && s.drains[r].live ::
      id in s.drains[q].rows ==> id !in s.drains[r].rows
  }

  ghost predicate Invariant(s: System) {
    && Accounted(s) && Spaced(s.stream) && Apart(s)
    && forall r :: r in s.drains ==> Sound(s, s.drains[r])
  }

  // ---- steps keep it

  lemma PublishKeeps(stream: seq<Stored>, id: Id, now: Time)
    requires Spaced(stream)
    ensures Spaced(Publish(stream, id, now)) && Published(Publish(stream, id, now), id)
    ensures forall k :: Published(stream, k) ==> Published(Publish(stream, id, now), k)
    ensures forall k :: Published(Publish(stream, id, now), k) ==> k == id || Published(stream, k)
  {
    var p := Publish(stream, id, now);
    if !Duplicate(stream, id, now) {
      assert p[|stream|].id == id;
      forall k | Published(stream, k) ensures Published(p, k) {
        var i :| 0 <= i < |stream| && stream[i].id == k;
        assert p[i].id == k;
      }
    }
  }

  lemma StepKeepsAccounted(s: System, e: Event)
    requires Invariant(s) && Enabled(s, e)
    ensures Accounted(Next(s, e)) && Spaced(Next(s, e).stream)
  {
    match e
    case Send(r, stored, _) =>
      assert Sound(s, s.drains[r]);
      PublishKeeps(s.stream, s.drains[r].rows[s.drains[r].sent], s.now);
    case Delete(r) =>
      assert Sound(s, s.drains[r]);
    case _ =>
  }

  lemma StepKeepsSound(s: System, e: Event, r: RelayId)
    requires Invariant(s) && Enabled(s, e) && r in Next(s, e).drains
    ensures Sound(Next(s, e), Next(s, e).drains[r])
  {
    if r in s.drains {
      assert Sound(s, s.drains[r]);
    }
    match e
    case Send(q, stored, _) =>
      PublishKeeps(s.stream, s.drains[q].rows[s.drains[q].sent], s.now);
    case _ =>
  }

  lemma StepKeepsApart(s: System, e: Event)
    requires Invariant(s) && Enabled(s, e)
    ensures Apart(Next(s, e))
  {
    match e
    case Lock(r, rows) =>
      forall q, id | q in s.drains && s.drains[q].live && id in s.drains[q].rows ensures id !in rows {
        assert Locked(s, id);
      }
    case _ =>
  }

  /** Main result: in every run with any number of relays and failures, no event is lost and none is made up. */
  lemma {:induction false} RunsKeepInvariant(s: System, events: seq<Event>)
    requires Invariant(s) && Legal(s, events)
    ensures Invariant(After(s, events))
    decreases |events|
  {
    if events != [] {
      StepKeepsAccounted(s, events[0]);
      StepKeepsApart(s, events[0]);
      forall r | r in Next(s, events[0]).drains ensures Sound(Next(s, events[0]), Next(s, events[0]).drains[r]) {
        StepKeepsSound(s, events[0], r);
      }
      RunsKeepInvariant(Next(s, events[0]), events[1..]);
    }
  }

  // ---- what a subscriber sees

  /** A row leaves the outbox only once its event is in the stream. */
  lemma DeletedIsPublished(s: System, e: Event, id: Id)
    requires Invariant(s) && Enabled(s, e) && id in s.outbox && id !in Next(s, e).outbox
    ensures Published(s.stream, id)
  {
    assert e.Delete? && id in s.drains[e.relay].rows;
    var i :| 0 <= i < |s.drains[e.relay].rows| && s.drains[e.relay].rows[i] == id;
    assert Sound(s, s.drains[e.relay]);
  }

  /** In no stretch shorter than the window does the stream hold an event twice. */
  lemma {:induction false} OncePerWindow(stream: seq<Stored>, id: Id, start: Time)
    requires Spaced(stream)
    requires forall i :: 0 <= i < |stream| && stream[i].id == id ==> start <= stream[i].at < start + WINDOW
    ensures Copies(stream, id) <= 1
  {
    if stream != [] {
      var n := |stream| - 1;
      OncePerWindow(stream[..n], id, start);
      if stream[n].id == id {
        NoCopies(stream[..n], id);
      }
    }
  }

  lemma {:induction false} NoCopies(stream: seq<Stored>, id: Id)
    requires forall i :: 0 <= i < |stream| ==> stream[i].id != id
    ensures Copies(stream, id) == 0
  {
    if stream != [] {
      NoCopies(stream[..|stream| - 1], id);
    }
  }

  /** The row is gone and no relay, not even one that lost its transaction, still has it to send. */
  ghost predicate Settled(s: System, id: Id) {
    && id in s.committed && id !in s.outbox
    && forall r, i :: r in s.drains && s.drains[r].sent <= i < |s.drains[r].rows| ==> s.drains[r].rows[i] != id
  }

  lemma SettledStays(s: System, e: Event, id: Id)
    requires Invariant(s) && Enabled(s, e) && Settled(s, id)
    ensures Settled(Next(s, e), id) && Copies(Next(s, e).stream, id) == Copies(s.stream, id)
  {
    var t := Next(s, e);
    if t.stream != s.stream {
      assert t.stream[..|s.stream|] == s.stream;
    }
  }

  /** Main result: once settled, an event is in the stream and never published again, whatever happens later. */
  lemma {:induction false} SettledForGood(s: System, events: seq<Event>, id: Id)
    requires Invariant(s) && Legal(s, events) && Settled(s, id)
    ensures Settled(After(s, events), id)
    ensures Copies(After(s, events).stream, id) == Copies(s.stream, id) >= 1
    decreases |events|
  {
    if events == [] {
      assert Published(s.stream, id);
      if Copies(s.stream, id) == 0 {
        NotCopied(s.stream, id);
      }
    } else {
      SettledStays(s, events[0], id);
      RunsKeepInvariant(s, [events[0]]);
      assert Legal(s, [events[0]]) && After(s, [events[0]]) == Next(s, events[0]);
      SettledForGood(Next(s, events[0]), events[1..], id);
    }
  }

  lemma {:induction false} NotCopied(stream: seq<Stored>, id: Id)
    requires Copies(stream, id) == 0
    ensures !Published(stream, id)
  {
    if stream != [] {
      var n := |stream| - 1;
      NotCopied(stream[..n], id);
      forall i | 0 <= i < |stream| ensures stream[i].id != id {
        assert i < n ==> stream[..n][i].id != id;
      }
    }
  }

  // ---- the stream and the batches, in figures

  /** A publish adds one entry, unless the stream took the same message less than 120 seconds ago. */
  lemma PublishIs(stream: seq<Stored>, id: Id, now: Time)
    ensures Publish(stream, id, now) == stream + (if Recent(stream, id, now) then [] else [Stored(id, now)])
  {
  }

  predicate Recent(stream: seq<Stored>, id: Id, now: Time) {
    exists i :: 0 <= i < |stream| && stream[i].id == id && now < stream[i].at + 120
  }

  /** A drain takes the lowest unlocked rows in order: all of them, or 500 with every other one above them. */
  lemma PickedAre(s: System, rows: seq<Id>, id: Id)
    requires Picked(s, rows) && id in s.outbox && !Locked(s, id)
    ensures |rows| <= 500
    ensures id !in rows ==> |rows| == 500 && forall i :: 0 <= i < 500 ==> rows[i] < id
  {
    if id !in rows {
      forall i | 0 <= i < 500 ensures rows[i] < id {
        assert i < 499 ==> rows[i] < rows[499];
      }
    }
  }

  /** What each event does to the outbox and the stream: commits and deletions move rows, sends alone publish. */
  lemma StepsAre(s: System, e: Event, id: Id)
    requires Enabled(s, e)
    ensures id in Next(s, e).outbox <==>
      (id in s.outbox || (e.Commit? && id in e.ids)) && !(e.Delete? && id in s.drains[e.relay].rows)
    ensures !(e.Send? && e.stored) ==> Next(s, e).stream == s.stream
    ensures e.Send? && e.stored ==>
      Next(s, e).stream == Publish(s.stream, s.drains[e.relay].rows[s.drains[e.relay].sent], s.now)
    ensures e.Send? && e.acked ==>
      e.relay in Next(s, e).drains && Next(s, e).drains[e.relay].sent == s.drains[e.relay].sent + 1
    ensures (e.Send? && !e.acked) || e.Crash? || e.Delete? ==> e.relay !in Next(s, e).drains
  {
  }
}
