/** How a consumer resolves the deliveries of a message, and how long it has a failed one wait. */
module Redelivery {
  import opened Wrappers

  newtype int64 = x: int | -0x8000_0000_0000_0000 <= x < 0x8000_0000_0000_0000

  // ---- waiting

  function Pow2(n: nat): nat {
    if n == 0 then 1 else 2 * Pow2(n - 1)
  }

  function Min(a: int, b: int): int {
    if a < b then a else b
  }

  /** The wait after a delivery, counted from 1. */
  function Delay(base: nat, max: nat, attempt: nat): nat {
    Min(base * Pow2(if attempt == 0 then 0 else attempt - 1), max)
  }

  lemma {:induction false} PowGrows(base: nat, a: nat, b: nat)
    requires a <= b
    ensures base * Pow2(a) <= base * Pow2(b)
  {
    if a < b {
      PowGrows(base, a, b - 1);
      assert base * Pow2(b) == 2 * (base * Pow2(b - 1));
    }
  }

  lemma DelayIsMonotone(base: nat, max: nat, a: nat, b: nat)
    requires a <= b
    ensures Delay(base, max, a) <= Delay(base, max, b) <= max
  {
    PowGrows(base, if a == 0 then 0 else a - 1, if b == 0 then 0 else b - 1);
  }

  /** In 64 bits, by doubling: no step overflows as long as the cap is at most half the range. */
  method BackoffDelay(base: int64, max: int64, attempt: nat) returns (delay: int64)
    requires base > 0 && 0 < max <= 0x4000_0000_0000_0000
    ensures delay as int == Delay(base as int, max as int, attempt)
  {
    delay := base;
    var i := 1;
    while i < attempt && delay < max
      invariant 1 <= i && (i <= attempt || i == 1)
      invariant delay > 0 && delay as int == base as int * Pow2(i - 1)
      decreases attempt - i
    {
      assert base as int * Pow2(i) == 2 * (base as int * Pow2(i - 1));
      delay := delay * 2;
      i := i + 1;
    }
    PowGrows(base as int, i - 1, if attempt <= 1 then i - 1 else attempt - 1);
    if delay > max {
      delay := max;
    }
  }

  // ---- resolving

  datatype Options = Options(maxDeliver: nat, base: int64, max: int64)

  ghost predicate Valid(o: Options) {
    o.maxDeliver >= 1 && o.base > 0 && 0 < o.max <= 0x4000_0000_0000_0000
  }

  datatype Resolution = Ack | Nak | NakAfter(delay: nat) | Term

  /** A delivery: its number if the metadata can be read, and whether it decodes. */
  datatype Message = Message(id: nat, delivered: Option<nat>, decodes: bool)

  function Resolved(m: Message, handled: bool, o: Options): Resolution
    requires Valid(o)
  {
    if handled then Ack
    else if m.delivered.None? then Nak
    else if m.delivered.value >= o.maxDeliver then Term
    else NakAfter(Delay(o.base as int, o.max as int, m.delivered.value))
  }

  predicate DeadLettered(m: Message, handled: bool, o: Options) {
    !handled && m.delivered.Some? && m.delivered.value >= o.maxDeliver
  }

  /** What a batch does to its messages, in the order they are resolved. */
  function Malformed(batch: seq<Message>): seq<(nat, Resolution)> {
    if batch == [] then []
    else Malformed(batch[..|batch| - 1]) + (if batch[|batch| - 1].decodes then [] else [(batch[|batch| - 1].id, Term)])
  }

  function Decoded(batch: seq<Message>): seq<Message> {
    if batch == [] then []
    else Decoded(batch[..|batch| - 1]) + (if batch[|batch| - 1].decodes then [batch[|batch| - 1]] else [])
  }

  /**
   What the server hears of a decoded message: nothing if it is the last failed delivery and its dead letter is not
   taken.
   */
  function Told(m: Message, handled: bool, lettered: bool, o: Options): seq<(nat, Resolution)>
    requires Valid(o)
  {
    if DeadLettered(m, handled, o) && !lettered then [] else [(m.id, Resolved(m, handled, o))]
  }

  /** `lettered(i)`: the dead letter of the `i`-th message is taken, should it come to that. */
  function Outcomes(msgs: seq<Message>, handled: bool, lettered: nat -> bool, o: Options): seq<(nat, Resolution)>
    requires Valid(o)
  {
    if msgs == [] then []
    else
      var n := |msgs| - 1;
      Outcomes(msgs[..n], handled, lettered, o) + Told(msgs[n], handled, lettered(n), o)
  }

  function Letters(msgs: seq<Message>, handled: bool, lettered: nat -> bool, o: Options): seq<nat> {
    if msgs == [] then []
    else
      var n := |msgs| - 1;
      Letters(msgs[..n], handled, lettered, o) +
        (if DeadLettered(msgs[n], handled, o) && lettered(n) then [msgs[n].id] else [])
  }

  /** What the server hears of a batch; of one whose fetch failed, only about the malformed messages. */
  function Answers(
      batch: seq<Message>, fetched: bool, handled: bool, lettered: nat -> bool, o: Options): seq<(nat, Resolution)>
    requires Valid(o)
  {
    Malformed(batch) + if fetched then Outcomes(Decoded(batch), handled, lettered, o) else []
  }

  class Consumer {
    const o: Options
    /** Resolutions told to the server and messages put on the dead-letter subject. */
    var log: seq<(nat, Resolution)>
    var letters: seq<nat>

    constructor (o: Options)
      ensures this.o == o && log == [] && letters == []
    {
      this.o, log, letters := o, [], [];
    }

    /** `lettered`: the dead-letter publish succeeds. */
    method Finish(m: Message, handled: bool, lettered: bool)
      requires Valid(o)
      modifies `log, `letters
      ensures log == old(log) + Told(m, handled, lettered, o)
      ensures letters == old(letters) + (if DeadLettered(m, handled, o) && lettered then [m.id] else [])
    {
      if handled {
        log := log + [(m.id, Ack)];
        return;
      }
      match m.delivered
      case None =>
        log := log + [(m.id, Nak)];
      case Some(n) =>
        if n >= o.maxDeliver {
          if lettered {
            letters := letters + [m.id];
            log := log + [(m.id, Term)];
          }
          return;
        }
        var delay := BackoffDelay(o.base, o.max, n);
        log := log + [(m.id, NakAfter(delay as int))];
    }

    /**
     One batch: `fetched` tells whether the fetch that delivered it ended well, `handle` whether the sink
     took the decoded messages. A failed fetch ends the consumer's loop, with what it delivered unresolved.
     */
    method ConsumeOne(batch: seq<Message>, fetched: bool, handle: seq<Message> -> bool, lettered: nat -> bool)
      returns (on: bool)
      requires Valid(o)
      modifies `log, `letters
      ensures on == fetched
      ensures log == old(log) + Answers(batch, fetched, handle(Decoded(batch)), lettered, o)
      ensures letters ==
        old(letters) + if fetched then Letters(Decoded(batch), handle(Decoded(batch)), lettered, o) else []
    {
      var msgs := Decode(batch);
      ghost var before := old(log);
      assert before + (Malformed(batch) + []) == before + Malformed(batch) && letters + [] == letters;
      if !fetched {
        return false;
      }
      if |msgs| == 0 {
        return true;
      }
      FinishAll(msgs, handle(msgs), lettered);
      OneLog(before, Malformed(batch), Outcomes(msgs, handle(msgs), lettered, o));
      on := true;
    }

    /** The messages that decode; the others are terminated. */
    method Decode(batch: seq<Message>) returns (msgs: seq<Message>)
      modifies `log
      ensures msgs == Decoded(batch) && log == old(log) + Malformed(batch)
    {
      msgs := [];
      for i := 0 to |batch|
        invariant msgs == Decoded(batch[..i]) && log == old(log) + Malformed(batch[..i])
      {
        assert batch[..i + 1][..i] == batch[..i];
        if batch[i].decodes {
          msgs := msgs + [batch[i]];
        } else {
          log := log + [(batch[i].id, Term)];
        }
      }
      assert batch[..|batch|] == batch;
    }

    method FinishAll(msgs: seq<Message>, handled: bool, lettered: nat -> bool)
      requires Valid(o)
      modifies `log, `letters
      ensures log == old(log) + Outcomes(msgs, handled, lettered, o)
      ensures letters == old(letters) + Letters(msgs, handled, lettered, o)
    {
      for i := 0 to |msgs|
        invariant log == old(log) + Outcomes(msgs[..i], handled, lettered, o)
        invariant letters == old(letters) + Letters(msgs[..i], handled, lettered, o)
      {
        assert msgs[..i + 1][..i] == msgs[..i];
        Finish(msgs[i], handled, lettered(i));
      }
      assert msgs[..|msgs|] == msgs;
    }
  }

  lemma OneLog(a: seq<(nat, Resolution)>, b: seq<(nat, Resolution)>, c: seq<(nat, Resolution)>)
    ensures (a + b) + c == a + (b + c)
  {
  }

  /** Times a message is resolved by a log. */
  function Times(log: seq<(nat, Resolution)>, id: nat): nat {
    if log == [] then 0 else Times(log[..|log| - 1], id) + (if log[|log| - 1].0 == id then 1 else 0)
  }

  lemma {:induction false} TimesConcat(a: seq<(nat, Resolution)>, b: seq<(nat, Resolution)>, id: nat)
    ensures Times(a + b, id) == Times(a, id) + Times(b, id)
  {
    if b == [] {
      assert a + b == a;
    } else {
      TimesConcat(a, b[..|b| - 1], id);
      assert (a + b)[..|a + b| - 1] == a + b[..|b| - 1];
    }
  }

  /** Times a batch delivers a message. */
  function Deliveries(batch: seq<Message>, id: nat): nat {
    if batch == [] then 0 else Deliveries(batch[..|batch| - 1], id) + (if batch[|batch| - 1].id == id then 1 else 0)
  }

  lemma TimesOneMore(a: seq<(nat, Resolution)>, x: (nat, Resolution), id: nat)
    ensures Times(a + [x], id) == Times(a, id) + (if x.0 == id then 1 else 0)
  {
    assert (a + [x])[..|a|] == a;
  }

  lemma DeliveriesOneMore(msgs: seq<Message>, m: Message, id: nat)
    ensures Deliveries(msgs + [m], id) == Deliveries(msgs, id) + (if m.id == id then 1 else 0)
  {
    assert (msgs + [m])[..|msgs|] == msgs;
  }

  lemma {:induction false} DecodedOrMalformed(batch: seq<Message>, id: nat)
    ensures Times(Malformed(batch), id) + Deliveries(Decoded(batch), id) == Deliveries(batch, id)
  {
    if batch != [] {
      var front, m := batch[..|batch| - 1], batch[|batch| - 1];
      DecodedOrMalformed(front, id);
      if m.decodes {
        assert Malformed(batch) == Malformed(front);
        DeliveriesOneMore(Decoded(front), m, id);
      } else {
        assert Decoded(batch) == Decoded(front);
        TimesOneMore(Malformed(front), (m.id, Term), id);
      }
    }
  }

  /** Message `j` is at its last delivery, has failed, and its dead letter is not taken. */
  predicate Unlettered(msgs: seq<Message>, handled: bool, lettered: nat -> bool, o: Options, j: nat) {
    j < |msgs| && DeadLettered(msgs[j], handled, o) && !lettered(j)
  }

  /** Some copy of message `id` is one of those. */
  ghost predicate SomeUnlettered(msgs: seq<Message>, handled: bool, lettered: nat -> bool, o: Options, id: nat) {
    exists j :: 0 <= j < |msgs| && msgs[j].id == id && Unlettered(msgs, handled, lettered, o, j)
  }

  lemma OneMoreUnlettered(msgs: seq<Message>, handled: bool, lettered: nat -> bool, o: Options, id: nat, n: nat)
    requires n + 1 == |msgs|
    ensures SomeUnlettered(msgs, handled, lettered, o, id) <==>
      SomeUnlettered(msgs[..n], handled, lettered, o, id)
        || (msgs[n].id == id && Unlettered(msgs, handled, lettered, o, n))
  {
    forall j | 0 <= j < n
      ensures Unlettered(msgs, handled, lettered, o, j) <==> Unlettered(msgs[..n], handled, lettered, o, j)
    {
    }
    if j :| 0 <= j < n && msgs[..n][j].id == id && Unlettered(msgs[..n], handled, lettered, o, j) {
      assert msgs[j].id == id;
    }
  }

  lemma {:induction false} OutcomesTimes(msgs: seq<Message>, handled: bool, lettered: nat -> bool, o: Options, id: nat)
    requires Valid(o)
    ensures Times(Outcomes(msgs, handled, lettered, o), id) <= Deliveries(msgs, id)
    ensures Times(Outcomes(msgs, handled, lettered, o), id) == Deliveries(msgs, id) <==>
      !SomeUnlettered(msgs, handled, lettered, o, id)
  {
    if msgs != [] {
      var n := |msgs| - 1;
      var front, m := Outcomes(msgs[..n], handled, lettered, o), msgs[n];
      OutcomesTimes(msgs[..n], handled, lettered, o, id);
      OneMoreUnlettered(msgs, handled, lettered, o, id, n);
      if Unlettered(msgs, handled, lettered, o, n) {
        assert front + [] == front;
      } else {
        TimesOneMore(front, (m.id, Resolved(m, handled, o)), id);
      }
    }
  }

  lemma {:induction false} NotDelivered(msgs: seq<Message>, id: nat)
    ensures Deliveries(msgs, id) == 0 <==> forall j :: 0 <= j < |msgs| ==> msgs[j].id != id
  {
    if msgs != [] {
      NotDelivered(msgs[..|msgs| - 1], id);
    }
  }

  /** A decoded copy of message `id` stays unresolved: the fetch failed, or its dead letter was not taken. */
  ghost predicate StaysOpen(
      batch: seq<Message>, fetched: bool, handled: bool, lettered: nat -> bool, o: Options, id: nat)
  {
    if fetched then SomeUnlettered(Decoded(batch), handled, lettered, o, id)
    else exists j :: 0 <= j < |Decoded(batch)| && Decoded(batch)[j].id == id
  }

  /**
   Main result, exact: a batch resolves a message at most as often as it was delivered, and exactly that
   often if and only if none of its decoded copies stays unresolved; after a failed fetch, if there is none.
   */
  lemma ResolvedExactly(batch: seq<Message>, fetched: bool, handled: bool, lettered: nat -> bool, o: Options, id: nat)
    requires Valid(o)
    ensures Times(Answers(batch, fetched, handled, lettered, o), id) <= Deliveries(batch, id)
    ensures Times(Answers(batch, fetched, handled, lettered, o), id) == Deliveries(batch, id) <==>
      !StaysOpen(batch, fetched, handled, lettered, o, id)
  {
    DecodedOrMalformed(batch, id);
    if fetched {
      TimesConcat(Malformed(batch), Outcomes(Decoded(batch), handled, lettered, o), id);
      OutcomesTimes(Decoded(batch), handled, lettered, o, id);
    } else {
      assert Answers(batch, fetched, handled, lettered, o) == Malformed(batch);
      NotDelivered(Decoded(batch), id);
    }
  }

  // ---- a message's life

  /** How a delivery of a decoded message ends: taken, failed, or left alone by a failed fetch or a crash. */
  datatype Ending = Taken | Failed(lettered: bool) | LeftAlone

  datatype Fate = Acked(deliveries: nat) | Dead(deliveries: nat) | Lost(deliveries: nat)

  /** What the server hears of the `n`-th delivery. */
  function Heard(id: nat, n: nat, end: Ending, o: Options): seq<(nat, Resolution)>
    requires Valid(o)
  {
    if end.LeftAlone? then [] else Told(Message(id, Some(n), true), end.Taken?, end.Failed? && end.lettered, o)
  }

  /**
   Deliveries of a message from the `n`-th on, until one is final or was the last one the server makes.
   A delivery the server hears nothing of is repeated like one it is told to repeat.
   */
  function Life(id: nat, end: nat -> Ending, o: Options, n: nat): Fate
    requires Valid(o)
    decreases if n < o.maxDeliver then o.maxDeliver - n else 0
  {
    var heard := Heard(id, n, end(n), o);
    if heard != [] && heard[0].1.Ack? then Acked(n)
    else if heard != [] && heard[0].1.Term? then Dead(n)
    else if n >= o.maxDeliver then Lost(n)
    else Life(id, end, o, n + 1)
  }

  /**
   Main result, exact: a message none of whose deliveries is taken ends after the last one; dead-lettered
   exactly if that one failed and its dead letter was taken, and else lost.
   */
  lemma {:induction false} DeadExactly(id: nat, end: nat -> Ending, o: Options, n: nat)
    requires Valid(o) && 1 <= n <= o.maxDeliver
    ensures var fate := Life(id, end, o, n);
      && (fate.Acked? <==> exists k :: n <= k <= o.maxDeliver && end(k).Taken?)
      && (fate.Dead? <==> (forall k :: n <= k <= o.maxDeliver ==> !end(k).Taken?) && end(o.maxDeliver) == Failed(true))
      && (!fate.Acked? ==> fate.deliveries == o.maxDeliver)
    decreases o.maxDeliver - n
  {
    if !end(n).Taken? && n < o.maxDeliver {
      DeadExactly(id, end, o, n + 1);
    }
  }

  /**
   A fetch that fails after the last delivery of a message: nothing is heard of it, and it is lost without a letter.
   */
  lemma FailedFetchLoses(id: nat, end: nat -> Ending, o: Options, handled: bool, lettered: nat -> bool)
    requires Valid(o) && forall k :: 1 <= k < o.maxDeliver ==> !end(k).Taken?
    requires end(o.maxDeliver).LeftAlone?
    ensures Answers([Message(id, Some(o.maxDeliver), true)], false, handled, lettered, o) == []
    ensures Life(id, end, o, 1) == Lost(o.maxDeliver)
  {
    var batch := [Message(id, Some(o.maxDeliver), true)];
    assert batch[..0] == [] && Malformed(batch) == Malformed([]) + [];
    DeadExactly(id, end, o, 1);
  }

  // ---- waits and resolutions, spelled out

  /** The first failed delivery waits for the base, each later one twice as long as the one before, up to the cap. */
  lemma DelayDoubles(base: nat, max: nat, attempt: nat)
    requires attempt >= 1
    ensures Delay(base, max, 1) == if base < max then base else max
    ensures Delay(base, max, attempt + 1) == var twice :=
      2 * Delay(base, max, attempt); if twice < max then twice else max
  {
    assert base * Pow2(attempt) == 2 * (base * Pow2(attempt - 1));
  }

  /**
   What the server hears of a decoded message: taken, it is acknowledged; failed, it is sent back at once if its
   delivery count is unknown, and after the wait if more deliveries are to come; after the last one it is
   terminated once its dead letter is taken, and left alone if it is not.
   */
  lemma ToldIs(m: Message, handled: bool, lettered: bool, o: Options)
    requires Valid(o)
    ensures handled ==> Told(m, handled, lettered, o) == [(m.id, Ack)]
    ensures !handled && m.delivered.None? ==> Told(m, handled, lettered, o) == [(m.id, Nak)]
    ensures forall n: nat :: !handled && m.delivered == Some(n) && n < o.maxDeliver ==>
      Told(m, handled, lettered, o) == [(m.id, NakAfter(Delay(o.base as int, o.max as int, n)))]
    ensures forall n: nat :: !handled && m.delivered == Some(n) && o.maxDeliver <= n ==>
      Told(m, handled, lettered, o) == if lettered then [(m.id, Term)] else []
  {
  }

  /** A batch dead-letters a message exactly if a copy failed its last delivery there and the letter was taken. */
  lemma {:induction false} LettersHave(msgs: seq<Message>, handled: bool, lettered: nat -> bool, o: Options, id: nat)
    ensures id in Letters(msgs, handled, lettered, o) <==>
      exists j :: 0 <= j < |msgs| && msgs[j].id == id && lettered(j) && LastFailed(msgs[j], handled, o)
  {
    if msgs != [] {
      LettersHave(msgs[..|msgs| - 1], handled, lettered, o, id);
    }
  }

  predicate LastFailed(m: Message, handled: bool, o: Options) {
    !handled && m.delivered.Some? && o.maxDeliver <= m.delivered.value
  }

  /** Messages that decode are handed on; the others are terminated, as often as they were delivered. */
  lemma MalformedAre(batch: seq<Message>, id: nat)
    ensures Times(Malformed(batch), id) == Deliveries(batch, id) - Deliveries(Decoded(batch), id)
    ensures forall k :: 0 <= k < |Malformed(batch)| ==> Malformed(batch)[k].1 == Term
    ensures forall m :: m in Decoded(batch) <==> m in batch && m.decodes
  {
    DecodedOrMalformed(batch, id);
    TermsOnly(batch);
    forall m ensures m in Decoded(batch) <==> m in batch && m.decodes {
      DecodedHas(batch, m);
    }
  }

  lemma {:induction false} TermsOnly(batch: seq<Message>)
    ensures forall k :: 0 <= k < |Malformed(batch)| ==> Malformed(batch)[k].1 == Term
  {
    if batch != [] {
      TermsOnly(batch[..|batch| - 1]);
    }
  }

  lemma {:induction false} DecodedHas(batch: seq<Message>, m: Message)
    ensures m in Decoded(batch) <==> m in batch && m.decodes
  {
    if batch != [] {
      var n := |batch| - 1;
      DecodedHas(batch[..n], m);
      assert batch == batch[..n] + [batch[n]];
    }
  }
}
