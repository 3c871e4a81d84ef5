/** One relay: its drains, the loop around them and the wake-ups in between. */
module OutboxRelay {
  import opened Wrappers
  import opened OutboxProtocol

  // ---- what sends do to the stream

  /** The stream after sending rows in order, row `i` at time `at[i]`. */
  function PublishAll(stream: seq<Stored>, rows: seq<Id>, at: seq<Time>): seq<Stored>
    requires |rows| <= |at|
  {
    if rows == [] then stream
    else
      var n := |rows| - 1;
      Publish(PublishAll(stream, rows[..n], at), rows[n], at[n])
  }

  function Ids(stream: seq<Stored>): (ids: seq<Id>)
    ensures |ids| == |stream|
  {
    seq(|stream|, i requires 0 <= i < |stream| => stream[i].id)
  }

  ghost predicate Distinct(rows: seq<Id>) {
    forall i, j :: 0 <= i < j < |rows| ==> rows[i] != rows[j]
  }

  ghost predicate Unseen(stream: seq<Stored>, rows: seq<Id>) {
    forall i, j :: 0 <= i < |stream| && 0 <= j < |rows| ==> stream[i].id != rows[j]
  }

  /** What a second attempt at `rows` adds after a first one that got as far as row `k`. */
  function Again(rows: seq<Id>, first: seq<Time>, second: seq<Time>, k: nat, m: nat): seq<Stored>
    requires k <= |rows| && k <= |first| && m <= |rows| <= |second|
  {
    if m == 0 then []
    else
      Again(rows, first, second, k, m - 1) +
      (if m - 1 < k && second[m - 1] < first[m - 1] + WINDOW then [] else [Stored(rows[m - 1], second[m - 1])])
  }

  /** Every row already sent is resent before the stream forgets it. */
  ghost predicate InTime(first: seq<Time>, second: seq<Time>, k: nat)
    requires k <= |first| && k <= |second|
  {
    forall i :: 0 <= i < k ==> second[i] < first[i] + WINDOW
  }

  lemma {:induction false} UnseenAppends(stream: seq<Stored>, rows: seq<Id>, at: seq<Time>)
    requires |rows| <= |at| && Distinct(rows) && Unseen(stream, rows)
    ensures PublishAll(stream, rows, at) == stream + seq(|rows|, i requires 0 <= i < |rows| => Stored(rows[i], at[i]))
  {
    if rows != [] {
      UnseenAppends(stream, rows[..|rows| - 1], at);
    }
  }

  lemma IdsConcat(a: seq<Stored>, b: seq<Stored>)
    ensures Ids(a + b) == Ids(a) + Ids(b)
  {
  }

  lemma UnseenIds(stream: seq<Stored>, rows: seq<Id>, at: seq<Time>)
    requires |rows| <= |at| && Distinct(rows) && Unseen(stream, rows)
    ensures Ids(PublishAll(stream, rows, at)) == Ids(stream) + rows
  {
    UnseenAppends(stream, rows, at);
    var more := seq(|rows|, i requires 0 <= i < |rows| => Stored(rows[i], at[i]));
    IdsConcat(stream, more);
    assert Ids(more) == rows;
  }

  lemma {:induction false} AgainAppends(
      stream: seq<Stored>, rows: seq<Id>, first: seq<Time>, second: seq<Time>, k: nat, m: nat)
    requires Distinct(rows) && Unseen(stream, rows) && k <= |rows| && k <= |first| && m <= |rows| <= |second|
    ensures PublishAll(PublishAll(stream, rows[..k], first), rows[..m], second) ==
      PublishAll(stream, rows[..k], first) + Again(rows, first, second, k, m)
  {
    var one := PublishAll(stream, rows[..k], first);
    UnseenAppends(stream, rows[..k], first);
    if m > 0 {
      var n := m - 1;
      AgainAppends(stream, rows, first, second, k, n);
      assert rows[..m][..n] == rows[..n];
      var two := one + Again(rows, first, second, k, n);
      AgainHas(rows, first, second, k, n);
      if n < k {
        assert one[|stream| + n] == Stored(rows[n], first[n]);
        assert two[|stream| + n].id == rows[n];
      }
    }
  }

  lemma {:induction false} AgainHas(rows: seq<Id>, first: seq<Time>, second: seq<Time>, k: nat, m: nat)
    requires Distinct(rows) && k <= |rows| && k <= |first| && m <= |rows| <= |second|
    ensures forall i, j :: 0 <= i < |Again(rows, first, second, k, m)| && m <= j < |rows| ==>
      Again(rows, first, second, k, m)[i].id != rows[j]
  {
    if m > 0 {
      AgainHas(rows, first, second, k, m - 1);
    }
  }

  lemma {:induction false} AgainInTime(rows: seq<Id>, first: seq<Time>, second: seq<Time>, k: nat, m: nat)
    requires k <= m <= |rows| <= |second| && k <= |first| && InTime(first, second, k)
    ensures Ids(Again(rows, first, second, k, m)) == rows[k..m]
    decreases m
  {
    if m == k {
      NoneAgain(rows, first, second, k, m);
      assert rows[k..m] == [];
    } else {
      AgainInTime(rows, first, second, k, m - 1);
      IdsConcat(Again(rows, first, second, k, m - 1), [Stored(rows[m - 1], second[m - 1])]);
      assert rows[k..m] == rows[k..m - 1] + [rows[m - 1]];
    }
  }

  lemma {:induction false} NoneAgain(rows: seq<Id>, first: seq<Time>, second: seq<Time>, k: nat, m: nat)
    requires m <= k <= |rows| <= |second| && k <= |first| && InTime(first, second, k)
    ensures Again(rows, first, second, k, m) == []
  {
    if m > 0 {
      NoneAgain(rows, first, second, k, m - 1);
    }
  }

  lemma {:induction false} AgainAtLeast(rows: seq<Id>, first: seq<Time>, second: seq<Time>, k: nat, m: nat)
    requires k <= |rows| && k <= |first| && m <= |rows| <= |second|
    ensures |Again(rows, first, second, k, m)| >= m - k
    ensures (exists i :: 0 <= i < k && i < m && first[i] + WINDOW <= second[i]) ==>
      |Again(rows, first, second, k, m)| > m - k && |Again(rows, first, second, k, m)| > 0
  {
    if m > 0 {
      AgainAtLeast(rows, first, second, k, m - 1);
    }
  }

  lemma InTimeIsInvisible(stream: seq<Id>, rows: seq<Id>, first: seq<Time>, second: seq<Time>, k: nat)
    requires k <= |rows| <= |second| && k <= |first| && InTime(first, second, k)
    ensures (stream + rows[..k]) + Ids(Again(rows, first, second, k, |rows|)) == stream + rows
  {
    AgainInTime(rows, first, second, k, |rows|);
    assert rows[..k] + rows[k..|rows|] == rows;
    assert (stream + rows[..k]) + rows[k..|rows|] == stream + (rows[..k] + rows[k..|rows|]);
  }

  lemma LateIsVisible(stream: seq<Id>, rows: seq<Id>, first: seq<Time>, second: seq<Time>, k: nat)
    requires k <= |rows| <= |second| && k <= |first| && !InTime(first, second, k)
    ensures (stream + rows[..k]) + Ids(Again(rows, first, second, k, |rows|)) != stream + rows
  {
    var i :| 0 <= i < k && second[i] >= first[i] + WINDOW;
    AgainAtLeast(rows, first, second, k, |rows|);
    assert |stream + rows| == |stream| + |rows|;
  }

  /**
   Main result: a drain that failed after `k` sends and was done over is invisible exactly when every resend came in
   time.
   */
  lemma RetryIsInvisible(stream: seq<Stored>, rows: seq<Id>, first: seq<Time>, second: seq<Time>, k: nat)
    requires Distinct(rows) && Unseen(stream, rows) && k <= |rows| && k <= |first| && |rows| <= |second|
    ensures Ids(PublishAll(PublishAll(stream, rows[..k], first), rows, second)) == Ids(stream) + rows <==>
      InTime(first, second, k)
  {
    var more := Again(rows, first, second, k, |rows|);
    assert rows[..|rows|] == rows;
    AgainAppends(stream, rows, first, second, k, |rows|);
    IdsConcat(PublishAll(stream, rows[..k], first), more);
    UnseenIds(stream, rows[..k], first);
    if InTime(first, second, k) {
      InTimeIsInvisible(Ids(stream), rows, first, second, k);
    } else {
      LateIsVisible(Ids(stream), rows, first, second, k);
    }
  }

  lemma StillUnseen(start: seq<Stored>, now: seq<Stored>, all: seq<Id>, done: nat)
    requires Distinct(all) && Unseen(start, all) && done <= |all| && Ids(now) == Ids(start) + all[..done]
    ensures Unseen(now, all[done..])
  {
    forall i, j | 0 <= i < |now| && done <= j < |all| ensures now[i].id != all[j] {
      assert now[i].id == (Ids(start) + all[..done])[i];
    }
  }

  // ---- the loop around the drains

  /** How an awaited drain ends: with a number of rows, or thrown out. */
  datatype Outcome = Rows(n: nat) | Thrown

  /** `leaving`: the loop has returned and its `finally` has not run yet. `begun` counts the drains begun. */
  datatype Loop = Loop(timer: bool, running: bool, again: bool, leaving: bool, begun: nat)

  function Kicked(l: Loop): Loop {
    if !l.timer then l
    else if l.running then l.(again := true)
    else l.(running := true, again := false, begun := l.begun + 1)
  }

  function Ended(l: Loop, o: Outcome): Loop {
    if o.Rows? && o.n == BATCH then l.(begun := l.begun + 1)
    else if o.Rows? && l.again && l.timer then l.(again := false, begun := l.begun + 1)
    else l.(leaving := true)
  }

  function Over(l: Loop): Loop {
    l.(running := false, leaving := false)
  }

  /** The loop after its drains have ended one by one, as long as it stays. */
  function Along(l: Loop, outcomes: seq<Outcome>): Loop
    decreases |outcomes|
  {
    if outcomes == [] || l.leaving then l else Along(Ended(l, outcomes[0]), outcomes[1..])
  }

  lemma {:induction false} AlongBegins(l: Loop, outcomes: seq<Outcome>)
    ensures Along(l, outcomes).begun >= l.begun
    ensures Along(l, outcomes).running == l.running && Along(l, outcomes).timer == l.timer
    decreases |outcomes|
  {
    if outcomes != [] && !l.leaving {
      AlongBegins(Ended(l, outcomes[0]), outcomes[1..]);
    }
  }

  /**
   Main result: a kick is answered by a fresh drain before the loop is over exactly when none runs, or the one running
   has not left its loop and ends well.
   */
  lemma KickIsHeard(l: Loop, outcomes: seq<Outcome>)
    requires l.timer && (l.leaving ==> l.running) && outcomes != []
    ensures Along(Kicked(l), outcomes).begun > l.begun <==> !l.running || (!l.leaving && outcomes[0].Rows?)
  {
    var k := Kicked(l);
    AlongBegins(k, outcomes);
    if l.running && !l.leaving {
      AlongBegins(Ended(k, outcomes[0]), outcomes[1..]);
    }
  }

  /**
   Where the loop goes when a drain ends: on after a full batch of 500; once more, and with the kick used up, after
   a smaller one if a kick came and the relay is not stopped; out in any other case, and always if the drain throws.
   */
  lemma LoopTurns(l: Loop, o: Outcome)
    requires !l.leaving
    ensures var t, full := Ended(l, o), o == Rows(500);
      var kicked := o.Rows? && !full && l.again && l.timer;
      && t.leaving == !(full || kicked) && t.begun == l.begun + (if full || kicked then 1 else 0)
      && t.again == (l.again && !kicked) && t.running == l.running && t.timer == l.timer
  {
  }

  /** A kick starts a drain only if none runs; while one runs, any number of kicks is remembered as one. */
  lemma KicksAreOne(l: Loop)
    ensures Kicked(l).begun == l.begun + (if l.timer && !l.running then 1 else 0)
    ensures Kicked(l).running == (l.running || l.timer) && Kicked(l).timer == l.timer && Kicked(l).leaving == l.leaving
    ensures l.timer ==> Kicked(l).again == l.running
    ensures !l.timer ==> Kicked(l) == l
    ensures l.running ==> Kicked(Kicked(l)) == Kicked(l)
  {
  }

  class Relay {
    var timer: bool
    var running: bool
    var again: bool
    var leaving: bool
    var begun: nat
    /** Pending rows in ID order. */
    var outbox: seq<Id>
    var stream: seq<Stored>

    constructor (pending: seq<Id>, seen: seq<Stored>)
      ensures !timer && !running && !again && !leaving && begun == 0 && outbox == pending && stream == seen
    {
      timer, running, again, leaving, begun, outbox, stream := false, false, false, false, 0, pending, seen;
    }

    /** Publishes up to a batch and removes it; a send that fails leaves every row where it was. */
    method Drain(at: seq<Time>, failing: Option<nat>) returns (r: Outcome)
      requires |outbox| <= |at|
      modifies `outbox, `stream
      ensures r.Rows? ==> r.n <= BATCH && r.n <= |old(outbox)| && (r.n == BATCH || r.n == |old(outbox)|)
      ensures r.Rows? ==> r.n == if |old(outbox)| > 500 then 500 else |old(outbox)|
      ensures r.Rows? ==> outbox == old(outbox)[r.n..] && stream == PublishAll(old(stream), old(outbox)[..r.n], at)
      ensures r.Thrown? ==> outbox == old(outbox) && failing.Some? && failing.value < BATCH && failing.value < |outbox|
      ensures r.Thrown? ==> stream == PublishAll(old(stream), outbox[..failing.value], at)
      ensures failing.None? ==> r.Rows?
    {
      var rows := if |outbox| > BATCH then outbox[..BATCH] else outbox;
      var i := 0;
      while i < |rows|
        invariant i <= |rows| && outbox == old(outbox) && stream == PublishAll(old(stream), rows[..i], at)
        invariant failing.Some? ==> i <= failing.value || |rows| <= failing.value
      {
        if failing == Some(i) {
          assert rows[..i] == outbox[..i];
          return Thrown;
        }
        assert rows[..i + 1][..i] == rows[..i];
        stream := Publish(stream, rows[i], at[i]);
        i := i + 1;
      }
      assert rows[..|rows|] == rows == outbox[..|rows|];
      outbox := outbox[|rows|..];
      r := Rows(|rows|);
    }

    /**
     Drains until a batch is not full: with sends that succeed, every pending event goes out, in ID order and once.
     */
    method DrainAll(at: seq<Time>)
      requires |outbox| <= |at| && Distinct(outbox) && Unseen(stream, outbox)
      modifies `outbox, `stream
      ensures outbox == []
      ensures Ids(stream) == Ids(old(stream)) + old(outbox)
    {
      var done := 0;
      ghost var all := outbox;
      while true
        invariant 0 <= done <= |all| && outbox == all[done..]
        invariant Ids(stream) == Ids(old(stream)) + all[..done]
        decreases |outbox|
      {
        ghost var before := stream;
        StillUnseen(old(stream), before, all, done);
        var r := Drain(at[done..], None);
        UnseenIds(before, all[done..][..r.n], at[done..]);
        assert all[done..][..r.n] == all[done..done + r.n];
        assert all[..done] + all[done..done + r.n] == all[..done + r.n];
        done := done + r.n;
        if r.n != BATCH {
          break;
        }
      }
    }

    function State(): Loop
      reads this
    {
      Loop(timer, running, again, leaving, begun)
    }

    /** Bootstrap: the timer starts and kicks at once. */
    method Start()
      modifies `timer, `running, `again, `begun
      ensures State() == Kicked(old(State()).(timer := true))
    {
      timer := true;
      Kick();
    }

    method Kick()
      modifies `running, `again, `begun
      ensures State() == Kicked(old(State()))
    {
      if !timer {
        return;
      }
      if running {
        again := true;
        return;
      }
      running, again, begun := true, false, begun + 1;
    }

    /** The awaited drain has ended: the loop drains again or leaves. */
    method Resume(o: Outcome)
      requires running && !leaving
      modifies `again, `begun, `leaving
      ensures State() == Ended(old(State()), o)
    {
      if o.Thrown? {
        leaving := true;
      } else if o.n == BATCH {
        begun := begun + 1;
      } else if again && timer {
        again, begun := false, begun + 1;
      } else {
        leaving := true;
      }
    }

    method Finally()
      requires leaving
      modifies `running, `leaving
      ensures State() == Over(old(State()))
    {
      running, leaving := false, false;
    }

    method Stop()
      modifies `timer
      ensures State() == old(State()).(timer := false)
    {
      timer := false;
    }
  }
}
