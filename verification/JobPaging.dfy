/** Keyset paging of the job list, newest first, while jobs keep appearing, be it with an earlier time. */
module JobPaging {
  import opened Wrappers
  import opened Jobs

  /** What the list is ordered by. IDs compare as numbers. */
  datatype Key = Key(created: Time, id: JobId)

  predicate Less(a: Key, b: Key) {
    a.created < b.created || (a.created == b.created && a.id < b.id)
  }

  /** The rows as the query orders them. */
  ghost predicate Listed(t: set<Key>, s: seq<Key>) {
    Elements(s) == t && Descending(s)
  }

  function Elements(s: seq<Key>): set<Key> {
    set k | k in s
  }

  ghost predicate Descending(s: seq<Key>) {
    forall i, j :: 0 <= i < j < |s| ==> Less(s[j], s[i])
  }

  function Below(t: set<Key>, c: Key): set<Key> {
    set k | k in t && Less(k, c)
  }

  ghost predicate IsNewest(t: set<Key>, m: Key) {
    m in t && forall k :: k in t && k != m ==> Less(k, m)
  }

  lemma {:induction false} HasNewest(t: set<Key>)
    requires t != {}
    ensures exists m :: IsNewest(t, m)
  {
    var m :| m in t;
    if t == {m} {
      assert IsNewest(t, m);
    } else {
      HasNewest(t - {m});
      var n :| IsNewest(t - {m}, n);
      if Less(m, n) {
        forall k | k in t && k != n ensures Less(k, n) {
          assert k == m || k in t - {m};
        }
        assert IsNewest(t, n);
      } else {
        forall k | k in t && k != m ensures Less(k, m) {
          assert k in t - {m};
        }
        assert IsNewest(t, m);
      }
    }
  }

  lemma Prepended(t: set<Key>, m: Key, r: seq<Key>)
    requires IsNewest(t, m) && Listed(t - {m}, r)
    ensures Listed(t, [m] + r)
  {
    forall j | 0 <= j < |r| ensures Less(r[j], m) {
      assert r[j] in Elements(r);
    }
    forall k ensures k in Elements([m] + r) <==> k in t {
      assert k in [m] + r <==> k == m || k in r;
      assert k in Elements(r) <==> k in t - {m};
    }
  }

  lemma {:induction false} HasListing(t: set<Key>)
    ensures exists s :: Listed(t, s) && |s| == |t|
  {
    if t == {} {
      assert Listed(t, []);
    } else {
      HasNewest(t);
      var m :| IsNewest(t, m);
      HasListing(t - {m});
      var r :| Listed(t - {m}, r) && |r| == |t - {m}|;
      Prepended(t, m, r);
      assert |[m] + r| == |t|;
    }
  }

  ghost function Sorted(t: set<Key>): seq<Key> {
    HasListing(t);
    var s :| Listed(t, s) && |s| == |t|;
    s
  }

  datatype Page = Page(items: seq<Key>, next: Option<Key>)

  /** One page: a row more than asked for is read, and tells whether there is a next page. */
  ghost function List(t: set<Key>, cursor: Key, limit: nat): Page
    requires limit >= 1
  {
    Paged(Sorted(Below(t, cursor)), limit)
  }

  function Paged(all: seq<Key>, limit: nat): Page
    requires limit >= 1
  {
    var rows := if |all| > limit + 1 then all[..limit + 1] else all;
    if |rows| > limit then Page(rows[..limit], Some(rows[limit - 1])) else Page(rows, None)
  }

  /** All that has been added is newer than all there was. */
  ghost predicate Grown(first: set<Key>, later: set<Key>) {
    first <= later && forall n, k :: n in later - first && k in first ==> Less(k, n)
  }

  /** A page and the table it was read from. */
  datatype Visit = Visit(table: set<Key>, page: Page)

  /** A walk from the first page along `next`; each page reads the table as it then is. */
  ghost predicate IsWalk(first: set<Key>, walk: seq<Visit>, start: Key, limit: nat)
    requires limit >= 1
    decreases |walk|
  {
    var n := |walk| - 1;
    n >= 0 &&
    if n == 0 then walk[0] == Visit(first, List(first, start, limit))
    else
      && IsWalk(first, walk[..n], start, limit)
      && first <= walk[n].table
      && walk[n - 1].page.next.Some?
      && walk[n].page == List(walk[n].table, walk[n - 1].page.next.value, limit)
  }

  function Items(walk: seq<Visit>): seq<Key> {
    if walk == [] then [] else Items(walk[..|walk| - 1]) + walk[|walk| - 1].page.items
  }

  /** What a page leaves for the next ones. */
  ghost function Rest(t: set<Key>, next: Option<Key>): seq<Key> {
    if next.None? then [] else Sorted(Below(t, next.value))
  }

  lemma SetOf(s: seq<Key>, k: Key)
    ensures k in Elements(s) <==> k in s
  {
  }

  /** What follows position `n` of a listing is the listing of what is below the row before it. */
  lemma ListedAfter(t: set<Key>, s: seq<Key>, n: nat)
    requires Listed(t, s) && 0 < n <= |s|
    ensures Listed(Below(t, s[n - 1]), s[n..])
  {
    forall k ensures k in Elements(s[n..]) <==> k in Below(t, s[n - 1]) {
      if k in Below(t, s[n - 1]) {
        SetOf(s, k);
        var j :| 0 <= j < |s| && s[j] == k;
        assert j >= n;
        assert s[n..][j - n] == k;
      }
    }
  }

  /** A listing starts with the newest. */
  lemma ListedFirst(t: set<Key>, s: seq<Key>)
    requires Listed(t, s) && s != []
    ensures IsNewest(t, s[0]) && Below(t, s[0]) == t - {s[0]}
  {
    assert s[0] in Elements(s);
    forall k | k in t && k != s[0] ensures Less(k, s[0]) {
      assert k in Elements(s);
      var i :| 0 <= i < |s| && s[i] == k;
    }
  }

  /** A set has one listing. */
  lemma {:induction false} ListedOnce(t: set<Key>, a: seq<Key>, b: seq<Key>)
    requires Listed(t, a) && Listed(t, b)
    ensures a == b
    decreases |a|
  {
    assert a != [] ==> a[0] in Elements(b);
    assert b != [] ==> b[0] in Elements(a);
    if a != [] {
      ListedFirst(t, a);
      ListedFirst(t, b);
      assert a[0] == b[0];
      ListedAfter(t, a, 1);
      ListedAfter(t, b, 1);
      ListedOnce(t - {a[0]}, a[1..], b[1..]);
    }
  }

  /** A page and what it leaves make up the listing it was cut from. */
  lemma PagedSplits(t: set<Key>, all: seq<Key>, limit: nat)
    requires limit >= 1 && Listed(t, all)
    ensures Paged(all, limit).next.None? ==> Paged(all, limit).items == all
    ensures |all| > limit <==> Paged(all, limit).next.Some?
    ensures |all| > limit ==> Paged(all, limit).items == all[..limit] && Paged(all, limit).next.value in t
    ensures |all| > limit ==> all[limit..] == Sorted(Below(t, Paged(all, limit).next.value))
  {
    if |all| > limit {
      ListedAfter(t, all, limit);
      SetOf(all, all[limit - 1]);
      ListedOnce(Below(t, all[limit - 1]), all[limit..], Sorted(Below(t, all[limit - 1])));
    }
  }

  /** A page and what it leaves make up everything below its cursor. */
  lemma PageSplits(t: set<Key>, cursor: Key, limit: nat)
    requires limit >= 1
    ensures List(t, cursor, limit).items + Rest(t, List(t, cursor, limit).next) == Sorted(Below(t, cursor))
    ensures List(t, cursor, limit).next.Some? ==>
      |List(t, cursor, limit).items| == limit && Rest(t, List(t, cursor, limit).next) != []
    ensures List(t, cursor, limit).next.Some? ==> List(t, cursor, limit).next.value in Below(t, cursor)
  {
    PagedSplits(Below(t, cursor), Sorted(Below(t, cursor)), limit);
    var next := List(t, cursor, limit).next;
    if next.Some? {
      assert Below(Below(t, cursor), next.value) == Below(t, next.value);
    }
  }

  // ---- the jobs of the first page's table

  /** The rows of `s` that are in `t`. */
  function Only(s: seq<Key>, t: set<Key>): seq<Key> {
    if s == [] then []
    else Only(s[..|s| - 1], t) + (if s[|s| - 1] in t then [s[|s| - 1]] else [])
  }

  lemma {:induction false} OnlyConcat(a: seq<Key>, b: seq<Key>, t: set<Key>)
    ensures Only(a + b, t) == Only(a, t) + Only(b, t)
  {
    if b == [] {
      assert a + b == a;
    } else {
      var n := |b| - 1;
      OnlyConcat(a, b[..n], t);
      assert (a + b)[..|a| + n] == a + b[..n];
    }
  }

  lemma {:induction false} OnlyHas(s: seq<Key>, t: set<Key>, k: Key)
    ensures k in Only(s, t) <==> k in s && k in t
  {
    if s != [] {
      var n := |s| - 1;
      OnlyHas(s[..n], t, k);
      assert s == s[..n] + [s[n]];
    }
  }

  lemma {:induction false} OnlyDescends(s: seq<Key>, t: set<Key>)
    requires Descending(s)
    ensures Descending(Only(s, t))
  {
    if s != [] {
      var n := |s| - 1;
      OnlyDescends(s[..n], t);
      forall i | 0 <= i < |Only(s[..n], t)| ensures Less(s[n], Only(s[..n], t)[i]) {
        OnlyHas(s[..n], t, Only(s[..n], t)[i]);
        var j :| 0 <= j < n && s[..n][j] == Only(s[..n], t)[i];
        assert s[j] == s[..n][j];
      }
    }
  }

  /** Of a bigger table's listing, the rows of the smaller one are its listing. */
  lemma OnlyListed(first: set<Key>, later: set<Key>, c: Key)
    requires first <= later
    ensures Only(Sorted(Below(later, c)), first) == Sorted(Below(first, c))
  {
    var all := Sorted(Below(later, c));
    OnlyDescends(all, first);
    forall k ensures k in Elements(Only(all, first)) <==> k in Below(first, c) {
      OnlyHas(all, first, k);
      SetOf(all, k);
      assert k in Elements(all) <==> k in Below(later, c);
    }
    assert Elements(Only(all, first)) == Below(first, c);
    ListedOnce(Below(first, c), Only(all, first), Sorted(Below(first, c)));
  }

  /** A page of a bigger table splits what the walk had left of the first one. */
  lemma LaterPage(first: set<Key>, later: set<Key>, c: Key, limit: nat)
    requires limit >= 1 && first <= later
    ensures Only(List(later, c, limit).items, first) + Rest(first, List(later, c, limit).next) ==
      Sorted(Below(first, c))
  {
    var page := List(later, c, limit);
    PageSplits(later, c, limit);
    OnlyListed(first, later, c);
    OnlyConcat(page.items, Rest(later, page.next), first);
    if page.next.Some? {
      OnlyListed(first, later, page.next.value);
    } else {
      assert Only([], first) == [];
    }
  }

  lemma ItemsOneMore(walk: seq<Visit>, v: Visit)
    ensures Items(walk + [v]) == Items(walk) + v.page.items
  {
    assert (walk + [v])[..|walk|] == walk;
  }

  lemma Regrouped(a: seq<Key>, b: seq<Key>, c: seq<Key>)
    ensures (a + b) + c == a + (b + c)
  {
  }

  /** After any number of pages: of the first page's table, what was listed and what is left. */
  lemma {:induction false} WalkSplits(first: set<Key>, walk: seq<Visit>, start: Key, limit: nat)
    requires limit >= 1 && IsWalk(first, walk, start, limit) && Below(first, start) == first
    ensures Only(Items(walk), first) + Rest(first, walk[|walk| - 1].page.next) == Sorted(first)
    decreases |walk|
  {
    var n := |walk| - 1;
    var front, last := walk[..n], walk[n];
    assert walk == front + [last];
    ItemsOneMore(front, last);
    if n == 0 {
      LaterPage(first, first, start, limit);
      assert Items(walk) == last.page.items;
    } else {
      WalkSplits(first, front, start, limit);
      var c := walk[n - 1].page.next.value;
      LaterPage(first, last.table, c, limit);
      OnePageMore(first, Items(front), Sorted(Below(first, c)), last.page.items, Rest(first, last.page.next));
    }
  }

  /** What was listed and what is left, after one more page of what was left before. */
  lemma OnePageMore(first: set<Key>, before: seq<Key>, left: seq<Key>, items: seq<Key>, rest: seq<Key>)
    requires Only(items, first) + rest == left
    ensures Only(before + items, first) + rest == Only(before, first) + left
  {
    OnlyConcat(before, items, first);
    Regrouped(Only(before, first), Only(items, first), rest);
  }

  // ---- no row twice, and an end

  lemma {:induction false} WalkIsFull(first: set<Key>, walk: seq<Visit>, start: Key, limit: nat)
    requires limit >= 1 && IsWalk(first, walk, start, limit) && walk[|walk| - 1].page.next.Some?
    ensures |Items(walk)| == |walk| * limit
    decreases |walk|
  {
    var n := |walk| - 1;
    assert |walk[n].page.items| == limit;
    if n > 0 {
      WalkIsFull(first, walk[..n], start, limit);
      assert n * limit + limit == (n + 1) * limit;
    }
  }

  /** Every row of `s` comes before `next`, which is its last one if there is a next page. */
  ghost predicate UpTo(s: seq<Key>, next: Option<Key>) {
    Descending(s) && (next.Some? ==> s != [] && s[|s| - 1] == next.value)
  }

  lemma PageDescends(t: set<Key>, c: Key, limit: nat)
    requires limit >= 1
    ensures UpTo(List(t, c, limit).items, List(t, c, limit).next)
    ensures forall i :: 0 <= i < |List(t, c, limit).items| ==> List(t, c, limit).items[i] in Below(t, c)
  {
    var all := Sorted(Below(t, c));
    forall i | 0 <= i < |all| ensures all[i] in Below(t, c) {
      SetOf(all, all[i]);
    }
  }

  lemma Appended(a: seq<Key>, b: seq<Key>, c: Key, next: Option<Key>)
    requires UpTo(a, Some(c)) && UpTo(b, next) && forall i :: 0 <= i < |b| ==> Less(b[i], c)
    requires next.Some? ==> b != []
    ensures UpTo(a + b, next)
  {
    forall i, j | 0 <= i < j < |a + b| ensures Less((a + b)[j], (a + b)[i]) {
    }
  }

  /** The jobs the pages were read from, all in all. */
  function Seen(walk: seq<Visit>): set<Key> {
    if walk == [] then {} else Seen(walk[..|walk| - 1]) + walk[|walk| - 1].table
  }

  lemma {:induction false} WalkDescends(first: set<Key>, walk: seq<Visit>, start: Key, limit: nat)
    requires limit >= 1 && IsWalk(first, walk, start, limit)
    ensures UpTo(Items(walk), walk[|walk| - 1].page.next) && Elements(Items(walk)) <= Seen(walk)
    decreases |walk|
  {
    var n := |walk| - 1;
    var front, last := walk[..n], walk[n];
    assert walk == front + [last];
    ItemsOneMore(front, last);
    if n == 0 {
      PageDescends(first, start, limit);
      assert Items(walk) == last.page.items;
    } else {
      var c := walk[n - 1].page.next.value;
      WalkDescends(first, front, start, limit);
      PageDescends(last.table, c, limit);
      Appended(Items(front), last.page.items, c, last.page.next);
    }
  }

  lemma {:induction false} DescendingSize(s: seq<Key>)
    requires Descending(s)
    ensures |Elements(s)| == |s|
  {
    if s != [] {
      var n := |s| - 1;
      DescendingSize(s[..n]);
      assert s[n] !in Elements(s[..n]);
      assert Elements(s) == Elements(s[..n]) + {s[n]};
    }
  }

  lemma MoreSeen(s: seq<Key>, seen: set<Key>, c: Key, k: Key)
    requires UpTo(s, Some(c)) && Elements(s) <= seen && k in seen && Less(k, c)
    ensures |s| < |seen|
  {
    DescendingSize(s);
    assert k !in Elements(s);
    Smaller(Elements(s), seen, k);
  }

  lemma {:induction false} Smaller(a: set<Key>, b: set<Key>, k: Key)
    requires a <= b && k in b && k !in a
    ensures |a| < |b|
  {
    Within(a, b - {k});
  }

  lemma {:induction false} Within(a: set<Key>, b: set<Key>)
    requires a <= b
    ensures |a| <= |b|
  {
    if x :| x in a {
      Within(a - {x}, b - {x});
    }
  }

  /**
   Main result: a walk lists no job twice and newest first, whatever jobs appear meanwhile; when it ends it
   has listed every job there was at its start; and it ends, at the latest when its full pages hold all the
   jobs it has seen.
   */
  lemma WalkListsOnce(first: set<Key>, walk: seq<Visit>, start: Key, limit: nat)
    requires limit >= 1 && IsWalk(first, walk, start, limit)
    requires forall k :: k in first ==> Less(k, start)
    ensures Descending(Items(walk))
    ensures walk[|walk| - 1].page.next.None? ==> Listed(first, Only(Items(walk), first))
    ensures walk[|walk| - 1].page.next.Some? ==> |walk| * limit < |Seen(walk)|
  {
    var next := walk[|walk| - 1].page.next;
    assert Below(first, start) == first;
    WalkSplits(first, walk, start, limit);
    WalkDescends(first, walk, start, limit);
    if next.Some? {
      WalkIsFull(first, walk, start, limit);
      var k := LeftOver(first, walk, start, limit);
      MoreSeen(Items(walk), Seen(walk), next.value, k);
    } else {
      assert Only(Items(walk), first) == Sorted(first);
    }
  }

  /** There is a next page only for a row it would list. */
  lemma LeftOver(first: set<Key>, walk: seq<Visit>, start: Key, limit: nat) returns (k: Key)
    requires limit >= 1 && IsWalk(first, walk, start, limit) && walk[|walk| - 1].page.next.Some?
    ensures k in walk[|walk| - 1].table && Less(k, walk[|walk| - 1].page.next.value)
  {
    var n := |walk| - 1;
    var last := walk[n];
    PageSplits(last.table, if n == 0 then start else walk[n - 1].page.next.value, limit);
    var rest := Rest(last.table, last.page.next);
    k := rest[0];
    SetOf(rest, k);
  }

  // ---- only newer jobs

  /** All that was added to the tables along the walk is newer than the first table. */
  ghost predicate OnlyNewer(first: set<Key>, walk: seq<Visit>) {
    forall i :: 0 <= i < |walk| ==> Grown(first, walk[i].table)
  }

  /** Then nothing added is ever below a cursor taken from the first table. */
  lemma GrownPage(first: set<Key>, later: set<Key>, c: Key, limit: nat)
    requires limit >= 1 && Grown(first, later) && (c in first || later == first)
    ensures Elements(List(later, c, limit).items) <= first
  {
    PageDescends(later, c, limit);
    forall k | k in List(later, c, limit).items ensures k in first {
      assert k in Below(later, c);
      assert k in later - first && c in first ==> Less(c, k);
    }
  }

  lemma {:induction false} OnlyAll(s: seq<Key>, t: set<Key>)
    requires forall i :: 0 <= i < |s| ==> s[i] in t
    ensures Only(s, t) == s
  {
    if s != [] {
      OnlyAll(s[..|s| - 1], t);
    }
  }

  lemma {:induction false} NewerUnlisted(first: set<Key>, walk: seq<Visit>, start: Key, limit: nat)
    requires limit >= 1 && IsWalk(first, walk, start, limit) && OnlyNewer(first, walk)
    ensures Elements(Items(walk)) <= first
    decreases |walk|
  {
    var n := |walk| - 1;
    var front, last := walk[..n], walk[n];
    assert walk == front + [last];
    ItemsOneMore(front, last);
    assert Grown(first, last.table);
    if n == 0 {
      GrownPage(first, first, start, limit);
      assert Items(walk) == last.page.items;
    } else {
      assert forall i :: 0 <= i < n ==> front[i] == walk[i];
      NewerUnlisted(first, front, start, limit);
      WalkDescends(first, front, start, limit);
      var c := walk[n - 1].page.next.value;
      assert c in Elements(Items(front));
      GrownPage(first, last.table, c, limit);
    }
  }

  /** If only newer jobs appear, the walk lists the first table and nothing else, and ends within it. */
  lemma NewerJobsLeaveNoTrace(first: set<Key>, walk: seq<Visit>, start: Key, limit: nat)
    requires limit >= 1 && IsWalk(first, walk, start, limit) && OnlyNewer(first, walk)
    requires forall k :: k in first ==> Less(k, start)
    ensures walk[|walk| - 1].page.next.None? ==> Listed(first, Items(walk)) && |Items(walk)| == |first|
    ensures walk[|walk| - 1].page.next.Some? ==> |walk| * limit < |first|
  {
    WalkListsOnce(first, walk, start, limit);
    NewerUnlisted(first, walk, start, limit);
    forall i | 0 <= i < |Items(walk)| ensures Items(walk)[i] in first {
      SetOf(Items(walk), Items(walk)[i]);
    }
    OnlyAll(Items(walk), first);
    DescendingSize(Items(walk));
    if walk[|walk| - 1].page.next.Some? {
      WalkIsFull(first, walk, start, limit);
      WalkDescends(first, walk, start, limit);
      var next := walk[|walk| - 1].page.next.value;
      var k := LeftOver(first, walk, start, limit);
      assert next in Elements(Items(walk)) && Grown(first, walk[|walk| - 1].table);
      assert k in walk[|walk| - 1].table - first ==> Less(next, k);
      MoreSeen(Items(walk), first, next, k);
    }
  }

  /** Listed are the rows, each once, the newest first and the higher ID first at the same time. */
  lemma ListedExactly(t: set<Key>, s: seq<Key>)
    ensures Listed(t, s) <==> (forall k :: k in s <==> k in t) && NewestFirst(s)
  {
    if Listed(t, s) {
      forall k ensures k in s <==> k in t {
        SetOf(s, k);
      }
    } else if forall k :: k in s <==> k in t {
      assert Elements(s) == t;
    }
  }

  ghost predicate NewestFirst(s: seq<Key>) {
    forall i, j :: 0 <= i < j < |s| ==>
      s[j].created < s[i].created || (s[j].created == s[i].created && s[j].id < s[i].id)
  }
}
