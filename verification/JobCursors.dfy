/** The cursors of the job list as the client gets them: base64 of a time, a bar and an ID. */
module JobCursors {
  import opened Wrappers
  import opened Jobs
  import opened JobPaging

  // ---- base64 with the URL alphabet and no padding (RFC 4648, section 5)

  predicate IsBytes(s: string) {
    forall i :: 0 <= i < |s| ==> s[i] as int < 0x100
  }

  function Letter(n: nat): char
    requires n < 64
  {
    if n < 26 then 'A' + n as char
    else if n < 52 then 'a' + (n - 26) as char
    else if n < 62 then '0' + (n - 52) as char
    else if n == 62 then '-' else '_'
  }

  function LetterValue(c: char): Option<nat> {
    if 'A' <= c <= 'Z' then Some((c - 'A') as nat)
    else if 'a' <= c <= 'z' then Some((c - 'a') as nat + 26)
    else if '0' <= c <= '9' then Some((c - '0') as nat + 52)
    else if c == '-' then Some(62) else if c == '_' then Some(63) else None
  }

  lemma LetterReads(n: nat)
    requires n < 64
    ensures LetterValue(Letter(n)) == Some(n)
  {
  }

  /** The value of the letter at `i`, 0 if there is none. */
  function ValueAt(t: string, i: nat): (r: nat)
    ensures r < 64
  {
    if i < |t| && LetterValue(t[i]).Some? then LetterValue(t[i]).value else 0
  }

  /** Byte `i` of `s`, 0 behind its end. */
  function ByteAt(s: string, i: nat): nat {
    if i < |s| then s[i] as nat else 0
  }

  function Group(a: nat, b: nat, c: nat): string
    requires a < 0x100 && b < 0x100 && c < 0x100
  {
    [Letter(a / 4), Letter(a % 4 * 16 + b / 16), Letter(b % 16 * 4 + c / 64), Letter(c % 64)]
  }

  /** Three bytes as four letters; a shorter end as one letter more than it has bytes. */
  function Encode(s: string): string
    requires IsBytes(s)
  {
    if s == "" then ""
    else
      var group := Group(ByteAt(s, 0), ByteAt(s, 1), ByteAt(s, 2));
      if |s| < 3 then group[..|s| + 1] else group + Encode(s[3..])
  }

  function Ungroup(w: nat, x: nat, y: nat, z: nat): string
    requires w < 64 && x < 64 && y < 64 && z < 64
  {
    [(w * 4 + x / 16) as char, (x % 16 * 16 + y / 4) as char, (y % 4 * 64 + z) as char]
  }

  predicate Foreign(t: string, i: nat) {
    i < |t| && LetterValue(t[i]).None?
  }

  function Decode(t: string): Option<string> {
    if t == "" then Some("")
    else if |t| == 1 || Foreign(t, 0) || Foreign(t, 1) || Foreign(t, 2) || Foreign(t, 3) then None
    else
      var group := Ungroup(ValueAt(t, 0), ValueAt(t, 1), ValueAt(t, 2), ValueAt(t, 3));
      if |t| < 4 then Some(group[..|t| - 1])
      else
        var rest := Decode(t[4..]);
        if rest.Some? then Some(group + rest.value) else None
  }

  lemma GroupReads(a: nat, b: nat, c: nat)
    requires a < 0x100 && b < 0x100 && c < 0x100
    ensures var g := Group(a, b, c);
      && !Foreign(g, 0) && !Foreign(g, 1) && !Foreign(g, 2) && !Foreign(g, 3)
      && Ungroup(ValueAt(g, 0), ValueAt(g, 1), ValueAt(g, 2), ValueAt(g, 3)) == [a as char, b as char, c as char]
  {
    var w, x, y, z := a / 4, a % 4 * 16 + b / 16, b % 16 * 4 + c / 64, c % 64;
    LetterReads(w);
    LetterReads(x);
    LetterReads(y);
    LetterReads(z);
    SextetsRead(a, b, c, w, x, y, z);
  }

  lemma SextetsRead(a: nat, b: nat, c: nat, w: nat, x: nat, y: nat, z: nat)
    requires a < 0x100 && b < 0x100 && c < 0x100
    requires w == a / 4 && x == a % 4 * 16 + b / 16 && y == b % 16 * 4 + c / 64 && z == c % 64
    ensures w < 64 && x < 64 && y < 64 && z < 64
    ensures w * 4 + x / 16 == a && x % 16 * 16 + y / 4 == b && y % 4 * 64 + z == c
  {
  }

  lemma ZerosRead(a: nat, b: nat)
    requires a < 0x100 && b < 0x100
    ensures var g := Group(a, b, 0); ValueAt(g, 3) == 0 && (b == 0 ==> ValueAt(g, 2) == 0)
  {
    LetterReads(0);
  }

  /** Letters cut off a group were zeros. */
  lemma EndReads(a: nat, b: nat, n: nat)
    requires a < 0x100 && b < 0x100 && 1 <= n <= 2 && (n == 1 ==> b == 0)
    ensures Decode(Group(a, b, 0)[..n + 1]) == Some([a as char, b as char][..n])
  {
    var s := [a as char, b as char, 0 as char];
    GroupReads(a, b, 0);
    ZerosRead(a, b);
    CutReads(Group(a, b, 0), n, s);
    assert s[..n] == [a as char, b as char][..n];
  }

  lemma CutReads(g: string, n: nat, s: string)
    requires |g| == 4 && |s| == 3 && 1 <= n <= 2 && !Foreign(g, 0) && !Foreign(g, 1) && !Foreign(g, 2)
    requires ValueAt(g, 3) == 0 && (n == 1 ==> ValueAt(g, 2) == 0)
    requires Ungroup(ValueAt(g, 0), ValueAt(g, 1), ValueAt(g, 2), 0) == s
    ensures Decode(g[..n + 1]) == Some(s[..n])
  {
    var t := g[..n + 1];
    assert forall i :: 0 <= i < 4 ==> ValueAt(t, i) == ValueAt(g, i) && !Foreign(t, i);
  }

  lemma GroupDecodes(a: nat, b: nat, c: nat, rest: string)
    requires a < 0x100 && b < 0x100 && c < 0x100
    ensures Decode(Group(a, b, c) + rest) ==
      if Decode(rest).Some? then Some([a as char, b as char, c as char] + Decode(rest).value) else None
  {
    var g := Group(a, b, c);
    var t := g + rest;
    GroupReads(a, b, c);
    assert t[4..] == rest;
    assert forall i :: 0 <= i < 4 ==> ValueAt(t, i) == ValueAt(g, i) && !Foreign(t, i);
  }

  lemma EncodeLong(s: string, rest: string) returns (g: string)
    requires IsBytes(s) && |s| >= 3 && rest == Encode(s[3..])
    ensures Encode(s) == g + rest
    ensures Decode(g + rest) == if Decode(rest).Some? then Some(s[..3] + Decode(rest).value) else None
  {
    var a, b, c := ByteAt(s, 0), ByteAt(s, 1), ByteAt(s, 2);
    g := Group(a, b, c);
    GroupDecodes(a, b, c, rest);
    assert s[..3] == [a as char, b as char, c as char];
  }

  lemma EncodeShort(s: string) returns (t: string)
    requires IsBytes(s) && 1 <= |s| <= 2
    ensures t == Encode(s) && t != "" && Decode(t) == Some(s)
  {
    var a, b := ByteAt(s, 0), ByteAt(s, 1);
    t := Group(a, b, 0)[..|s| + 1];
    EndReads(a, b, |s|);
    assert [a as char, b as char][..|s|] == s;
  }

  /** What is encoded decodes to itself. */
  lemma {:induction false} Base64RoundTrip(s: string)
    requires IsBytes(s)
    ensures Decode(Encode(s)) == Some(s)
    ensures s != "" ==> Encode(s) != ""
    decreases |s|
  {
    if |s| >= 3 {
      var rest := Encode(s[3..]);
      Base64RoundTrip(s[3..]);
      var g := EncodeLong(s, rest);
      assert s == s[..3] + s[3..];
    } else if s != "" {
      var t := EncodeShort(s);
    }
  }

  /** The alphabet: capitals, small letters, digits, `-` and `_`. */
  lemma LettersAre(n: nat)
    requires n < 64
    ensures n < 26 ==> Letter(n) as int == 65 + n
    ensures 26 <= n < 52 ==> Letter(n) as int == 97 + (n - 26)
    ensures 52 <= n < 62 ==> Letter(n) as int == 48 + (n - 52)
    ensures Letter(62) == '-' && Letter(63) == '_'
  {
  }

  /** Three bytes from `k` on as one number, zeros behind the end. */
  function Word(s: string, k: nat): nat {
    65536 * ByteAt(s, k) + 256 * ByteAt(s, k + 1) + ByteAt(s, k + 2)
  }

  /** Its base-64 digit `j`, the highest first. */
  function Sextet(word: nat, j: nat): (r: nat)
    ensures r < 64
  {
    (if j == 0 then word / 262144 else if j == 1 then word / 4096 else if j == 2 then word / 64 else word) % 64
  }

  /** The four digits make up the word. */
  lemma SextetsMake(a: nat, b: nat, c: nat, w: nat, x: nat, y: nat, z: nat)
    requires a < 0x100 && b < 0x100 && c < 0x100
    requires w == a / 4 && x == a % 4 * 16 + b / 16 && y == b % 16 * 4 + c / 64 && z == c % 64
    ensures w < 64 && x < 64 && y < 64 && z < 64
    ensures 64 * (64 * (64 * w + x) + y) + z == 65536 * a + 256 * b + c
  {
    assert a == 4 * w + a % 4 && b == 16 * (b / 16) + b % 16 && c == 64 * (c / 64) + z;
  }

  lemma LowDigit(high: nat, low: nat)
    requires low < 64
    ensures (64 * high + low) / 64 == high && (64 * high + low) % 64 == low
  {
  }

  lemma Shifted(word: nat)
    ensures word / 4096 == word / 64 / 64 && word / 262144 == word / 64 / 64 / 64
  {
  }

  lemma DigitsOf(word: nat, w: nat, x: nat, y: nat, z: nat)
    requires w < 64 && x < 64 && y < 64 && z < 64 && word == 64 * (64 * (64 * w + x) + y) + z
    ensures Sextet(word, 0) == w && Sextet(word, 1) == x && Sextet(word, 2) == y && Sextet(word, 3) == z
  {
    LowDigit(64 * (64 * w + x) + y, z);
    LowDigit(64 * w + x, y);
    LowDigit(w, x);
    Shifted(word);
  }

  lemma GroupIs(a: nat, b: nat, c: nat, j: nat)
    requires a < 0x100 && b < 0x100 && c < 0x100 && j < 4
    ensures Group(a, b, c)[j] == Letter(Sextet(65536 * a + 256 * b + c, j))
  {
    SextetsMake(a, b, c, a / 4, a % 4 * 16 + b / 16, b % 16 * 4 + c / 64, c % 64);
    DigitsOf(65536 * a + 256 * b + c, a / 4, a % 4 * 16 + b / 16, b % 16 * 4 + c / 64, c % 64);
  }

  lemma WordLater(s: string, k: nat)
    requires |s| >= 3
    ensures Word(s[3..], k) == Word(s, k + 3)
  {
  }

  /** Letter `i` is digit `i % 4` of the word of three bytes it falls into. */
  ghost predicate IsDigitOf(s: string, i: nat, c: char) {
    c == Letter(Sextet(Word(s, i / 4 * 3), i % 4))
  }

  lemma DigitLater(s: string, i: nat, c: char)
    requires |s| >= 3 && i >= 4 && IsDigitOf(s[3..], i - 4, c)
    ensures IsDigitOf(s, i, c)
  {
    var k := (i - 4) / 4 * 3;
    WordLater(s, k);
    assert k + 3 == i / 4 * 3 && (i - 4) % 4 == i % 4;
  }

  lemma FirstDigits(s: string, i: nat, group: string)
    requires IsBytes(s) && i < 4 && group == Group(ByteAt(s, 0), ByteAt(s, 1), ByteAt(s, 2))
    ensures IsDigitOf(s, i, group[i])
  {
    GroupIs(ByteAt(s, 0), ByteAt(s, 1), ByteAt(s, 2), i);
  }

  /** Main result: every letter of an encoded text is such a digit, and no padding follows. */
  lemma {:induction false} EncodeIs(s: string, i: nat)
    requires IsBytes(s) && i < |Encode(s)|
    ensures IsDigitOf(s, i, Encode(s)[i])
    decreases |s|
  {
    var group := Group(ByteAt(s, 0), ByteAt(s, 1), ByteAt(s, 2));
    if i < 4 {
      FirstDigits(s, i, group);
    } else {
      EncodeIs(s[3..], i - 4);
      DigitLater(s, i, Encode(s)[i]);
    }
  }

  lemma {:induction false} EncodeLength(s: string)
    requires IsBytes(s)
    ensures |Encode(s)| == (4 * |s| + 2) / 3
    decreases |s|
  {
    if |s| >= 3 {
      EncodeLength(s[3..]);
    }
  }

  // ---- cursors

  /** The text before the first separator and the text after it. */
  function Cut(s: string, sep: char): Option<(string, string)> {
    if s == [] then None
    else if s[0] == sep then Some(([], s[1..]))
    else match Cut(s[1..], sep) case None => None case Some(p) => Some(([s[0]] + p.0, p.1))
  }

  lemma {:induction false} CutsAtBar(created: string, id: string)
    requires '|' !in created
    ensures Cut(created + "|" + id, '|') == Some((created, id))
  {
    var s := created + "|" + id;
    if created == [] {
      assert s[1..] == id;
    } else {
      assert s[1..] == created[1..] + "|" + id;
      CutsAtBar(created[1..], id);
      assert [created[0]] + created[1..] == created;
    }
  }

  /** How times and IDs are written and read; the formats belong to Go's libraries. */
  datatype Formats = Formats(
    time: Time -> string,
    parseTime: string -> Option<Time>,
    id: JobId -> string,
    parseId: string -> Option<JobId>)

  /** What is written is read back, in ASCII, and no time holds a bar. */
  ghost predicate Faithful(x: Formats) {
    && (forall t: Time :: x.parseTime(x.time(t)) == Some(t) && '|' !in x.time(t) && IsBytes(x.time(t)))
    && (forall j: JobId :: x.parseId(x.id(j)) == Some(j) && IsBytes(x.id(j)))
  }

  function CursorOf(x: Formats, k: Key): string
    requires IsBytes(x.time(k.created)) && IsBytes(x.id(k.id))
  {
    Encode(x.time(k.created) + "|" + x.id(k.id))
  }

  function ParseCursor(x: Formats, cursor: string): Option<Key> {
    var raw := Decode(cursor);
    if raw.None? then None
    else
      var parts := Cut(raw.value, '|');
      if parts.None? then None
      else
        var created, id := x.parseTime(parts.value.0), x.parseId(parts.value.1);
        if created.Some? && id.Some? then Some(Key(created.value, id.value)) else None
  }

  /** A cursor leads back to the job it was made from, and is never taken for no cursor. */
  lemma CursorRoundTrip(x: Formats, k: Key)
    requires Faithful(x)
    ensures IsBytes(x.time(k.created)) && IsBytes(x.id(k.id))
    ensures ParseCursor(x, CursorOf(x, k)) == Some(k) && CursorOf(x, k) != ""
  {
    assert x.parseTime(x.time(k.created)) == Some(k.created) && x.parseId(x.id(k.id)) == Some(k.id);
    CutsAtBar(x.time(k.created), x.id(k.id));
    Base64RoundTrip(x.time(k.created) + "|" + x.id(k.id));
  }

  // ---- the list as it is called

  /** A page; `next` is empty on the last one. */
  datatype Answer = Answer(items: seq<Key>, next: string)

  const DAY: Time := 24 * 60 * 60 * 1000000
  const MAX_ID: JobId := 0xFFFF_FFFF_FFFF_FFFF_FFFF_FFFF_FFFF_FFFF

  /** Where a page starts: at the cursor, or a day from now. */
  function StartOf(x: Formats, cursor: string, now: Time): Option<Key> {
    if cursor == "" then Some(Key(now + DAY, MAX_ID)) else ParseCursor(x, cursor)
  }

  /** The last key of the day ahead: microseconds, and the highest UUID. */
  function DayAhead(now: Time): Key {
    Key(now + 86400000000, 0xFFFF_FFFF_FFFF_FFFF_FFFF_FFFF_FFFF_FFFF)
  }

  /** `None` for a cursor that does not parse. */
  ghost function ListAnswer(x: Formats, t: set<Key>, cursor: string, now: Time, limit: nat): Option<Answer>
    requires Faithful(x) && limit >= 1
  {
    var start := StartOf(x, cursor, now);
    if start.None? then None
    else
      var page := List(t, start.value, limit);
      Some(Answer(page.items, if page.next.Some? then CursorOf(x, page.next.value) else ""))
  }

  /** One call of the list: the table and the clock as it found them, its cursor and its answer. */
  datatype Call = Call(table: set<Key>, now: Time, cursor: string, answer: Answer)

  ghost predicate Answered(x: Formats, c: Call, limit: nat)
    requires Faithful(x) && limit >= 1
  {
    ListAnswer(x, c.table, c.cursor, c.now, limit) == Some(c.answer)
  }

  /** Calls that follow `next` from the first page, while more jobs appear. */
  ghost predicate IsListing(x: Formats, calls: seq<Call>, limit: nat)
    requires Faithful(x) && limit >= 1
  {
    && calls != [] && calls[0].cursor == ""
    && (forall i :: 0 <= i < |calls| ==> Answered(x, calls[i], limit))
    && (forall i :: 0 <= i < |calls| - 1 ==> Follows(calls[0].table, calls[i], calls[i + 1]))
  }

  ghost predicate Follows(first: set<Key>, c: Call, d: Call) {
    first <= d.table && d.cursor == c.answer.next && d.cursor != ""
  }

  /** The page as the list read it, with the key its cursor holds. */
  function PageOf(x: Formats, a: Answer): Page {
    Page(a.items, if a.next == "" then None else ParseCursor(x, a.next))
  }

  function VisitsOf(x: Formats, calls: seq<Call>): (r: seq<Visit>)
    ensures |r| == |calls|
    decreases |calls|
  {
    if calls == [] then []
    else
      var n := |calls| - 1;
      VisitsOf(x, calls[..n]) + [VisitOf(x, calls[n])]
  }

  function Listings(calls: seq<Call>): seq<Key> {
    if calls == [] then [] else Listings(calls[..|calls| - 1]) + calls[|calls| - 1].answer.items
  }

  lemma {:induction false} ItemsAre(x: Formats, calls: seq<Call>)
    ensures Items(VisitsOf(x, calls)) == Listings(calls)
  {
    if calls != [] {
      var n := |calls| - 1;
      ItemsAre(x, calls[..n]);
      ItemsOneMore(VisitsOf(x, calls[..n]), VisitOf(x, calls[n]));
    }
  }

  /** Each call reads the page its cursor leads to. */
  lemma AnswerIsPage(x: Formats, c: Call, limit: nat)
    requires Faithful(x) && limit >= 1 && Answered(x, c, limit)
    ensures StartOf(x, c.cursor, c.now).Some?
    ensures PageOf(x, c.answer) == List(c.table, StartOf(x, c.cursor, c.now).value, limit)
    ensures PageOf(x, c.answer).next.None? <==> c.answer.next == ""
  {
    var page := List(c.table, StartOf(x, c.cursor, c.now).value, limit);
    if page.next.Some? {
      CursorRoundTrip(x, page.next.value);
    }
  }

  lemma WalkStarts(first: set<Key>, v: Visit, start: Key, limit: nat)
    requires limit >= 1 && v.table == first && v.page == List(first, start, limit)
    ensures IsWalk(first, [v], start, limit)
  {
  }

  lemma WalkExtended(first: set<Key>, front: seq<Visit>, v: Visit, start: Key, limit: nat)
    requires limit >= 1 && front != [] && IsWalk(first, front, start, limit) && first <= v.table
    requires front[|front| - 1].page.next.Some? && v.page == List(v.table, front[|front| - 1].page.next.value, limit)
    ensures IsWalk(first, front + [v], start, limit)
  {
    assert (front + [v])[..|front|] == front;
  }

  function VisitOf(x: Formats, c: Call): Visit {
    Visit(c.table, PageOf(x, c.answer))
  }

  lemma FirstIsWalk(x: Formats, c: Call, v: Visit, start: Key, limit: nat)
    requires Faithful(x) && limit >= 1 && Answered(x, c, limit)
    requires v == VisitOf(x, c) && StartOf(x, c.cursor, c.now) == Some(start)
    ensures IsWalk(c.table, [v], start, limit)
  {
    AnswerIsPage(x, c, limit);
    WalkStarts(c.table, v, start, limit);
  }

  lemma NextIsWalk(x: Formats, first: set<Key>, front: seq<Visit>, c: Call, d: Call, start: Key, limit: nat)
    requires Faithful(x) && limit >= 1 && front != [] && IsWalk(first, front, start, limit)
    requires front[|front| - 1] == VisitOf(x, c)
    requires Answered(x, d, limit) && Follows(first, c, d)
    ensures IsWalk(first, front + [VisitOf(x, d)], start, limit)
  {
    AnswerIsPage(x, d, limit);
    WalkExtended(first, front, VisitOf(x, d), start, limit);
  }

  lemma VisitsNext(x: Formats, calls: seq<Call>, n: nat)
    requires n < |calls|
    ensures VisitsOf(x, calls[..n + 1]) == VisitsOf(x, calls[..n]) + [VisitOf(x, calls[n])]
  {
    assert calls[..n + 1][..n] == calls[..n];
  }

  lemma ListingStep(x: Formats, calls: seq<Call>, n: nat, front: seq<Visit>, start: Key, limit: nat)
    requires Faithful(x) && limit >= 1 && IsListing(x, calls, limit) && 1 <= n < |calls|
    requires front != [] && front[|front| - 1] == VisitOf(x, calls[n - 1])
    requires IsWalk(calls[0].table, front, start, limit)
    ensures IsWalk(calls[0].table, front + [VisitOf(x, calls[n])], start, limit)
  {
    assert Answered(x, calls[n], limit);
    assert Follows(calls[0].table, calls[n - 1], calls[n - 1 + 1]);
    NextIsWalk(x, calls[0].table, front, calls[n - 1], calls[n], start, limit);
  }

  lemma ListingFirst(x: Formats, calls: seq<Call>, start: Key, limit: nat)
    requires Faithful(x) && limit >= 1 && IsListing(x, calls, limit) && start == Key(calls[0].now + DAY, MAX_ID)
    ensures IsWalk(calls[0].table, [VisitOf(x, calls[0])], start, limit)
  {
    assert Answered(x, calls[0], limit);
    FirstIsWalk(x, calls[0], VisitOf(x, calls[0]), start, limit);
  }

  /** Following the encoded cursors is a walk along the keys in them. */
  lemma ListingIsWalk(x: Formats, calls: seq<Call>, start: Key, limit: nat)
    requires Faithful(x) && limit >= 1 && IsListing(x, calls, limit) && start == Key(calls[0].now + DAY, MAX_ID)
    ensures IsWalk(calls[0].table, VisitsOf(x, calls), start, limit)
    ensures VisitsOf(x, calls)[|calls| - 1] == VisitOf(x, calls[|calls| - 1])
  {
    var visits := [VisitOf(x, calls[0])];
    VisitsNext(x, calls, 0);
    ListingFirst(x, calls, start, limit);
    for n := 1 to |calls|
      invariant visits == VisitsOf(x, calls[..n]) && visits[n - 1] == VisitOf(x, calls[n - 1])
      invariant IsWalk(calls[0].table, visits, start, limit)
    {
      VisitsNext(x, calls, n);
      ListingStep(x, calls, n, visits, start, limit);
      visits := visits + [VisitOf(x, calls[n])];
    }
    assert calls[..|calls|] == calls;
  }

  /** The jobs the calls found in the table, all in all. */
  function SeenBy(calls: seq<Call>): set<Key> {
    if calls == [] then {} else SeenBy(calls[..|calls| - 1]) + calls[|calls| - 1].table
  }

  lemma {:induction false} SeenIs(x: Formats, calls: seq<Call>)
    ensures Seen(VisitsOf(x, calls)) == SeenBy(calls)
  {
    if calls != [] {
      var n := |calls| - 1;
      SeenIs(x, calls[..n]);
      assert VisitsOf(x, calls)[..n] == VisitsOf(x, calls[..n]);
    }
  }

  /**
   Main result: a client that follows `next` until it is empty has been given every job there was at its
   first call, once and newest first among all it was given, whatever jobs have appeared meanwhile; and it
   comes to that end, as no cursor it is given is refused and its calls never hold all the jobs they found.
   */
  lemma ListingListsOnce(x: Formats, calls: seq<Call>, limit: nat)
    requires Faithful(x) && limit >= 1 && IsListing(x, calls, limit)
    requires forall k :: k in calls[0].table ==> Less(k, DayAhead(calls[0].now))
    ensures Descending(Listings(calls))
    ensures var next := calls[|calls| - 1].answer.next;
      && (next == "" ==> Listed(calls[0].table, Only(Listings(calls), calls[0].table)))
      && (next != "" ==> ParseCursor(x, next).Some? && |calls| * limit < |SeenBy(calls)|)
  {
    var n, start := |calls|, Key(calls[0].now + DAY, MAX_ID);
    ListingIsWalk(x, calls, start, limit);
    AnswerIsPage(x, calls[n - 1], limit);
    ItemsAre(x, calls);
    SeenIs(x, calls);
    WalkListsOnce(calls[0].table, VisitsOf(x, calls), start, limit);
  }

  lemma VisitTables(x: Formats, calls: seq<Call>, i: nat)
    requires i < |calls|
    ensures VisitsOf(x, calls)[i].table == calls[i].table
    decreases |calls|
  {
    if i < |calls| - 1 {
      VisitTables(x, calls[..|calls| - 1], i);
    }
  }

  /** If all jobs that have appeared are newer, it is given the jobs of its first call and no others. */
  lemma NewerJobsUnlisted(x: Formats, calls: seq<Call>, limit: nat)
    requires Faithful(x) && limit >= 1 && IsListing(x, calls, limit)
    requires forall k :: k in calls[0].table ==> Less(k, DayAhead(calls[0].now))
    requires forall i :: 0 <= i < |calls| ==> Grown(calls[0].table, calls[i].table)
    ensures var next := calls[|calls| - 1].answer.next;
      && (next == "" ==> Listed(calls[0].table, Listings(calls)) && |Listings(calls)| == |calls[0].table|)
      && (next != "" ==> |calls| * limit < |calls[0].table|)
  {
    var n, start := |calls|, Key(calls[0].now + DAY, MAX_ID);
    ListingIsWalk(x, calls, start, limit);
    AnswerIsPage(x, calls[n - 1], limit);
    ItemsAre(x, calls);
    forall i | 0 <= i < n ensures Grown(calls[0].table, VisitsOf(x, calls)[i].table) {
      VisitTables(x, calls, i);
    }
    NewerJobsLeaveNoTrace(calls[0].table, VisitsOf(x, calls), start, limit);
  }
}
