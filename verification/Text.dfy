/**
 Text normalization as the two sides of the system do it. The service trims with JavaScript's
 `trim` (every Unicode white space and line terminator, ECMA-262 section 22.1.3.32) while the
 generated columns `email_norm` and `external_id` trim with PostgreSQL's `trim` (U+0020 only).
 */
module Text {
  /** Field IDs of the two indexed columns. */
  const EMAIL: nat := 3
  const EXTERNAL_ID: nat := 4

  predicate IsJsSpace(c: char) {
    || '\t' <= c <= '\r' || c == ' ' || c == '\U{A0}' || c == '\U{1680}' || '\U{2000}' <= c <= '\U{200A}'
    || c == '\U{2028}' || c == '\U{2029}' || c == '\U{202F}' || c == '\U{205F}' || c == '\U{3000}' || c == '\U{FEFF}'
  }

  predicate IsPgSpace(c: char) {
    c == ' '
  }

  function DropLeft(s: string, space: char -> bool): string {
    if s != "" && space(s[0]) then DropLeft(s[1..], space) else s
  }

  function DropRight(s: string, space: char -> bool): string {
    if s != "" && space(s[|s| - 1]) then DropRight(s[..|s| - 1], space) else s
  }

  function JsTrim(s: string): string {
    DropRight(DropLeft(s, IsJsSpace), IsJsSpace)
  }

  function PgTrim(s: string): string {
    DropRight(DropLeft(s, IsPgSpace), IsPgSpace)
  }

  function LowerChar(c: char): char {
    if 'A' <= c <= 'Z' then c - 'A' + 'a' else c
  }

  function Lower(s: string): (r: string)
    ensures |r| == |s|
  {
    seq(|s|, i requires 0 <= i < |s| => LowerChar(s[i]))
  }

  /** What the service calls blank. */
  predicate Blank(s: string) {
    JsTrim(s) == ""
  }

  /** The service's normalization of a key or unique value of field `f`. */
  function JsNorm(f: nat, v: string): string {
    if f == EMAIL then Lower(JsTrim(v)) else if f == EXTERNAL_ID then JsTrim(v) else v
  }

  /** What the generated column of field `f` stores for text `v`, before `nullif(..., '')`. */
  function PgNorm(f: nat, v: string): string {
    if f == EMAIL then Lower(PgTrim(v)) else PgTrim(v)
  }

  /** The service and the generated column read the value the same way. */
  predicate Plain(f: nat, v: string) {
    f == EMAIL || f == EXTERNAL_ID ==> JsNorm(f, v) == PgNorm(f, v)
  }

  // ---- what trimming and case folding come to

  predicate AllSpaces(s: string, space: char -> bool) {
    forall i :: 0 <= i < |s| ==> space(s[i])
  }

  /** Begins and ends with other characters, or is empty. */
  predicate Bare(s: string, space: char -> bool) {
    s != "" ==> !space(s[0]) && !space(s[|s| - 1])
  }

  lemma {:induction false} LeftDropped(l: string, m: string, space: char -> bool)
    requires AllSpaces(l, space) && (m != "" ==> !space(m[0]))
    ensures DropLeft(l + m, space) == m
  {
    if l == "" {
      assert l + m == m;
    } else {
      assert (l + m)[0] == l[0] && (l + m)[1..] == l[1..] + m;
      LeftDropped(l[1..], m, space);
    }
  }

  lemma {:induction false} RightDropped(m: string, r: string, space: char -> bool)
    requires AllSpaces(r, space) && (m != "" ==> !space(m[|m| - 1]))
    ensures DropRight(m + r, space) == m
  {
    if r == "" {
      assert m + r == m;
    } else {
      var n := |r| - 1;
      assert (m + r)[|m| + n] == r[n] && (m + r)[..|m| + n] == m + r[..n];
      RightDropped(m, r[..n], space);
    }
  }

  lemma Dropped(l: string, m: string, r: string, space: char -> bool)
    requires AllSpaces(l, space) && AllSpaces(r, space) && Bare(m, space)
    ensures DropRight(DropLeft(l + (m + r), space), space) == m
  {
    if m == "" {
      assert l + (m + r) == (l + r) + "";
      LeftDropped(l + r, "", space);
    } else {
      LeftDropped(l, m + r, space);
      RightDropped(m, r, space);
    }
  }

  /** JavaScript's white space and line terminators by their code points. */
  function JsSpaces(): set<int> {
    {9, 10, 11, 12, 13, 32, 160, 0x1680, 0x2000, 0x2001, 0x2002, 0x2003, 0x2004, 0x2005, 0x2006, 0x2007, 0x2008,
     0x2009, 0x200A, 0x2028, 0x2029, 0x202F, 0x205F, 0x3000, 0xFEFF}
  }

  predicate Around(s: string, l: string, m: string, r: string, spaces: set<int>) {
    && s == l + (m + r)
    && (forall i :: 0 <= i < |l| ==> l[i] as int in spaces) && (forall i :: 0 <= i < |r| ==> r[i] as int in spaces)
    && (m != "" ==> m[0] as int !in spaces && m[|m| - 1] as int !in spaces)
  }

  /** Main result: whatever white space surrounds a text, trimming leaves the text; PostgreSQL's takes spaces alone. */
  lemma TrimIs(s: string, l: string, m: string, r: string)
    ensures Around(s, l, m, r, JsSpaces()) ==> JsTrim(s) == m
    ensures Around(s, l, m, r, {32}) ==> PgTrim(s) == m
  {
    if Around(s, l, m, r, JsSpaces()) {
      Dropped(l, m, r, IsJsSpace);
    }
    if Around(s, l, m, r, {32}) {
      Dropped(l, m, r, IsPgSpace);
    }
  }

  predicate SameLetter(a: char, b: char) {
    || a == b
    || ('A' <= a <= 'Z' && b as int == a as int + 32)
    || ('A' <= b <= 'Z' && a as int == b as int + 32)
  }

  /** The same text but for the case of ASCII letters. */
  predicate SameButCase(a: string, b: string) {
    |a| == |b| && forall i :: 0 <= i < |a| ==> SameLetter(a[i], b[i])
  }

  lemma LowerExactly(a: string, b: string)
    ensures Lower(a) == Lower(b) <==> SameButCase(a, b)
  {
    if SameButCase(a, b) {
      assert forall i :: 0 <= i < |a| ==> SameLetter(a[i], b[i]) && Lower(a)[i] == Lower(b)[i];
    }
    if Lower(a) == Lower(b) {
      forall i | 0 <= i < |a| ensures SameLetter(a[i], b[i]) {
        assert Lower(a)[i] == LowerChar(a[i]) && Lower(b)[i] == LowerChar(b[i]);
      }
    }
  }

  /**
   Main result: when two texts are one key. Emails, if they differ in case and surrounding white space at most;
   external IDs, if they differ in surrounding white space at most; other values, if they are the same.
   */
  lemma SameKeyExactly(f: nat, v: string, w: string)
    ensures JsNorm(f, v) == JsNorm(f, w) <==>
      if f == 3 then SameButCase(JsTrim(v), JsTrim(w)) else if f == 4 then JsTrim(v) == JsTrim(w) else v == w
    ensures f == 3 || f == 4 ==>
      (PgNorm(f, w) == JsNorm(f, v) <==>
        if f == 3 then SameButCase(PgTrim(w), JsTrim(v)) else PgTrim(w) == JsTrim(v))
  {
    LowerExactly(JsTrim(v), JsTrim(w));
    LowerExactly(PgTrim(w), JsTrim(v));
  }

  lemma NonBlankNorm(f: nat, v: string)
    requires !Blank(v)
    ensures JsNorm(f, v) != ""
  {
    if f != EMAIL && f != EXTERNAL_ID {
      assert v == "" ==> JsTrim(v) == "";
    }
  }
}
