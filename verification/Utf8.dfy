/** Well-formed UTF-8: the grammar of RFC 3629, section 4, and the decoder's left-to-right check. */
module Utf8 {
  type Byte = b: nat | b < 0x100

  predicate IsTail(b: Byte) {
    0x80 <= b <= 0xBF
  }

  /** UTF8-char, alternative by alternative. */
  predicate IsChar(c: seq<Byte>) {
    || (|c| == 1 && c[0] <= 0x7F)
    || (|c| == 2 && 0xC2 <= c[0] <= 0xDF && IsTail(c[1]))
    || (|c| == 3 && c[0] == 0xE0 && 0xA0 <= c[1] <= 0xBF && IsTail(c[2]))
    || (|c| == 3 && 0xE1 <= c[0] <= 0xEC && IsTail(c[1]) && IsTail(c[2]))
    || (|c| == 3 && c[0] == 0xED && 0x80 <= c[1] <= 0x9F && IsTail(c[2]))
    || (|c| == 3 && 0xEE <= c[0] <= 0xEF && IsTail(c[1]) && IsTail(c[2]))
    || (|c| == 4 && c[0] == 0xF0 && 0x90 <= c[1] <= 0xBF && IsTail(c[2]) && IsTail(c[3]))
    || (|c| == 4 && 0xF1 <= c[0] <= 0xF3 && IsTail(c[1]) && IsTail(c[2]) && IsTail(c[3]))
    || (|c| == 4 && c[0] == 0xF4 && 0x80 <= c[1] <= 0x8F && IsTail(c[2]) && IsTail(c[3]))
  }

  function Flatten(chars: seq<seq<Byte>>): seq<Byte> {
    if chars == [] then [] else chars[0] + Flatten(chars[1..])
  }

  ghost predicate AllChars(chars: seq<seq<Byte>>) {
    forall c :: c in chars ==> IsChar(c)
  }

  /** UTF8-octets: any number of characters. */
  ghost predicate WellFormed(s: seq<Byte>) {
    exists chars :: AllChars(chars) && Flatten(chars) == s
  }

  /** Length the first byte announces, 0 if no character starts with it. */
  function Announced(b: Byte): nat {
    if b <= 0x7F then 1
    else if 0xC2 <= b <= 0xDF then 2
    else if 0xE0 <= b <= 0xEF then 3
    else if 0xF0 <= b <= 0xF4 then 4
    else 0
  }

  /** The check the decoder makes: one character after the other from the left. */
  predicate IsValid(s: seq<Byte>) {
    s == [] ||
    (var n := Announced(s[0]);
     n > 0 && n <= |s| && IsChar(s[..n]) && IsValid(s[n..]))
  }

  lemma {:induction false} ValidIsWellFormed(s: seq<Byte>)
    requires IsValid(s)
    ensures WellFormed(s)
  {
    if s == [] {
      assert AllChars([]) && Flatten([]) == s;
    } else {
      var n := Announced(s[0]);
      ValidIsWellFormed(s[n..]);
      var rest :| AllChars(rest) && Flatten(rest) == s[n..];
      var chars := [s[..n]] + rest;
      assert chars[1..] == rest;
      assert Flatten(chars) == s;
    }
  }

  /** The first byte of a character announces its length. */
  lemma CharLength(c: seq<Byte>)
    requires IsChar(c)
    ensures 1 <= |c| <= 4 && Announced(c[0]) == |c|
  {
  }

  lemma ValidHead(c: seq<Byte>, s: seq<Byte>)
    requires IsChar(c)
    ensures IsValid(c + s) <==> IsValid(s)
  {
    CharLength(c);
    assert (c + s)[..|c|] == c && (c + s)[|c|..] == s && (c + s)[0] == c[0];
  }

  /** Checking and the grammar agree. */
  lemma {:induction false} FlattenIsValid(chars: seq<seq<Byte>>)
    requires AllChars(chars)
    ensures IsValid(Flatten(chars))
  {
    if chars != [] {
      assert chars[0] in chars;
      FlattenIsValid(chars[1..]);
      ValidHead(chars[0], Flatten(chars[1..]));
    }
  }

  lemma ValidExactly(s: seq<Byte>)
    ensures IsValid(s) <==> WellFormed(s)
  {
    if IsValid(s) {
      ValidIsWellFormed(s);
    }
    if WellFormed(s) {
      var chars :| AllChars(chars) && Flatten(chars) == s;
      FlattenIsValid(chars);
    }
  }

  // ---- the start of a text

  /** What the second byte of a character may be, by its first. */
  predicate IsSecond(a: Byte, b: Byte) {
    if a == 0xE0 then 0xA0 <= b <= 0xBF
    else if a == 0xED then 0x80 <= b <= 0x9F
    else if a == 0xF0 then 0x90 <= b <= 0xBF
    else if a == 0xF4 then 0x80 <= b <= 0x8F
    else IsTail(b)
  }

  /** Nothing, or the first one to three bytes of a longer character. */
  predicate IsPartial(t: seq<Byte>) {
    t == [] ||
    (&& |t| < Announced(t[0])
     && (|t| >= 2 ==> IsSecond(t[0], t[1]))
     && (|t| >= 3 ==> IsTail(t[2])))
  }

  /** The bytes that complete it. */
  function Completion(t: seq<Byte>): seq<Byte>
    requires t != [] && IsPartial(t)
  {
    var second: Byte := if t[0] in {0xE0, 0xF0} then 0xA0 else 0x80;
    var full := t + (if |t| == 1 then [second] else []);
    if Announced(t[0]) == 2 then full
    else if Announced(t[0]) == 3 then full + [0x80]
    else full + (if |full| == 2 then [0x80, 0x80] else [0x80])
  }

  lemma PartialExactly(t: seq<Byte>)
    ensures IsPartial(t) <==> exists c :: IsChar(c) && |t| < |c| && t == c[..|t|]
  {
    if t == [] {
      var c := [0x00];
      assert IsChar(c) && t == c[..|t|];
    } else if IsPartial(t) {
      var c := Completion(t);
      assert IsChar(c) && t == c[..|t|];
    }
  }

  /** How many bytes decode from the left. */
  function Decoded(s: seq<Byte>): (r: nat)
    ensures r <= |s|
  {
    if s == [] then 0
    else
      var n := Announced(s[0]);
      if n > 0 && n <= |s| && IsChar(s[..n]) then n + Decoded(s[n..]) else 0
  }

  /** What is left when no character decodes any more. */
  function Rest(s: seq<Byte>): seq<Byte> {
    s[Decoded(s)..]
  }

  /** The decoded bytes are the rest of the decoding after the first character. */
  lemma DecodedStep(c: seq<Byte>, s: seq<Byte>)
    requires IsChar(c)
    ensures Decoded(c + s) == |c| + Decoded(s) && Rest(c + s) == Rest(s)
    ensures (c + s)[..Decoded(c + s)] == c + s[..Decoded(s)]
  {
    CharLength(c);
    assert (c + s)[..|c|] == c && (c + s)[|c|..] == s && (c + s)[0] == c[0];
  }

  lemma {:induction false} DecodedIsValid(s: seq<Byte>)
    ensures IsValid(s[..Decoded(s)])
  {
    if Decoded(s) > 0 {
      var m := Announced(s[0]);
      var c, rest := s[..m], s[m..];
      assert s == c + rest;
      DecodedIsValid(rest);
      DecodedStep(c, rest);
      ValidHead(c, rest[..Decoded(rest)]);
    }
  }

  lemma {:induction false} ValidConcat(a: seq<Byte>, b: seq<Byte>)
    requires IsValid(a)
    ensures IsValid(a + b) <==> IsValid(b)
  {
    if a == [] {
      assert a + b == b;
    } else {
      var n := Announced(a[0]);
      ValidConcat(a[n..], b);
      assert a + b == a[..n] + (a[n..] + b);
      ValidHead(a[..n], a[n..] + b);
    }
  }

  lemma Regrouped(c: seq<Byte>, rest: seq<Byte>, b: seq<Byte>)
    ensures (c + rest) + b == c + (rest + b)
  {
  }

  lemma {:induction false} DecodedConcat(a: seq<Byte>, b: seq<Byte>)
    requires IsValid(a)
    ensures Decoded(a + b) == |a| + Decoded(b)
  {
    if a == [] {
      assert a + b == b;
    } else {
      var c, rest := FirstChar(a);
      DecodedConcat(rest, b);
      Regrouped(c, rest, b);
      DecodedStep(c, rest + b);
    }
  }

  lemma FirstChar(a: seq<Byte>) returns (c: seq<Byte>, rest: seq<Byte>)
    requires IsValid(a) && a != []
    ensures a == c + rest && c != [] && IsChar(c) && IsValid(rest)
  {
    c, rest := a[..Announced(a[0])], a[Announced(a[0])..];
  }

  lemma RestConcat(a: seq<Byte>, b: seq<Byte>)
    requires IsValid(a)
    ensures Rest(a + b) == Rest(b)
  {
    DecodedConcat(a, b);
  }

  lemma ValidIsDecoded(head: seq<Byte>, tail: seq<Byte>)
    ensures IsValid(head) ==> |head| <= Decoded(head + tail)
  {
    if IsValid(head) {
      DecodedConcat(head, tail);
    }
  }

  /** They are the longest prefix that is well-formed. */
  lemma DecodedIsLongest(s: seq<Byte>, n: nat)
    requires n <= |s|
    ensures IsValid(s[..Decoded(s)])
    ensures IsValid(s[..n]) ==> n <= Decoded(s)
  {
    DecodedIsValid(s);
    var head, tail := s[..n], s[n..];
    assert s == head + tail;
    ValidIsDecoded(head, tail);
  }

  /** Some well-formed text begins with `s`. */
  ghost predicate StartsText(s: seq<Byte>) {
    exists text :: WellFormed(text) && |s| <= |text| && s == text[..|s|]
  }

  lemma CutCharIsPart(c: seq<Byte>, n: nat)
    requires IsChar(c) && n < |c|
    ensures IsPartial(c[..n]) && Rest(c[..n]) == c[..n]
  {
    PartialExactly(c[..n]);
    CharLength(c);
    assert n > 0 ==> c[..n][0] == c[0];
  }

  /** Cut anywhere, a well-formed text leaves a part of a character at most. */
  lemma {:induction false} CutLeavesPart(text: seq<Byte>, n: nat)
    requires IsValid(text) && n <= |text|
    ensures IsPartial(Rest(text[..n]))
  {
    if n > 0 {
      var m := Announced(text[0]);
      var c, rest := text[..m], text[m..];
      if n < m {
        assert text[..n] == c[..n];
        CutCharIsPart(c, n);
      } else {
        assert text[..n] == c + rest[..n - m];
        DecodedStep(c, rest[..n - m]);
        CutLeavesPart(rest, n - m);
      }
    }
  }

  lemma StartLeavesPart(s: seq<Byte>)
    requires StartsText(s)
    ensures IsPartial(Rest(s))
  {
    var text :| WellFormed(text) && |s| <= |text| && s == text[..|s|];
    ValidExactly(text);
    CutLeavesPart(text, |s|);
  }

  lemma CharIsValid(c: seq<Byte>)
    requires IsChar(c)
    ensures IsValid(c)
  {
    ValidHead(c, []);
    assert c + [] == c;
  }

  /** Completed, the part makes a text of what stands before it. */
  lemma PartStartsText(s: seq<Byte>, head: seq<Byte>, part: seq<Byte>)
    requires IsValid(head) && IsPartial(part) && s == head + part
    ensures StartsText(s)
  {
    PartialExactly(part);
    var c :| IsChar(c) && |part| < |c| && part == c[..|part|];
    var text := head + c;
    CharIsValid(c);
    ValidConcat(head, c);
    ValidExactly(text);
    assert text[..|s|] == s;
  }

  /** Exactly the starts of well-formed texts decode up to a part of a character. */
  lemma StartsTextExactly(s: seq<Byte>)
    ensures StartsText(s) <==> IsPartial(Rest(s))
  {
    if StartsText(s) {
      StartLeavesPart(s);
    }
    if IsPartial(Rest(s)) {
      DecodedIsValid(s);
      PartStartsText(s, s[..Decoded(s)], Rest(s));
    }
  }

  // ---- code points

  /** The code points with a character: all of Unicode but the surrogates. */
  predicate IsScalar(n: nat) {
    n <= 0x10FFFF && !(0xD800 <= n <= 0xDFFF)
  }

  /** The bits of a code point, six to a tail byte (section 3 of RFC 3629). */
  function Encoded(n: nat): seq<int> {
    if n < 0x80 then [n]
    else if n < 0x800 then [0xC0 + n / 64, 0x80 + n % 64]
    else if n < 0x10000 then [0xE0 + n / 64 / 64, 0x80 + n / 64 % 64, 0x80 + n % 64]
    else [0xF0 + n / 64 / 64 / 64, 0x80 + n / 64 / 64 % 64, 0x80 + n / 64 % 64, 0x80 + n % 64]
  }

  lemma Split64(n: nat)
    ensures n == 64 * (n / 64) + n % 64 && 0 <= n % 64 < 64
  {
  }

  lemma ScalarIsChar(n: nat)
    requires IsScalar(n)
    ensures (forall b :: b in Encoded(n) ==> 0 <= b < 0x100) && IsChar(Encoded(n))
  {
    Split64(n);
    Split64(n / 64);
    Split64(n / 64 / 64);
  }

  lemma Joined(high: nat, low: nat)
    requires low < 64
    ensures (64 * high + low) / 64 == high && (64 * high + low) % 64 == low
  {
  }

  lemma TwoBytes(c: seq<Byte>) returns (n: nat)
    requires IsChar(c) && |c| == 2
    ensures IsScalar(n) && c == Encoded(n)
  {
    var a: int, b: int := c[0] - 0xC0, c[1] - 0x80;
    n := 64 * a + b;
    Joined(a, b);
  }

  lemma ThreeBytes(c: seq<Byte>) returns (n: nat)
    requires IsChar(c) && |c| == 3
    ensures IsScalar(n) && c == Encoded(n)
  {
    var a: int, b: int, d: int := c[0] - 0xE0, c[1] - 0x80, c[2] - 0x80;
    n := 64 * (64 * a + b) + d;
    Joined(a, b);
    Joined(64 * a + b, d);
  }

  lemma FourBytes(c: seq<Byte>) returns (n: nat)
    requires IsChar(c) && |c| == 4
    ensures IsScalar(n) && c == Encoded(n)
  {
    var a: int, b: int, d: int, e: int := c[0] - 0xF0, c[1] - 0x80, c[2] - 0x80, c[3] - 0x80;
    n := 64 * (64 * (64 * a + b) + d) + e;
    Joined(a, b);
    Joined(64 * a + b, d);
    Joined(64 * (64 * a + b) + d, e);
  }

  /** Main result: the characters are exactly the code points of Unicode but the surrogates, in their shortest form. */
  lemma CharsAreScalars(c: seq<Byte>)
    ensures IsChar(c) <==> exists n: nat :: IsScalar(n) && c == Encoded(n)
  {
    if IsChar(c) {
      if |c| == 1 {
        assert IsScalar(c[0]) && c == Encoded(c[0]);
      } else if |c| == 2 {
        var n := TwoBytes(c);
      } else if |c| == 3 {
        var n := ThreeBytes(c);
      } else {
        var n := FourBytes(c);
      }
    }
    if n: nat :| IsScalar(n) && c == Encoded(n) {
      ScalarIsChar(n);
    }
  }
}
