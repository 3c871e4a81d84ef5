/** Guessing the encoding and the delimiter of a file from its first bytes. */
module Sniff {
  import opened Utf8

  datatype Encoding = Utf8 | Latin1

  const BOM: seq<Byte> := [0xEF, 0xBB, 0xBF]
  const QUOTE: Byte := 0x22
  const NEWLINE: Byte := 0x0A
  const COMMA: Byte := 0x2C

  /** Comma, semicolon, tab and bar, in order of preference. */
  const DELIMITERS: seq<Byte> := [COMMA, 0x3B, 0x09, 0x7C]

  function Trimmed(s: seq<Byte>): seq<Byte> {
    if |s| >= 3 && s[..3] == BOM then s[3..] else s
  }

  /** At most four bytes off the end leave well-formed UTF-8. */
  ghost predicate ValidButForTail(s: seq<Byte>) {
    exists n :: 0 <= n <= |s| <= n + 4 && IsValid(s[..n])
  }

  /** How often a byte stands outside quotes on the rest of the first line. */
  function Tally(s: seq<Byte>, quoted: bool, d: Byte): nat {
    if s == [] then 0
    else if s[0] == QUOTE then Tally(s[1..], !quoted, d)
    else if s[0] == NEWLINE && !quoted then 0
    else (if !quoted && s[0] == d then 1 else 0) + Tally(s[1..], quoted, d)
  }

  function Count(s: seq<Byte>, d: Byte): nat {
    Tally(Trimmed(s), false, d)
  }

  function Get(counts: map<Byte, nat>, b: Byte): nat {
    if b in counts then counts[b] else 0
  }

  /**
   The candidate seen most on the first line outside quotes, the first of those as frequent, the comma if none is
   seen.
   */
  ghost predicate Preferred(s: seq<Byte>, delimiter: Byte) {
    exists i :: 0 <= i < |DELIMITERS| && BestAt(s, i) && delimiter == DELIMITERS[i]
  }

  ghost predicate BestAt(s: seq<Byte>, i: nat)
    requires i < |DELIMITERS|
  {
    && (forall j :: 0 <= j < |DELIMITERS| ==> Count(s, DELIMITERS[j]) <= Count(s, DELIMITERS[i]))
    && (forall j :: 0 <= j < i ==> Count(s, DELIMITERS[j]) < Count(s, DELIMITERS[i]))
  }

  method Shorten(sample: seq<Byte>, truncated: bool) returns (valid: seq<Byte>)
    ensures !truncated ==> valid == sample
    ensures truncated ==> (IsValid(valid) <==> ValidButForTail(sample))
  {
    valid := sample;
    var i := 0;
    while truncated && i < 4 && !IsValid(valid) && |valid| > 0
      invariant i <= 4 && i <= |sample| && valid == sample[..|sample| - i]
      invariant forall n :: |sample| - i < n <= |sample| ==> !IsValid(sample[..n])
      invariant !truncated ==> i == 0
      decreases 4 - i
    {
      valid := valid[..|valid| - 1];
      i := i + 1;
    }
    assert IsValid([]);
  }

  method Counts(sample: seq<Byte>) returns (counts: map<Byte, nat>)
    ensures forall d: Byte :: d != QUOTE && d != NEWLINE ==> Get(counts, d) == Tally(sample, false, d)
  {
    counts := map[];
    var quoted, i := false, 0;
    while i < |sample|
      invariant i <= |sample|
      invariant forall d: Byte :: d != QUOTE && d != NEWLINE ==>
        Get(counts, d) + Tally(sample[i..], quoted, d) == Tally(sample, false, d)
    {
      var b := sample[i];
      assert sample[i..][1..] == sample[i + 1..];
      if b == QUOTE {
        quoted := !quoted;
      } else if b == NEWLINE && !quoted {
        return;
      } else if !quoted {
        counts := counts[b := Get(counts, b) + 1];
      }
      i := i + 1;
    }
  }

  method Sniff(sample: seq<Byte>, truncated: bool) returns (delimiter: Byte, encoding: Encoding)
    ensures Preferred(sample, delimiter)
    ensures encoding == Utf8 <==> if truncated then ValidButForTail(Trimmed(sample)) else IsValid(sample)
  {
    var rest := if |sample| >= 3 && sample[..3] == BOM then sample[3..] else sample;
    TrimKeeps(sample);
    var valid := Shorten(rest, truncated);
    encoding := if IsValid(valid) then Utf8 else Latin1;
    var counts := Counts(rest);
    delimiter := COMMA;
    var best, i := 0, 0;
    ghost var at := 0;
    while i < |DELIMITERS|
      invariant i <= |DELIMITERS| && at < |DELIMITERS| && delimiter == DELIMITERS[at]
      invariant best > 0 ==> at < i
      invariant best == 0 ==> at == 0
      invariant i > 0 ==> best == Count(sample, DELIMITERS[at])
      invariant forall j :: 0 <= j < i ==> Count(sample, DELIMITERS[j]) <= best
      invariant forall j :: 0 <= j < at ==> Count(sample, DELIMITERS[j]) < best
    {
      var d := DELIMITERS[i];
      assert Get(counts, d) == Count(sample, d);
      if Get(counts, d) > best {
        delimiter, best := d, Get(counts, d);
        at := i;
      }
      i := i + 1;
    }
    assert BestAt(sample, at);
  }

  /** A byte order mark is a character: trimming it neither mends nor breaks a file. */
  lemma TrimKeeps(s: seq<Byte>)
    ensures IsValid(s) <==> IsValid(Trimmed(s))
  {
    if Trimmed(s) != s {
      assert s == BOM + Trimmed(s);
      BomIsValid();
      ValidConcat(BOM, Trimmed(s));
    }
  }

  // ---- a cut sample

  /** What does not decode behind the byte order mark. */
  function Tail(sample: seq<Byte>): seq<Byte> {
    Rest(Trimmed(sample))
  }

  /** The method's answer for a cut sample, by the length of that tail. */
  lemma ShortTailExactly(sample: seq<Byte>)
    ensures ValidButForTail(Trimmed(sample)) <==> |Tail(sample)| <= 4
  {
    var s := Trimmed(sample);
    DecodedIsLongest(s, 0);
    if ValidButForTail(s) {
      var n :| 0 <= n <= |s| <= n + 4 && IsValid(s[..n]);
      DecodedIsLongest(s, n);
    }
  }

  /** Well-formed files start exactly like this: text, and at the end at most a part of a character. */
  lemma StartsFileExactly(sample: seq<Byte>)
    ensures StartsText(sample) <==> IsPartial(Tail(sample))
  {
    StartsTextExactly(sample);
    TailIsRest(sample);
  }

  /** Main result: the start of a well-formed file is taken for UTF-8 wherever it is cut. */
  lemma CutFileIsUtf8(file: seq<Byte>, n: nat)
    requires WellFormed(file) && n <= |file|
    ensures ValidButForTail(Trimmed(file[..n]))
  {
    assert StartsText(file[..n]);
    StartsFileExactly(file[..n]);
    ShortTailExactly(file[..n]);
  }

  /**
   Main result, exact: a cut sample is taken for UTF-8 although no well-formed file starts with it if and
   only if its tail is at most four bytes long and no part of a character.
   */
  lemma MisledExactly(sample: seq<Byte>)
    ensures ValidButForTail(Trimmed(sample)) && !StartsText(sample) <==> |Tail(sample)| <= 4 && !IsPartial(Tail(sample))
  {
    ShortTailExactly(sample);
    StartsFileExactly(sample);
  }

  /** The fourth byte dropped gains nothing: a tail of four is never a part of a character. */
  lemma FourthDropGainsNothing(sample: seq<Byte>)
    ensures StartsText(sample) ==> |Tail(sample)| <= 3
    ensures |Tail(sample)| == 4 ==> ValidButForTail(Trimmed(sample)) && !StartsText(sample)
  {
    ShortTailExactly(sample);
    StartsFileExactly(sample);
  }

  lemma BomIsValid()
    ensures IsValid(BOM)
  {
    assert IsChar(BOM) && BOM + [] == BOM;
    ValidHead(BOM, []);
  }

  /** A byte order mark decodes, so the tail is what does not decode of the whole sample. */
  lemma TailIsRest(sample: seq<Byte>)
    ensures Tail(sample) == Rest(sample)
  {
    if Trimmed(sample) != sample {
      assert sample == BOM + Trimmed(sample);
      BomIsValid();
      RestConcat(BOM, Trimmed(sample));
    }
  }

  /** One to four stray bytes at the end of any text mislead it. */
  lemma StrayBytesMislead(s: seq<Byte>, stray: seq<Byte>)
    requires IsValid(s) && 1 <= |stray| <= 4 && stray[0] == 0xFF
    ensures Tail(s + stray) == stray
    ensures ValidButForTail(Trimmed(s + stray)) && !StartsText(s + stray)
  {
    assert Rest(stray) == stray[0..];
    RestConcat(s, stray);
    TailIsRest(s + stray);
    MisledExactly(s + stray);
  }

  /** Main result: an uncut sample is taken for UTF-8 exactly if it is well-formed. */
  lemma WholeFileExactly(sample: seq<Byte>)
    ensures IsValid(Trimmed(sample)) <==> WellFormed(sample)
  {
    TrimKeeps(sample);
    ValidExactly(sample);
  }

  /** What a quoted field holds never counts, not even its line breaks. */
  lemma {:induction false} QuotedIsIgnored(field: seq<Byte>, rest: seq<Byte>, d: Byte)
    requires QUOTE !in field
    ensures Tally([QUOTE] + field + [QUOTE] + rest, false, d) == Tally(rest, false, d)
  {
    var s := field + [QUOTE] + rest;
    assert ([QUOTE] + field + [QUOTE] + rest)[1..] == s;
    InsideIsIgnored(field, rest, d);
  }

  lemma {:induction false} InsideIsIgnored(field: seq<Byte>, rest: seq<Byte>, d: Byte)
    requires QUOTE !in field
    ensures Tally(field + [QUOTE] + rest, true, d) == Tally(rest, false, d)
  {
    var s := field + [QUOTE] + rest;
    if field == [] {
      assert s[0] == QUOTE && s[1..] == rest;
    } else {
      assert s[0] == field[0] && s[1..] == field[1..] + [QUOTE] + rest;
      InsideIsIgnored(field[1..], rest, d);
    }
  }

  // ---- the first line

  /** An odd number of quotes stands before position `i`. */
  predicate Inside(s: seq<Byte>, i: nat)
    requires i <= |s|
  {
    multiset(s[..i])[34] % 2 == 1
  }

  /** Every line break is quoted. */
  predicate OneLine(s: seq<Byte>) {
    forall i :: 0 <= i < |s| && s[i] == 10 ==> Inside(s, i)
  }

  /** How often a byte stands outside quotes, whatever lines there are. */
  function Outside(s: seq<Byte>, d: Byte): nat {
    if s == [] then 0
    else
      var n := |s| - 1;
      Outside(s[..n], d) + (if s[n] == d && !Inside(s, n) then 1 else 0)
  }

  lemma OneByteMore(s: seq<Byte>, n: nat)
    requires n + 1 == |s| && OneLine(s)
    ensures OneLine(s[..n]) && (s[n] == 10 ==> Inside(s, n))
    ensures Inside(s, n) <==> Inside(s[..n], n)
    ensures Inside(s, |s|) <==> Inside(s, n) != (s[n] == 34)
  {
    assert forall i :: 0 <= i <= n ==> s[..n][..i] == s[..i];
    assert s[..|s|] == s[..n] + [s[n]];
  }

  lemma {:induction false} TallyPasses(line: seq<Byte>, rest: seq<Byte>, d: Byte)
    requires OneLine(line) && d != 34
    ensures Tally(line + rest, false, d) == Outside(line, d) + Tally(rest, Inside(line, |line|), d)
  {
    if line == [] {
      assert line + rest == rest && line[..0] == [];
    } else {
      var n := |line| - 1;
      var more := [line[n]] + rest;
      OneByteMore(line, n);
      TallyPasses(line[..n], more, d);
      assert line[..n] + more == line + rest;
      assert more[1..] == rest;
    }
  }

  /**
   Main result: the delimiter is sought on the first line alone. What stands behind the first line break outside
   quotes adds nothing, and of the line counts what stands outside quotes.
   */
  lemma FirstLineDecides(line: seq<Byte>, rest: seq<Byte>, d: Byte)
    requires OneLine(line) && !Inside(line, |line|) && d != 34
    ensures Tally(line + ([10] + rest), false, d) == Outside(line, d)
  {
    TallyPasses(line, [10] + rest, d);
    assert ([10] + rest)[0] == 10;
  }

  /** A sample without such a line break counts as a whole. */
  lemma OnlyLineDecides(line: seq<Byte>, d: Byte)
    requires OneLine(line) && d != 34
    ensures Tally(line, false, d) == Outside(line, d)
  {
    TallyPasses(line, [], d);
    assert line + [] == line;
  }

  /** The delimiter by its byte: comma, semicolon, tab or bar, each before the next unless that is seen more. */
  lemma DelimiterIs(s: seq<Byte>, delimiter: Byte)
    requires Preferred(s, delimiter)
    ensures delimiter == 44 || delimiter == 59 || delimiter == 9 || delimiter == 124
    ensures Count(s, 44) <= Count(s, delimiter) && Count(s, 59) <= Count(s, delimiter)
    ensures Count(s, 9) <= Count(s, delimiter) && Count(s, 124) <= Count(s, delimiter)
    ensures delimiter != 44 ==> Count(s, 44) < Count(s, delimiter)
    ensures delimiter == 9 || delimiter == 124 ==> Count(s, 59) < Count(s, delimiter)
    ensures delimiter == 124 ==> Count(s, 9) < Count(s, delimiter)
  {
    var i :| 0 <= i < |DELIMITERS| && BestAt(s, i) && delimiter == DELIMITERS[i];
    assert forall j :: 0 <= j < |DELIMITERS| ==> Count(s, DELIMITERS[j]) <= Count(s, DELIMITERS[i]);
    assert DELIMITERS[0] == 44 && DELIMITERS[1] == 59 && DELIMITERS[2] == 9 && DELIMITERS[3] == 124;
  }
}
