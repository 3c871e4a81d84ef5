/** What a field takes and how it reads it, spelled out without the functions that normalize a value. */
module ValueRules {
  import opened Wrappers
  import opened Text
  import opened FieldValues
  import opened StoredText

  // ---- values taken as they are

  /** Null removes any value; text and dates are kept to the letter. */
  lemma KeptAsSent(def: FieldDef, raw: Raw)
    requires raw.JNull? || def.fieldType in {FieldType.Text, DateOnly}
    ensures NormalizeValue(def, raw) == Ok(None) <==> raw.JNull?
    ensures forall s :: raw == JStr(s) && def.fieldType.Text? ==> NormalizeValue(def, raw) == Ok(Some(TextValue(s)))
    ensures forall s :: raw == JStr(s) && def.fieldType.DateOnly? && IsCalendarDate(s) ==>
      NormalizeValue(def, raw) == Ok(Some(Date(s)))
    ensures NormalizeValue(def, raw).Err? <==>
      !raw.JNull? && !(raw.JStr? && (def.fieldType.DateOnly? ==> IsCalendarDate(raw.s)))
    ensures NormalizeValue(def, raw).Err? ==> NormalizeValue(def, raw) == Err(2010)
  {
  }

  // ---- booleans

  /** JavaScript's `String(raw)` of a scalar. */
  function Printed(raw: Raw): Option<string> {
    match raw
    case JBool(b) => Some(if b then "true" else "false")
    case JNum(n) => Some(DecimalText(n))
    case JMinusZero => Some("0")
    case JStr(s) => Some(s)
    case _ => None
  }

  lemma PrintedOnce(n: Decimal, m: Decimal)
    requires n.Shortest() && m.Shortest() && !Exponential(m) && DecimalText(n) == DecimalText(m)
    ensures n == m
  {
    NumberRoundTrip(n);
    NumberRoundTrip(m);
  }

  lemma ZeroAndOne()
    ensures DecimalText(ZERO) == "0" && DecimalText(Decimal(1, 0)) == "1"
    ensures !Exponential(ZERO) && !Exponential(Decimal(1, 0))
  {
    assert NatText(1) == "1" && NatText(0) == "0" && PadLeft("1", 1) == "1" && PadLeft("0", 1) == "0";
  }

  /** Main result: a boolean field takes exactly what prints as `true` or `1`, and as `false` or `0`. */
  lemma BooleanExactly(def: FieldDef, raw: Raw)
    requires def.fieldType.Boolean? && !raw.JNull? && (raw.JNum? ==> raw.n.Shortest())
    ensures NormalizeValue(def, raw) == Ok(Some(Flag(true))) <==> Printed(raw) in {Some("true"), Some("1")}
    ensures NormalizeValue(def, raw) == Ok(Some(Flag(false))) <==> Printed(raw) in {Some("false"), Some("0")}
    ensures Printed(raw) !in {Some("true"), Some("1"), Some("false"), Some("0")} ==>
      NormalizeValue(def, raw) == Err(2010)
  {
    ZeroAndOne();
    if raw.JNum? {
      if DecimalText(raw.n) == "0" {
        PrintedOnce(raw.n, ZERO);
      } else if DecimalText(raw.n) == "1" {
        PrintedOnce(raw.n, Decimal(1, 0));
      }
      NumberNoWord(raw.n);
    }
  }

  /** No number prints as a word. */
  lemma NumberNoWord(n: Decimal)
    requires n.Shortest()
    ensures DecimalText(n) != "true" && DecimalText(n) != "false"
  {
    NumberEnds(n);
    var body := if Exponential(n) then ExponentForm(n) else PositionalForm(n);
    assert DecimalText(n)[|DecimalText(n)| - 1] == body[|body| - 1];
  }

  // ---- numbers

  function Pow10(n: nat): nat {
    if n == 0 then 1 else 10 * Pow10(n - 1)
  }

  /** `a / 10^m` and `b / 10^n` are the same number. */
  predicate SameNumber(a: int, m: nat, b: int, n: nat) {
    a * Pow10(n) == b * Pow10(m)
  }

  lemma {:induction false} ShortenKeeps(mantissa: int, scale: nat)
    ensures var d := Shorten(mantissa, scale);
      SameNumber(mantissa, scale, d.mantissa, d.scale) && d.scale <= scale
    decreases scale
  {
    if scale > 0 && mantissa % 10 == 0 {
      ShortenKeeps(mantissa / 10, scale - 1);
      var d := Shorten(mantissa, scale);
      TenTimes(mantissa / 10, Pow10(d.scale), d.mantissa, Pow10(scale - 1));
    }
  }

  lemma TenTimes(q: int, x: nat, b: int, y: nat)
    requires q * x == b * y
    ensures (10 * q) * x == b * (10 * y)
  {
  }

  /** A sign, digits, and behind a point more digits. */
  predicate Spells(s: string, negative: bool, whole: string, fraction: string) {
    && AllDigits(whole) && (fraction != "" ==> AllDigits(fraction))
    && s == (if negative then "-" else "") + (whole + (if fraction == "" then "" else "." + fraction))
  }

  /** What the digits come to. */
  function Signed(negative: bool, whole: string, fraction: string): int
    requires AllDigits(whole) && (fraction != "" ==> AllDigits(fraction))
  {
    DigitsAppend(whole, fraction);
    if negative then 0 - DigitsValue(whole + fraction) else DigitsValue(whole + fraction)
  }

  lemma DigitsAppend(whole: string, fraction: string)
    requires AllDigits(whole) && (fraction != "" ==> AllDigits(fraction))
    ensures AllDigits(whole + fraction)
  {
  }

  lemma ZeroBehind(whole: string)
    requires AllDigits(whole)
    ensures AllDigits(whole + "0") && DigitsValue(whole + "0") == 10 * DigitsValue(whole)
  {
    assert (whole + "0")[..|whole|] == whole;
  }

  lemma ShortenAgain(m: int)
    ensures Shorten(10 * m, 1) == Decimal(m, 0)
  {
  }

  /** Text that spells a number is read as it, in its shortest form. */
  lemma SpelledIsRead(s: string, negative: bool, whole: string, fraction: string)
    requires Spells(s, negative, whole, fraction)
    ensures ParseDecimal(s) == Some(Shorten(Signed(negative, whole, fraction), |fraction|))
  {
    if fraction == "" {
      PlainIsRead(s, negative, whole);
    } else {
      PointIsRead(s, negative, whole, fraction);
    }
  }

  lemma PlainIsRead(s: string, negative: bool, whole: string)
    requires Spells(s, negative, whole, "")
    ensures ParseDecimal(s) == Some(Shorten(Signed(negative, whole, ""), 0))
  {
    assert whole + "" == whole;
    var n := Signed(negative, whole, "");
    WholeIsRead(s, negative, whole, DigitsValue(whole), n);
    ShortIs(n);
  }

  lemma PointIsRead(s: string, negative: bool, whole: string, fraction: string)
    requires Spells(s, negative, whole, fraction) && fraction != ""
    ensures ParseDecimal(s) == Some(Shorten(Signed(negative, whole, fraction), |fraction|))
  {
    var body := Body(s, negative, whole, fraction);
    SignedIs(negative, whole, fraction, DigitsValue(whole + fraction));
    var m, n := DigitsValue(whole + fraction), Signed(negative, whole, fraction);
    FractionIsRead(s, negative, whole, fraction, body, m, n);
  }

  lemma Body(s: string, negative: bool, whole: string, fraction: string) returns (body: string)
    requires Spells(s, negative, whole, fraction) && fraction != ""
    ensures AllDigits(whole) && AllDigits(fraction) && AllDigits(whole + fraction) && body == whole + ("." + fraction)
    ensures s == (if negative then "-" else "") + body
  {
    body := whole + ("." + fraction);
  }

  lemma SignedIs(negative: bool, whole: string, fraction: string, m: nat)
    requires AllDigits(whole) && AllDigits(fraction) && AllDigits(whole + fraction)
    requires m == DigitsValue(whole + fraction)
    ensures Signed(negative, whole, fraction) == if negative then 0 - m else m
  {
  }

  lemma ShortIs(m: int)
    ensures Shorten(m, 0) == Decimal(m, 0)
  {
  }

  lemma FractionIsRead(s: string, negative: bool, whole: string, fraction: string, body: string, m: nat, n: int)
    requires AllDigits(whole) && AllDigits(fraction) && body == whole + ("." + fraction)
    requires s == (if negative then "-" else "") + body && n == if negative then 0 - m else m
    requires AllDigits(whole + fraction) && m == DigitsValue(whole + fraction)
    ensures ParseDecimal(s) == Some(Shorten(n, |fraction|))
  {
    assert IsDigit(whole[0]) && body[0] == whole[0];
    SplitReads(whole, fraction, body);
    var dot := DotAt(body);
    assert whole == body[..dot] && fraction == body[dot + 1..];
    ParseSigned(negative, body, whole, fraction, m);
  }

  lemma WholeIsRead(s: string, negative: bool, whole: string, m: int, n: int)
    requires AllDigits(whole) && m == DigitsValue(whole)
    requires s == (if negative then "-" else "") + whole && n == if negative then 0 - m else m
    ensures ParseDecimal(s) == Some(Decimal(n, 0))
  {
    DotAfter(whole, "");
    assert whole + "" == whole && whole[..|whole|] == whole;
    ZeroBehind(whole);
    ParseSigned(negative, whole, whole, "0", 10 * m);
    ShortenAgain(n);
    assert if negative then 0 - 10 * m == 10 * n else 10 * m == 10 * n;
  }

  lemma ParsedParts(s: string, body: string, dot: nat)
    requires ParseDecimal(s).Some? && body == (if s != "" && s[0] == '-' then s[1..] else s) && dot == DotAt(body)
    ensures AllDigits(body[..dot]) && (dot < |body| ==> AllDigits(body[dot + 1..]))
  {
  }

  lemma Parted(body: string, dot: nat)
    requires dot < |body| && body[dot] == '.'
    ensures body == body[..dot] + ("." + body[dot + 1..])
  {
  }

  /** Only such text is read as a number. */
  lemma ReadIsSpelled(s: string) returns (negative: bool, whole: string, fraction: string)
    requires ParseDecimal(s).Some?
    ensures Spells(s, negative, whole, fraction)
  {
    negative := s != "" && s[0] == '-';
    var body := if negative then s[1..] else s;
    var dot := DotAt(body);
    ParsedParts(s, body, dot);
    if dot == |body| {
      whole, fraction := body, "";
      assert body[..dot] == body && body + "" == body;
    } else {
      whole, fraction := body[..dot], body[dot + 1..];
      Parted(body, dot);
    }
    assert s == (if negative then "-" else "") + body;
  }

  /** Main result: a numeric field takes the numbers, and the text that spells one once it is trimmed. */
  lemma NumericExactly(def: FieldDef, raw: Raw)
    requires def.fieldType.Numeric? && !raw.JNull?
    ensures NormalizeValue(def, raw).Ok? <==> raw.JNum? || raw.JMinusZero? || (raw.JStr? && IsNumberText(JsTrim(raw.s)))
    ensures NormalizeValue(def, raw).Err? ==> NormalizeValue(def, raw) == Err(2010)
    ensures raw.JNum? ==> NormalizeValue(def, raw) == Ok(Some(Number(raw.n)))
  {
    if raw.JStr? {
      NumberTextExactly(JsTrim(raw.s));
    }
  }

  ghost predicate IsNumberText(s: string) {
    exists negative, whole, fraction :: Spells(s, negative, whole, fraction)
  }

  lemma NumberTextExactly(s: string)
    ensures ParseDecimal(s).Some? <==> IsNumberText(s)
  {
    if ParseDecimal(s).Some? {
      var negative, whole, fraction := ReadIsSpelled(s);
    }
    if IsNumberText(s) {
      var negative, whole, fraction :| Spells(s, negative, whole, fraction);
      SpelledIsRead(s, negative, whole, fraction);
    }
  }

  /** The number stored is the one the text spells; the sign of a zero is the only thing lost. */
  lemma NumberIsKept(def: FieldDef, s: string, negative: bool, whole: string, fraction: string)
    requires def.fieldType.Numeric? && Spells(JsTrim(s), negative, whole, fraction)
    ensures var r := NormalizeValue(def, JStr(s));
      && r.Ok? && r.value.Some? && Stored(r.value.value).Number?
      && var n := Stored(r.value.value).n;
      && n.Shortest() && SameNumber(Signed(negative, whole, fraction), |fraction|, n.mantissa, n.scale)
  {
    SpelledIsRead(JsTrim(s), negative, whole, fraction);
    var m := Signed(negative, whole, fraction);
    ShortenKeeps(m, |fraction|);
    ParsedIsStored(def, s, Shorten(m, |fraction|));
  }

  lemma ParsedIsStored(def: FieldDef, s: string, n: Decimal)
    requires def.fieldType.Numeric? && ParseDecimal(JsTrim(s)) == Some(n)
    ensures var r := NormalizeValue(def, JStr(s)); r.Ok? && r.value.Some? && Stored(r.value.value) == Number(n)
  {
  }

  // ---- dates

  /** Days of a year, month by month. */
  function YearDays(y: nat): nat {
    DaysInMonth(y, 1) + DaysInMonth(y, 2) + DaysInMonth(y, 3) + DaysInMonth(y, 4) + DaysInMonth(y, 5) +
    DaysInMonth(y, 6) + DaysInMonth(y, 7) + DaysInMonth(y, 8) + DaysInMonth(y, 9) + DaysInMonth(y, 10) +
    DaysInMonth(y, 11) + DaysInMonth(y, 12)
  }

  function DaysBefore(y: nat): nat {
    if y == 0 then 0 else DaysBefore(y - 1) + YearDays(y - 1)
  }

  lemma YearHas(y: nat)
    ensures YearDays(y) ==
      365 + (if y % 4 == 0 then 1 else 0) - (if y % 100 == 0 then 1 else 0) + (if y % 400 == 0 then 1 else 0)
  {
    LeapIs(y);
    assert DaysInMonth(y, 1) + DaysInMonth(y, 2) + DaysInMonth(y, 3) == 62 + DaysInMonth(y, 2);
    assert DaysInMonth(y, 4) + DaysInMonth(y, 5) + DaysInMonth(y, 6) == 91;
    assert DaysInMonth(y, 7) + DaysInMonth(y, 8) + DaysInMonth(y, 9) == 92;
    assert DaysInMonth(y, 10) + DaysInMonth(y, 11) + DaysInMonth(y, 12) == 92;
  }

  lemma LeapIs(y: nat)
    ensures DaysInMonth(y, 2) ==
      28 + (if y % 4 == 0 then 1 else 0) - (if y % 100 == 0 then 1 else 0) + (if y % 400 == 0 then 1 else 0)
  {
    Centuries(y);
  }

  lemma Centuries(y: nat)
    ensures y % 400 == 0 ==> y % 100 == 0
    ensures y % 100 == 0 ==> y % 4 == 0
  {
    var q, c := y / 400, y / 100;
    assert y % 400 == 0 ==> y == 100 * (4 * q);
    assert y % 100 == 0 ==> y == 4 * (25 * c);
  }

  /** Days of the years before `y` in the Gregorian calendar. */
  function Gregorian(y: nat): int {
    365 * y + (y + 3) / 4 - (y + 99) / 100 + (y + 399) / 400
  }

  /** The calendar is the Gregorian one: a leap day every four years, but for three in four centuries. */
  lemma {:induction false} DaysAreGregorian(y: nat)
    ensures DaysBefore(y) == Gregorian(y)
  {
    if y > 0 {
      DaysAreGregorian(y - 1);
      OneYearMore(y - 1);
      assert y - 1 + 1 == y;
    } else {
      assert Gregorian(0) == 0;
    }
  }

  lemma OneYearMore(y: nat)
    ensures Gregorian(y + 1) == Gregorian(y) + YearDays(y)
  {
    YearHas(y);
    LeapDays(y);
  }

  lemma LeapDays(y: nat)
    ensures (y + 4) / 4 == (y + 3) / 4 + (if y % 4 == 0 then 1 else 0)
    ensures (y + 100) / 100 == (y + 99) / 100 + (if y % 100 == 0 then 1 else 0)
    ensures (y + 400) / 400 == (y + 399) / 400 + (if y % 400 == 0 then 1 else 0)
  {
    NextMultiple(y, 4, y / 4, y % 4);
    NextMultiple(y, 100, y / 100, y % 100);
    NextMultiple(y, 400, y / 400, y % 400);
  }

  lemma NextMultiple(y: nat, k: nat, q: nat, r: nat)
    requires k > 0 && y == k * q + r && r < k
    ensures (y + k) / k == q + 1
    ensures (y + k - 1) / k == if r == 0 then q else q + 1
  {
    Quotient(y + k, k, q + 1, r);
    if r == 0 {
      Quotient(y + k - 1, k, q, k - 1);
    } else {
      Quotient(y + k - 1, k, q + 1, r - 1);
    }
  }

  lemma Quotient(y: nat, k: nat, q: nat, r: nat)
    requires k > 0 && y == k * q + r && r < k
    ensures y / k == q
  {
    var d := y / k - q;
    assert y == k * (y / k) + y % k;
    assert k * d == r - y % k;
    Multiples(k, d);
  }

  lemma Multiples(k: nat, d: int)
    ensures d >= 1 ==> k * d >= k
    ensures d <= -1 ==> k * d <= 0 - k
  {
    assert d >= 1 ==> k * (d - 1) >= 0;
    assert d <= -1 ==> k * (d + 1) <= 0;
  }

  /** The months, and when February has 29 days. */
  lemma MonthsAre(y: nat, m: nat)
    requires 1 <= m <= 12
    ensures m == 2 ==> DaysInMonth(y, m) == if y % 4 == 0 && (y % 100 != 0 || y % 400 == 0) then 29 else 28
    ensures m == 4 || m == 6 || m == 9 || m == 11 ==> DaysInMonth(y, m) == 30
    ensures m != 2 && m != 4 && m != 6 && m != 9 && m != 11 ==> DaysInMonth(y, m) == 31
  {
  }

  lemma TwoDigits(a: char, b: char)
    requires IsDigit(a) && IsDigit(b)
    ensures AllDigits([a, b]) && DigitsValue([a, b]) == (a as int - '0' as int) * 10 + (b as int - '0' as int)
  {
    assert [a, b][..1] == [a] && [a][..0] == [];
    assert DigitsValue([]) == 0;
    assert DigitsValue([a]) == a as int - '0' as int;
  }

  lemma FourDigits(s: string)
    requires |s| == 4 && AllDigits(s)
    ensures DigitsValue(s) == DigitsValue(s[..2]) * 100 + DigitsValue(s[2..])
  {
    assert s[..3][..2] == s[..2] && s[2..] == [s[2], s[3]];
    assert IsDigit(s[2]) && IsDigit(s[3]);
    TwoDigits(s[2], s[3]);
  }

  /** A date text by its numbers. */
  lemma DateExactly(s: string, century: nat, year: nat, month: nat, day: nat)
    requires |s| == 10 && s[4] == '-' && s[7] == '-'
    requires AllDigits(s[..4]) && AllDigits(s[5..7]) && AllDigits(s[8..])
    requires century == DigitsValue(s[..2]) && year == DigitsValue(s[2..4])
    requires month == DigitsValue(s[5..7]) && day == DigitsValue(s[8..])
    ensures IsCalendarDate(s) <==>
      1 <= month <= 12 && 1 <= day <= DaysInMonth(100 * century + year, month)
  {
    FourDigits(s[..4]);
    assert s[..4][..2] == s[..2] && s[..4][2..] == s[2..4];
  }

  /** 29 February is a day of the Gregorian leap years alone. */
  lemma LeapDayExactly(a: char, b: char, c: char, d: char, century: nat, year: nat, y: nat)
    requires IsDigit(a) && IsDigit(b) && IsDigit(c) && IsDigit(d)
    requires century == (a as int - '0' as int) * 10 + (b as int - '0' as int)
    requires year == (c as int - '0' as int) * 10 + (d as int - '0' as int) && y == 100 * century + year
    ensures IsCalendarDate([a, b, c, d, '-', '0', '2', '-', '2', '9']) <==>
      y % 400 == 0 || (y % 4 == 0 && y % 100 != 0)
  {
    LeapDayFits(a, b, c, d, century, year, y);
    LeapIs(y);
    Centuries(y);
  }

  lemma LeapDayFits(a: char, b: char, c: char, d: char, century: nat, year: nat, y: nat)
    requires IsDigit(a) && IsDigit(b) && IsDigit(c) && IsDigit(d)
    requires century == (a as int - '0' as int) * 10 + (b as int - '0' as int)
    requires year == (c as int - '0' as int) * 10 + (d as int - '0' as int) && y == 100 * century + year
    ensures IsCalendarDate([a, b, c, d, '-', '0', '2', '-', '2', '9']) <==> 29 <= DaysInMonth(y, 2)
  {
    var s := [a, b, c, d, '-', '0', '2', '-', '2', '9'];
    assert s[..4] == [a, b, c, d] && s[..2] == [a, b] && s[2..4] == [c, d];
    assert s[5..7] == ['0', '2'] && s[8..] == ['2', '9'];
    TwoDigits('0', '2');
    TwoDigits('2', '9');
    TwoDigits(a, b);
    TwoDigits(c, d);
    DateExactly(s, century, year, 2, 29);
  }

  // ---- options

  /** The raw value names option `id`, as a number or in digits. */
  predicate Names(raw: Raw, id: nat) {
    (raw.JNum? && raw.n == Decimal(id, 0)) || (raw.JStr? && AllDigits(raw.s) && DigitsValue(raw.s) == id)
  }

  lemma ChoiceExactly(choices: set<OptionId>, raw: Raw, id: nat)
    ensures AsChoice(choices, raw) == Some(id) <==> Names(raw, id) && id in choices
  {
  }

  /** A field of one option takes what names one of its options. */
  lemma SingleExactly(def: FieldDef, raw: Raw, id: nat)
    requires def.fieldType.SingleChoice?
    ensures NormalizeValue(def, raw) == Ok(Some(Choice(id))) <==> Names(raw, id) && id in def.choices
    ensures NormalizeValue(def, raw).Err? <==> !raw.JNull? && forall id: nat :: Names(raw, id) ==> id !in def.choices
  {
    ChoiceExactly(def.choices, raw, id);
    var found := AsChoice(def.choices, raw);
    if found.Some? {
      ChoiceExactly(def.choices, raw, found.value);
    } else {
      forall id: nat ensures Names(raw, id) ==> id !in def.choices {
        ChoiceExactly(def.choices, raw, id);
      }
    }
  }

  /** `x` comes before `y` in `s`. */
  ghost predicate Earlier(s: seq<nat>, x: nat, y: nat) {
    exists i :: 0 <= i < |s| && s[i] == x && forall j :: 0 <= j <= i ==> s[j] != y
  }

  lemma {:induction false} DedupKeepsOrder(ids: seq<nat>, a: nat, b: nat)
    requires a < b < |Dedup(ids)|
    ensures Earlier(ids, Dedup(ids)[a], Dedup(ids)[b])
  {
    var n := |ids| - 1;
    var head := Dedup(ids[..n]);
    var x, y := Dedup(ids)[a], Dedup(ids)[b];
    if b < |head| {
      DedupKeepsOrder(ids[..n], a, b);
      var i :| 0 <= i < n && ids[..n][i] == x && forall j :: 0 <= j <= i ==> ids[..n][j] != y;
      assert ids[i] == x && forall j :: 0 <= j <= i ==> ids[j] == ids[..n][j];
    } else {
      assert y !in head && x in head;
      var i :| 0 <= i < n && ids[..n][i] == x;
      assert forall j :: 0 <= j < n ==> ids[j] == ids[..n][j];
      assert ids[i] == x && forall j :: 0 <= j <= i ==> ids[j] != y by {
        assert forall j :: 0 <= j < n ==> ids[..n][j] in ids[..n];
      }
    }
  }

  /** Main result: a field of many options takes a list all of whose entries name one; each is kept once. */
  lemma MultiExactly(def: FieldDef, raw: Raw)
    requires def.fieldType.MultiChoice? && !raw.JNull?
    ensures NormalizeValue(def, raw).Ok? <==> raw.JArr? && AllNamed(def.choices, raw.elems)
    ensures NormalizeValue(def, raw).Ok? ==>
      exists ids: seq<nat> ::
        NormalizeValue(def, raw) == Ok(Some(Choices(ids))) && Distinct(ids) && Collects(raw.elems, ids)
  {
    if raw.JArr? {
      AllChoicesExactly(def.choices, raw.elems);
      if AllChoices(def.choices, raw.elems).Some? {
        var all := AllChoices(def.choices, raw.elems).value;
        assert Collects(raw.elems, Dedup(all)) by {
          DedupCollects(def.choices, raw.elems, all);
        }
      }
    }
  }

  ghost predicate NamesOne(choices: set<OptionId>, raw: Raw) {
    exists id: nat :: Names(raw, id) && id in choices
  }

  ghost predicate AllNamed(choices: set<OptionId>, raws: seq<Raw>) {
    forall i :: 0 <= i < |raws| ==> NamesOne(choices, raws[i])
  }

  /** The options are those the entries name, in the order they are first named. */
  ghost predicate Collects(raws: seq<Raw>, ids: seq<nat>) {
    && (forall id: nat :: id in ids <==> exists i :: 0 <= i < |raws| && Names(raws[i], id))
    && (forall a, b :: 0 <= a < b < |ids| ==> NamedEarlier(raws, ids[a], ids[b]))
  }

  ghost predicate NamedEarlier(raws: seq<Raw>, x: nat, y: nat) {
    exists i :: 0 <= i < |raws| && Names(raws[i], x) && forall j :: 0 <= j <= i ==> !Names(raws[j], y)
  }

  lemma NamesOnce(raw: Raw, a: nat, b: nat)
    requires Names(raw, a) && Names(raw, b)
    ensures a == b
  {
  }

  lemma AllChoicesExactly(choices: set<OptionId>, raws: seq<Raw>)
    ensures AllChoices(choices, raws).Some? <==> AllNamed(choices, raws)
  {
    var r := AllChoices(choices, raws);
    if r.Some? {
      forall i | 0 <= i < |raws| ensures NamesOne(choices, raws[i]) {
        ChoiceExactly(choices, raws[i], r.value[i]);
      }
    } else {
      var i :| 0 <= i < |raws| && AsChoice(choices, raws[i]).None?;
      if NamesOne(choices, raws[i]) {
        var id: nat :| Names(raws[i], id) && id in choices;
        ChoiceExactly(choices, raws[i], id);
        assert false;
      }
    }
  }

  lemma DedupCollects(choices: set<OptionId>, raws: seq<Raw>, all: seq<nat>)
    requires AllChoices(choices, raws) == Some(all)
    ensures Collects(raws, Dedup(all))
  {
    forall i | 0 <= i < |raws| ensures Names(raws[i], all[i]) {
      ChoiceExactly(choices, raws[i], all[i]);
    }
    var ids := Dedup(all);
    forall id: nat ensures id in ids <==> exists i :: 0 <= i < |raws| && Names(raws[i], id) {
      if i :| 0 <= i < |raws| && Names(raws[i], id) {
        NamesOnce(raws[i], id, all[i]);
        assert all[i] in all;
      }
    }
    forall a, b | 0 <= a < b < |ids| ensures NamedEarlier(raws, ids[a], ids[b]) {
      DedupKeepsOrder(all, a, b);
      var i :| 0 <= i < |all| && all[i] == ids[a] && forall j :: 0 <= j <= i ==> all[j] != ids[b];
      assert Names(raws[i], ids[a]);
      forall j | 0 <= j <= i ensures !Names(raws[j], ids[b]) {
        if Names(raws[j], ids[b]) {
          NamesOnce(raws[j], ids[b], all[j]);
        }
      }
    }
  }

  // ---- values as text

  lemma PowAdds(a: nat, b: nat)
    ensures Pow10(a + b) == Pow10(a) * Pow10(b)
  {
    if a > 0 {
      PowAdds(a - 1, b);
    }
  }

  lemma {:induction false} NatTextLength(n: nat, k: nat)
    requires n >= 1
    ensures |NatText(n)| > k <==> n >= Pow10(k)
  {
    if n < 10 {
      if k > 0 {
        PowAdds(1, k - 1);
        PowPositive(k - 1);
      }
    } else if k > 0 {
      NatTextLength(n / 10, k - 1);
    }
  }

  lemma PowPositive(n: nat)
    ensures Pow10(n) >= 1
  {
  }

  lemma PowUp(a: nat, b: nat)
    requires a <= b
    ensures Pow10(a) <= Pow10(b)
  {
    PowAdds(a, b - a);
    PowPositive(b - a);
    PowPositive(a);
    assert Pow10(a) * 1 <= Pow10(a) * Pow10(b - a);
  }

  lemma BelowMillionth(n: nat, scale: nat)
    requires n >= 1
    ensures |NatText(n)| - scale <= -6 <==> n * Pow10(6) < Pow10(scale)
  {
    if scale < 6 {
      PowUp(scale, 6);
      assert n * Pow10(6) >= 1 * Pow10(6);
    } else {
      NatTextLength(n, scale - 6);
      PowAdds(scale - 6, 6);
    }
  }

  /** Printed with an exponent are the numbers from 10^21 on, and those closer to zero than 1/10^6. */
  lemma ExponentialExactly(d: Decimal)
    ensures Exponential(d) <==>
      Magnitude(d) >= Pow10(21 + d.scale) || (d.mantissa != 0 && Magnitude(d) * Pow10(6) < Pow10(d.scale))
  {
    PowPositive(21 + d.scale);
    if d.mantissa != 0 {
      NatTextLength(Magnitude(d), 21 + d.scale);
      BelowMillionth(Magnitude(d), d.scale);
    }
  }

  lemma DigitsEnd(s: string, p: string, m: string)
    requires s == p + m && AllDigits(m) && (p != "" ==> p[|p| - 1] == ',')
    ensures |p| < |s| && forall i :: |p| <= i < |s| ==> IsDigit(s[i])
    ensures p != "" ==> !IsDigit(s[|p| - 1])
    ensures s[..|p|] == p && s[|p|..] == m
  {
    assert forall i :: |p| <= i < |s| ==> s[i] == m[i - |p|];
  }

  lemma SplitOnce(p: string, m: string, q: string, n: string)
    requires p + m == q + n && AllDigits(m) && AllDigits(n)
    requires (p != "" ==> p[|p| - 1] == ',') && (q != "" ==> q[|q| - 1] == ',')
    ensures p == q && m == n
  {
    DigitsEnd(p + m, p, m);
    DigitsEnd(p + m, q, n);
    assert |p| == |q|;
  }

  lemma LastJoined(ids: seq<nat>) returns (front: string)
    requires ids != []
    ensures JoinIds(ids) == front + NatText(ids[|ids| - 1])
    ensures front == if |ids| == 1 then "" else JoinIds(ids[..|ids| - 1]) + ","
  {
    front := if |ids| == 1 then "" else JoinIds(ids[..|ids| - 1]) + ",";
    assert "" + NatText(ids[0]) == NatText(ids[0]);
  }

  lemma FrontsEqual(a: seq<nat>, b: seq<nat>)
    requires a != [] && b != [] && JoinIds(a) == JoinIds(b)
    ensures a[|a| - 1] == b[|b| - 1] && (|a| == 1 <==> |b| == 1)
    ensures |a| > 1 && |b| > 1 ==> JoinIds(a[..|a| - 1]) == JoinIds(b[..|b| - 1])
  {
    var p := LastJoined(a);
    var q := LastJoined(b);
    NatTextReads(a[|a| - 1]);
    NatTextReads(b[|b| - 1]);
    SplitOnce(p, NatText(a[|a| - 1]), q, NatText(b[|b| - 1]));
    if |a| > 1 && |b| > 1 {
      assert p[..|p| - 1] == JoinIds(a[..|a| - 1]) && q[..|q| - 1] == JoinIds(b[..|b| - 1]);
    }
  }

  /** Lists of options are compared by a text that tells them apart. */
  lemma {:induction false} ListTextOnce(a: seq<nat>, b: seq<nat>)
    requires a != [] && b != [] && Str(Choices(a)) == Str(Choices(b))
    ensures a == b
    decreases |a|
  {
    FrontsEqual(a, b);
    if |a| > 1 {
      ListTextOnce(a[..|a| - 1], b[..|b| - 1]);
      assert a == a[..|a| - 1] + [a[|a| - 1]] && b == b[..|b| - 1] + [b[|b| - 1]];
    } else {
      assert a == [a[0]] && b == [b[0]];
    }
  }
}
