/** Stored values written as text, as an export or an import file holds them, and read back. */
module StoredText {
  import opened Wrappers
  import opened Text
  import opened FieldValues

  lemma {:induction false} NatTextReads(n: nat)
    ensures AllDigits(NatText(n)) && DigitsValue(NatText(n)) == n
  {
    if n >= 10 {
      NatTextReads(n / 10);
      var head, last := NatText(n / 10), '0' + (n % 10) as char;
      assert NatText(n)[..|head|] == head;
    } else {
      assert NatText(n)[..0] == "";
    }
  }

  lemma {:induction false} LeadingZero(s: string)
    requires AllDigits(s)
    ensures AllDigits("0" + s) && DigitsValue("0" + s) == DigitsValue(s)
  {
    var n := |s| - 1;
    assert ("0" + s)[..|s|] == "0" + s[..n];
    if n > 0 {
      LeadingZero(s[..n]);
    } else {
      assert "0" + s[..n] == "0" && "0"[..0] == "";
    }
  }

  lemma {:induction false} PaddingReads(s: string, width: nat)
    requires AllDigits(s)
    ensures AllDigits(PadLeft(s, width)) && DigitsValue(PadLeft(s, width)) == DigitsValue(s)
    ensures |PadLeft(s, width)| >= width
    decreases width - |s|
  {
    if |s| < width {
      LeadingZero(s);
      PaddingReads("0" + s, width);
    }
  }

  lemma {:induction false} DotAfter(whole: string, rest: string)
    requires forall i :: 0 <= i < |whole| ==> IsDigit(whole[i])
    requires rest == "" || rest[0] == '.'
    ensures DotAt(whole + rest) == |whole|
  {
    if whole == "" {
      assert whole + rest == rest;
    } else {
      assert (whole + rest)[1..] == whole[1..] + rest;
      assert IsDigit(whole[0]);
      DotAfter(whole[1..], rest);
    }
  }

  lemma DigitsRead(d: Decimal)
    ensures AllDigits(Digits(d)) && |Digits(d)| > d.scale
    ensures DigitsValue(Digits(d)) == Magnitude(d)
  {
    NatTextReads(Magnitude(d));
    PaddingReads(NatText(Magnitude(d)), d.scale + 1);
  }

  lemma WholeReads(d: Decimal, body: string)
    requires d.scale == 0 && body == Digits(d)
    ensures DotAt(body) == |body| && body[..|body|] == body && AllDigits(body) && AllDigits(body + "0")
    ensures DigitsValue(body + "0") == 10 * Magnitude(d)
  {
    DigitsRead(d);
    DotAfter(body, "");
    assert body + "" == body;
    assert (body + "0")[..|body|] == body;
  }

  lemma SplitReads(whole: string, fraction: string, body: string)
    requires AllDigits(whole) && AllDigits(fraction) && body == whole + ("." + fraction)
    ensures DotAt(body) == |whole| < |body| && body[..|whole|] == whole && body[|whole| + 1..] == fraction
  {
    DotAfter(whole, "." + fraction);
  }

  // ---- reading

  lemma ParsePositive(body: string, whole: string, fraction: string, m: nat)
    requires body != "" && IsDigit(body[0]) && whole == body[..DotAt(body)]
    requires fraction == if DotAt(body) == |body| then "0" else body[DotAt(body) + 1..]
    requires AllDigits(whole) && AllDigits(fraction) && AllDigits(whole + fraction)
    requires m == DigitsValue(whole + fraction)
    ensures ParseDecimal(body) == Some(Shorten(m, |fraction|))
  {
  }

  lemma ParseNegative(s: string, body: string, whole: string, fraction: string, m: nat)
    requires s != "" && s[0] == '-' && s[1..] == body && s != body && whole == body[..DotAt(body)]
    requires fraction == if DotAt(body) == |body| then "0" else body[DotAt(body) + 1..]
    requires AllDigits(whole) && AllDigits(fraction) && AllDigits(whole + fraction)
    requires m == DigitsValue(whole + fraction)
    ensures ParseDecimal(s) == Some(Shorten(0 - m, |fraction|))
  {
  }

  /** A printed body with its sign, read by its digits. */
  lemma ParseSigned(negative: bool, body: string, whole: string, fraction: string, m: nat)
    requires body != "" && IsDigit(body[0]) && whole == body[..DotAt(body)]
    requires fraction == if DotAt(body) == |body| then "0" else body[DotAt(body) + 1..]
    requires AllDigits(whole) && AllDigits(fraction) && AllDigits(whole + fraction)
    requires m == DigitsValue(whole + fraction)
    ensures ParseDecimal((if negative then "-" else "") + body) ==
      Some(Shorten(if negative then 0 - m else m, |fraction|))
  {
    if negative {
      assert ("-" + body)[1..] == body;
      ParseNegative("-" + body, body, whole, fraction, m);
    } else {
      assert "" + body == body;
      ParsePositive(body, whole, fraction, m);
    }
  }

  lemma ShortenWhole(m: int)
    ensures Shorten(10 * m, 1) == Decimal(m, 0)
  {
  }

  lemma WholeRoundTrip(d: Decimal)
    requires d.scale == 0 && !Exponential(d)
    ensures ParseDecimal(DecimalText(d)) == Some(d)
  {
    DigitsRead(d);
    var body := PositionalForm(d);
    WholeReads(d, body);
    ShortenWhole(d.mantissa);
    ParseSigned(d.mantissa < 0, body, body, "0", 10 * Magnitude(d));
  }

  lemma DigitsSplit(digits: string, k: nat)
    requires AllDigits(digits) && 0 < k < |digits|
    ensures AllDigits(digits[..k]) && AllDigits(digits[k..]) && digits[..k] + digits[k..] == digits
  {
  }

  lemma FractionIs(d: Decimal, whole: string, fraction: string, body: string)
    requires d.scale > 0 && !Exponential(d) && |Digits(d)| > d.scale
    requires whole == Digits(d)[..|Digits(d)| - d.scale] && fraction == Digits(d)[|Digits(d)| - d.scale..]
    requires body == whole + ("." + fraction)
    ensures DecimalText(d) == (if d.mantissa < 0 then "-" else "") + body
  {
    assert whole + "." + fraction == body;
  }

  lemma FractionRoundTrip(d: Decimal)
    requires d.scale > 0 && d.Shortest() && !Exponential(d)
    ensures ParseDecimal(DecimalText(d)) == Some(d)
  {
    DigitsRead(d);
    var digits := Digits(d);
    var k := |digits| - d.scale;
    var whole, fraction := digits[..k], digits[k..];
    var body := whole + ("." + fraction);
    DigitsSplit(digits, k);
    SplitReads(whole, fraction, body);
    FractionIs(d, whole, fraction, body);
    ParseSigned(d.mantissa < 0, body, whole, fraction, Magnitude(d));
  }

  // ---- the exponent form

  /** The pattern has no letters. */
  lemma LetterUnread(s: string, i: nat)
    requires i < |s| && s[i] == 'e'
    ensures ParseDecimal(s).None?
  {
    var body := if s[0] == '-' then s[1..] else s;
    var j := if s[0] == '-' then i - 1 else i;
    assert body[j] == 'e';
    var dot := DotAt(body);
    if j < dot {
      assert body[..dot][j] == 'e';
    } else {
      assert j != dot;
      assert body[dot + 1..][j - dot - 1] == 'e';
    }
  }

  lemma {:induction false} DropZerosStarts(s: string)
    requires AllDigits(s)
    ensures AllDigits(DropZeros(s)) && DropZeros(s)[0] == s[0]
  {
    if |s| > 1 && s[|s| - 1] == '0' {
      DropZerosStarts(s[..|s| - 1]);
    }
  }

  /** The digits before the exponent. */
  function Significand(d: Decimal): string {
    var digits := DropZeros(NatText(Magnitude(d)));
    if |digits| <= 1 then digits else digits[..1] + "." + digits[1..]
  }

  lemma ExponentFormIs(d: Decimal)
    ensures ExponentForm(d) == Significand(d) + Exponent(d)
    ensures Significand(d) != "" && IsDigit(Significand(d)[0])
    ensures Exponent(d)[0] == 'e' && IsDigit(Exponent(d)[|Exponent(d)| - 1])
  {
    NatTextReads(Magnitude(d));
    DropZerosStarts(NatText(Magnitude(d)));
    var e := PointAt(d) - 1;
    NatTextReads(if e < 0 then -e else e);
  }

  lemma ExponentUnread(d: Decimal)
    requires Exponential(d)
    ensures ParseDecimal(DecimalText(d)).None?
  {
    var s := DecimalText(d);
    var i := ExponentAt(d, s);
    LetterUnread(s, i);
  }

  lemma ExponentAt(d: Decimal, s: string) returns (i: nat)
    requires Exponential(d) && s == DecimalText(d)
    ensures i < |s| && s[i] == 'e'
  {
    ExponentFormIs(d);
    var sign := if d.mantissa < 0 then "-" else "";
    i := Behind(sign, Significand(d), Exponent(d), s);
  }

  lemma Behind(a: string, b: string, c: string, s: string) returns (i: nat)
    requires s == a + (b + c) && c != ""
    ensures i < |s| && s[i] == c[0]
  {
    i := |a| + |b|;
  }

  /** A printed number reads back as itself, exactly if it is printed without an exponent. */
  lemma NumberRoundTrip(d: Decimal)
    requires d.Shortest()
    ensures ParseDecimal(DecimalText(d)) == if Exponential(d) then None else Some(d)
  {
    if Exponential(d) {
      ExponentUnread(d);
    } else if d.scale == 0 {
      WholeRoundTrip(d);
    } else {
      FractionRoundTrip(d);
    }
  }

  // ---- what the service reads

  /** Sent as `raw`, a value is held as `v`; a JSON number arrives in its shortest form. */
  ghost predicate HeldAs(def: FieldDef, raw: Raw, v: Value) {
    var r := NormalizeValue(def, raw);
    r.Ok? && r.value.Some? && v == Stored(r.value.value) && (raw.JNum? ==> raw.n.Shortest())
  }

  /** What a contact can hold in the field. */
  ghost predicate Storable(def: FieldDef, v: Value) {
    exists raw :: HeldAs(def, raw, v)
  }

  lemma TextStays(s: string)
    requires s != "" && !IsJsSpace(s[0]) && !IsJsSpace(s[|s| - 1])
    ensures JsTrim(s) == s
  {
  }

  /** A printed number starts with a digit after its sign and ends with one. */
  lemma NumberEnds(d: Decimal)
    ensures var body := if Exponential(d) then ExponentForm(d) else PositionalForm(d);
      body != "" && IsDigit(body[0]) && IsDigit(body[|body| - 1])
  {
    if Exponential(d) {
      ExponentFormIs(d);
      assert ExponentForm(d)[0] == Significand(d)[0];
    } else {
      DigitsRead(d);
      assert PositionalForm(d)[0] == Digits(d)[0];
    }
  }

  lemma NumberTextIsTrimmed(d: Decimal)
    ensures JsTrim(DecimalText(d)) == DecimalText(d) && DecimalText(d) != ""
    ensures DecimalText(d)[0] == '-' <==> d.mantissa < 0
  {
    NumberEnds(d);
    var body := if Exponential(d) then ExponentForm(d) else PositionalForm(d);
    SignedStays(d.mantissa < 0, body, DecimalText(d));
  }

  lemma SignedStays(negative: bool, body: string, s: string)
    requires s == (if negative then "-" else "") + body
    requires body != "" && IsDigit(body[0]) && IsDigit(body[|body| - 1])
    ensures JsTrim(s) == s && s != "" && (s[0] == '-' <==> negative)
  {
    assert s[|s| - 1] == body[|body| - 1];
    assert s[0] == if negative then '-' else body[0];
    TextStays(s);
  }

  /** The text of a number is taken as the number, exactly if it has no exponent. */
  lemma NumberSentBack(d: Decimal)
    requires d.Shortest()
    ensures AsNumber(JStr(DecimalText(d))) == if Exponential(d) then None else Some(Number(d))
  {
    NumberTextIsTrimmed(d);
    NumberRoundTrip(d);
  }

  ghost predicate Typed(def: FieldDef, v: Value) {
    match def.fieldType
    case Text => v.TextValue?
    case Numeric => v.Number? && v.n.Shortest()
    case DateOnly => v.Date? && IsCalendarDate(v.s)
    case Boolean => v.Flag?
    case SingleChoice => v.Choice? && v.id in def.choices
    case MultiChoice => v.Choices?
  }

  lemma NumberIsTyped(def: FieldDef, raw: Raw, w: Value)
    requires def.fieldType.Numeric? && AsNumber(raw) == Some(w) && (raw.JNum? ==> raw.n.Shortest())
    ensures Typed(def, Stored(w))
  {
    if raw.JStr? {
      assert ParseDecimal(JsTrim(raw.s)).Some?;
    }
  }

  lemma HeldIsTyped(def: FieldDef, raw: Raw, v: Value)
    requires HeldAs(def, raw, v)
    ensures Typed(def, v)
  {
    match def.fieldType
    case Numeric => NumberIsTyped(def, raw, NormalizeValue(def, raw).value.value);
    case _ =>
  }

  lemma StorableIsTyped(def: FieldDef, v: Value)
    requires Storable(def, v)
    ensures Typed(def, v)
  {
    var raw :| HeldAs(def, raw, v);
    HeldIsTyped(def, raw, v);
  }

  /**
   Main result, exact: a stored value written as text and sent back is stored as it was if and only if
   the field is no list of options and the value no number that is printed with an exponent.
   */
  lemma TextRoundTrip(def: FieldDef, v: Value)
    requires Storable(def, v)
    ensures NormalizeValue(def, JStr(Str(v))) == Ok(Some(v)) <==>
      def.fieldType != FieldType.MultiChoice && !(v.Number? && Exponential(v.n))
  {
    StorableIsTyped(def, v);
    TypedTextRoundTrip(def, v);
  }

  lemma TypedTextRoundTrip(def: FieldDef, v: Value)
    requires Typed(def, v)
    ensures NormalizeValue(def, JStr(Str(v))) == Ok(Some(v)) <==>
      def.fieldType != FieldType.MultiChoice && !(v.Number? && Exponential(v.n))
  {
    match def.fieldType
    case Numeric => NumberSentBack(v.n);
    case SingleChoice => NatTextReads(v.id);
    case _ =>
  }

  lemma TenMillionthText()
    ensures DecimalText(Decimal(1, 7)) == "1e-7" && Exponential(Decimal(1, 7))
  {
    var d := Decimal(1, 7);
    assert NatText(1) == "1" && NatText(7) == "7" && DropZeros("1") == "1";
    assert Magnitude(d) == 1 && PointAt(d) == -6;
    assert Exponent(d) == "e-7";
    assert ExponentForm(d) == "1e-7";
  }

  lemma TenMillionthReads()
    ensures ParseDecimal("0.0000001") == Some(Decimal(1, 7))
  {
    var body, whole, fraction := "0.0000001", "0", "0000001";
    assert body == whole + ("." + fraction);
    SplitReads(whole, fraction, body);
    SevenDigits();
    ParsePositive(body, whole, fraction, 1);
    assert Shorten(1, 7) == Decimal(1, 7);
  }

  lemma NumberTaken(def: FieldDef, s: string, d: Decimal)
    requires def.fieldType.Numeric? && JsTrim(s) == s && ParseDecimal(s) == Some(d) && d != ZERO
    ensures NormalizeValue(def, JStr(s)) == Ok(Some(Number(d)))
  {
  }

  lemma ExponentRefused(def: FieldDef, d: Decimal, s: string)
    requires def.fieldType.Numeric? && d.Shortest() && Exponential(d) && s == DecimalText(d)
    ensures NormalizeValue(def, JStr(s)) == Err(BAD_VALUE)
  {
    NumberSentBack(d);
  }

  /** One ten-millionth: stored from its digits, printed as "1e-7", and refused when that comes back. */
  lemma TenMillionth(def: FieldDef)
    requires def.fieldType.Numeric?
    ensures NormalizeValue(def, JStr("0.0000001")) == Ok(Some(Number(Decimal(1, 7))))
    ensures Str(Number(Decimal(1, 7))) == "1e-7"
    ensures NormalizeValue(def, JStr("1e-7")) == Err(BAD_VALUE)
  {
    TenMillionthText();
    TenMillionthTaken(def, "0.0000001");
    ExponentRefused(def, Decimal(1, 7), "1e-7");
  }

  lemma TenMillionthTaken(def: FieldDef, s: string)
    requires def.fieldType.Numeric? && s == "0.0000001"
    ensures NormalizeValue(def, JStr(s)) == Ok(Some(Number(Decimal(1, 7))))
  {
    TenMillionthReads();
    TextStays(s);
    NumberTaken(def, s, Decimal(1, 7));
  }

  lemma SevenDigits()
    ensures AllDigits("00000001") && DigitsValue("0" + "0000001") == 1
  {
    var zeros := "0000000";
    ZerosAre(zeros);
    assert "0" + "0000001" == zeros + "1" && (zeros + "1")[..7] == zeros;
  }

  lemma {:induction false} ZerosAre(s: string)
    requires forall i :: 0 <= i < |s| ==> s[i] == '0'
    ensures DigitsValue(s) == 0
  {
    if s != "" {
      ZerosAre(s[..|s| - 1]);
    }
  }
}
