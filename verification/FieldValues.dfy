/**
 Field definitions and the normalization of incoming JSON values to what a contact stores.
 A number is an exact decimal in its shortest form; JavaScript's negative zero is kept apart, as the
 service tells it from zero and JSON does not.
 */
module FieldValues {
  import opened Wrappers
  import opened Text

  /** `mantissa / 10^scale`, with no trailing zero in the fraction. */
  datatype Decimal = Decimal(mantissa: int, scale: nat) {
    predicate Shortest() {
      scale == 0 || mantissa % 10 != 0
    }
  }

  datatype Raw =
    | JNull
    | JBool(b: bool)
    | JNum(n: Decimal)
    | JMinusZero
    | JStr(s: string)
    | JArr(elems: seq<Raw>)
    | JObj

  /** `MinusZero` is a value on its way in only: stored, it is zero. */
  datatype Value =
    | TextValue(s: string)
    | Number(n: Decimal)
    | MinusZero
    | Date(s: string)
    | Flag(b: bool)
    | Choice(id: nat)
    | Choices(ids: seq<nat>)

  datatype FieldType = Text | Numeric | DateOnly | Boolean | SingleChoice | MultiChoice

  /** IDs of options start at 1. */
  type OptionId = n: nat | n >= 1 witness 1

  const ZERO := Decimal(0, 0)

  datatype FieldDef = FieldDef(
    fieldType: FieldType,
    choices: set<OptionId>,
    unique: bool,
    readOnly: bool,
    system: bool,
    deleted: bool)

  // ---- numbers as text

  predicate IsDigit(c: char) {
    '0' <= c <= '9'
  }

  predicate AllDigits(s: string) {
    s != "" && forall i :: 0 <= i < |s| ==> IsDigit(s[i])
  }

  function DigitsValue(s: string): nat
    requires forall i :: 0 <= i < |s| ==> IsDigit(s[i])
  {
    if s == "" then 0
    else
      var last := s[|s| - 1];
      assert IsDigit(last);
      DigitsValue(s[..|s| - 1]) * 10 + (last as int - '0' as int)
  }

  function NatText(n: nat): string {
    if n < 10 then ['0' + n as char] else NatText(n / 10) + ['0' + (n % 10) as char]
  }

  function PadLeft(s: string, width: nat): string
    decreases width - |s|
  {
    if |s| < width then PadLeft("0" + s, width) else s
  }

  function Magnitude(d: Decimal): nat {
    if d.mantissa < 0 then -d.mantissa else d.mantissa
  }

  /** Digits before the point, negative if zeros follow it. */
  function PointAt(d: Decimal): int {
    |NatText(Magnitude(d))| - d.scale
  }

  /** Printed with an exponent: from 1e21 on, and below 1e-6 (ECMA-262, Number::toString). */
  predicate Exponential(d: Decimal) {
    d.mantissa != 0 && (PointAt(d) > 21 || PointAt(d) <= -6)
  }

  function DropZeros(s: string): string {
    if |s| > 1 && s[|s| - 1] == '0' then DropZeros(s[..|s| - 1]) else s
  }

  function Exponent(d: Decimal): string {
    var e := PointAt(d) - 1;
    if e < 0 then "e-" + NatText(-e) else "e+" + NatText(e)
  }

  function ExponentForm(d: Decimal): string {
    var digits := DropZeros(NatText(Magnitude(d)));
    if |digits| <= 1 then digits + Exponent(d) else digits[..1] + "." + digits[1..] + Exponent(d)
  }

  /** The digits of a number around the point, with the zeros it needs. */
  function Digits(d: Decimal): string {
    PadLeft(NatText(Magnitude(d)), d.scale + 1)
  }

  function PositionalForm(d: Decimal): string {
    var digits := Digits(d);
    if d.scale == 0 || |digits| < d.scale then digits
    else digits[..|digits| - d.scale] + "." + digits[|digits| - d.scale..]
  }

  /** `String(n)`. */
  function DecimalText(d: Decimal): string {
    (if d.mantissa < 0 then "-" else "") + (if Exponential(d) then ExponentForm(d) else PositionalForm(d))
  }

  function Shorten(mantissa: int, scale: nat): (d: Decimal)
    ensures d.Shortest()
    decreases scale
  {
    if scale > 0 && mantissa % 10 == 0 then Shorten(mantissa / 10, scale - 1) else Decimal(mantissa, scale)
  }

  function DotAt(s: string): (r: nat)
    ensures r <= |s| && (r < |s| ==> s[r] == '.')
  {
    if s == "" || s[0] == '.' then 0 else 1 + DotAt(s[1..])
  }

  /** `^-?\d+(\.\d+)?$` and the number it spells. */
  function ParseDecimal(s: string): (r: Option<Decimal>)
    ensures r.Some? ==> r.value.Shortest()
  {
    var body := if s != "" && s[0] == '-' then s[1..] else s;
    var dot := DotAt(body);
    var whole := body[..dot];
    var fraction := if dot == |body| then "0" else body[dot + 1..];
    if AllDigits(whole) && AllDigits(fraction) then
      var m: int := DigitsValue(whole + fraction);
      Some(Shorten(if body == s then m else -m, |fraction|))
    else None
  }

  // ---- dates

  predicate LeapYear(y: nat) {
    y % 4 == 0 && (y % 100 != 0 || y % 400 == 0)
  }

  function DaysInMonth(y: nat, m: nat): nat {
    if m == 2 then (if LeapYear(y) then 29 else 28) else if m in {4, 6, 9, 11} then 30 else 31
  }

  /** `YYYY-MM-DD` naming a day of the calendar. */
  predicate IsCalendarDate(s: string) {
    && |s| == 10 && s[4] == '-' && s[7] == '-'
    && AllDigits(s[..4]) && AllDigits(s[5..7]) && AllDigits(s[8..])
    && 1 <= DigitsValue(s[5..7]) <= 12
    && 1 <= DigitsValue(s[8..]) <= DaysInMonth(DigitsValue(s[..4]), DigitsValue(s[5..7]))
  }

  // ---- choices

  /** An option ID given as a number or as digits. */
  function AsChoice(choices: set<OptionId>, raw: Raw): (r: Option<nat>)
    ensures r.Some? ==> r.value in choices
  {
    match raw
    case JStr(s) => if AllDigits(s) && DigitsValue(s) in choices then Some(DigitsValue(s)) else None
    case JNum(n) => if n.scale == 0 && n.mantissa >= 1 && n.mantissa in choices then Some(n.mantissa) else None
    case _ => None
  }

  function AllChoices(choices: set<OptionId>, raws: seq<Raw>): (r: Option<seq<nat>>)
    ensures r.Some? ==> |r.value| == |raws| && forall i :: 0 <= i < |raws| ==>
      AsChoice(choices, raws[i]) == Some(r.value[i])
    ensures r.None? ==> exists i :: 0 <= i < |raws| && AsChoice(choices, raws[i]).None?
  {
    if raws == [] then Some([])
    else
      var n := |raws| - 1;
      var head := AllChoices(choices, raws[..n]);
      var last := AsChoice(choices, raws[n]);
      if head.Some? && last.Some? then Some(head.value + [last.value]) else None
  }

  predicate Distinct<T(==)>(s: seq<T>) {
    forall i, j :: 0 <= i < j < |s| ==> s[i] != s[j]
  }

  /** `[...new Set(ids)]`: first occurrences, in order. */
  function Dedup(ids: seq<nat>): (r: seq<nat>)
    ensures Distinct(r)
    ensures forall x :: x in r <==> x in ids
    ensures Distinct(ids) ==> r == ids
  {
    if ids == [] then []
    else
      var n := |ids| - 1;
      assert ids == ids[..n] + [ids[n]];
      var head := Dedup(ids[..n]);
      if ids[n] in head then head else head + [ids[n]]
  }

  // ---- normalizeValue

  const BAD_VALUE: nat := 2010

  /** What the service parses a number as; a minus in front of zero is not lost. */
  function AsNumber(raw: Raw): Option<Value> {
    match raw
    case JNum(n) => Some(Number(n))
    case JMinusZero => Some(MinusZero)
    case JStr(s) =>
      (match ParseDecimal(JsTrim(s))
       case None => None
       case Some(n) => if n == ZERO && JsTrim(s) != "" && JsTrim(s)[0] == '-' then Some(MinusZero) else Some(Number(n)))
    case _ => None
  }

  /** What `raw` is normalized to in a field of type `def`; `Ok(None)` removes the field. */
  function NormalizeValue(def: FieldDef, raw: Raw): Result<Option<Value>, nat> {
    if raw.JNull? then Ok(None) else
    match def.fieldType
    case Text => if raw.JStr? then Ok(Some(TextValue(raw.s))) else Err(BAD_VALUE)
    case Numeric =>
      var n := AsNumber(raw);
      if n.Some? then Ok(n) else Err(BAD_VALUE)
    case DateOnly => if raw.JStr? && IsCalendarDate(raw.s) then Ok(Some(Date(raw.s))) else Err(BAD_VALUE)
    case Boolean =>
      if raw in {JBool(true), JStr("true"), JNum(Decimal(1, 0)), JStr("1")} then Ok(Some(Flag(true)))
      else if raw in {JBool(false), JStr("false"), JNum(ZERO), JMinusZero, JStr("0")} then Ok(Some(Flag(false)))
      else Err(BAD_VALUE)
    case SingleChoice =>
      var id := AsChoice(def.choices, raw);
      if id.Some? then Ok(Some(Choice(id.value))) else Err(BAD_VALUE)
    case MultiChoice =>
      var ids := if raw.JArr? then AllChoices(def.choices, raw.elems) else None;
      if ids.Some? then Ok(Some(Choices(Dedup(ids.value)))) else Err(BAD_VALUE)
  }

  /** A value as the contact's JSON keeps it: the sign of a zero is lost. */
  function Stored(v: Value): Value {
    if v.MinusZero? then Number(ZERO) else v
  }

  function StoredOption(v: Option<Value>): Option<Value> {
    if v.Some? then Some(Stored(v.value)) else None
  }

  /** A stored value as it reads back from the contact's JSON. */
  function AsRaw(v: Value): Raw {
    match v
    case TextValue(s) => JStr(s)
    case Number(n) => JNum(n)
    case MinusZero => JNum(ZERO)
    case Date(s) => JStr(s)
    case Flag(b) => JBool(b)
    case Choice(id) => JNum(Decimal(id, 0))
    case Choices(ids) => JArr(seq(|ids|, i requires 0 <= i < |ids| => JNum(Decimal(ids[i], 0))))
  }

  function JoinIds(ids: seq<nat>): string {
    if ids == [] then "" else if |ids| == 1 then NatText(ids[0])
    else JoinIds(ids[..|ids| - 1]) + "," + NatText(ids[|ids| - 1])
  }

  /** `String(v)`: what a unique value is compared by. */
  function Str(v: Value): string {
    match v
    case TextValue(s) => s
    case Number(n) => DecimalText(n)
    case MinusZero => DecimalText(ZERO)
    case Date(s) => s
    case Flag(b) => if b then "true" else "false"
    case Choice(id) => NatText(id)
    case Choices(ids) => JoinIds(ids)
  }

  lemma {:induction false} ChoicesAgain(choices: set<OptionId>, ids: seq<nat>)
    requires forall i :: 0 <= i < |ids| ==> ids[i] in choices
    ensures AllChoices(choices, AsRaw(Choices(ids)).elems) == Some(ids)
  {
    if ids != [] {
      var n := |ids| - 1;
      var raws := AsRaw(Choices(ids)).elems;
      ChoicesAgain(choices, ids[..n]);
      assert raws[..n] == AsRaw(Choices(ids[..n])).elems;
      assert ids[..n] + [ids[n]] == ids;
    }
  }

  lemma ChoicesKnown(choices: set<OptionId>, raws: seq<Raw>)
    requires AllChoices(choices, raws).Some?
    ensures forall x :: x in Dedup(AllChoices(choices, raws).value) ==> x in choices
  {
  }

  /** A stored value sent back is accepted and stored as it was, whatever form it first came in. */
  lemma NormalizeIsIdempotent(def: FieldDef, raw: Raw)
    requires NormalizeValue(def, raw).Ok? && NormalizeValue(def, raw).value.Some?
    ensures
      var v := Stored(NormalizeValue(def, raw).value.value);
      NormalizeValue(def, AsRaw(v)) == Ok(Some(v))
  {
    if def.fieldType.MultiChoice? {
      var ids := NormalizeValue(def, raw).value.value.ids;
      ChoicesKnown(def.choices, raw.elems);
      assert forall i :: 0 <= i < |ids| ==> ids[i] in ids;
      ChoicesAgain(def.choices, ids);
    }
  }

  predicate SpellsMinusZero(s: string) {
    s != "" && s[0] == '-' && ParseDecimal(s) == Some(ZERO)
  }

  /** Which values lose their sign: a number sent as -0, or as text that spells zero behind a minus. */
  lemma MinusZeroExactly(def: FieldDef, raw: Raw)
    ensures NormalizeValue(def, raw) == Ok(Some(MinusZero)) <==>
      def.fieldType.Numeric? && (raw.JMinusZero? || (raw.JStr? && SpellsMinusZero(JsTrim(raw.s))))
  {
  }

  /** The import file's "-0". */
  lemma MinusZeroText(def: FieldDef)
    requires def.fieldType.Numeric?
    ensures NormalizeValue(def, JStr("-0")) == Ok(Some(MinusZero))
    ensures Str(MinusZero) == "0" && Stored(MinusZero) == Number(ZERO)
  {
    var s := "-0";
    assert DropLeft(s, IsJsSpace) == s && DropRight(s, IsJsSpace) == s;
    assert s[1..] == "0" && "0"[1..] == "" && DotAt("") == 0 && DotAt("0") == 1;
    assert "0"[..1] == "0" && "0" + "0" == "00";
    assert "00"[..1] == "0" && "0"[..0] == "";
    assert DigitsValue("") == 0 && DigitsValue("0") == 0 && DigitsValue("00") == 0;
    assert Shorten(0, 1) == ZERO by {
      assert Shorten(0, 0) == ZERO;
    }
    assert PadLeft("0", 1) == "0";
  }
}
