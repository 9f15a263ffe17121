/** The driver (extract.py): runs the four agents in turn and turns the
    normalized extraction into one CSV row per company, formatted for people
    (blank for missing, thousands separators, revenue in millions), which
    replaces any earlier row of the same company. */
module Pipeline {
  import opened Wrappers
  import opened Text
  import opened Schema
  import opened Layout
  import opened Extraction
  import opened Normalization
  import opened Verification

  /** The Python values that reach the formatting helpers. */
  datatype PyValue = PNone | PInt(i: int) | PFloat(f: real) | PStr(s: string)

  /** Python's `float.is_integer()`, and `x == int(x)` for a float `x`. */
  predicate IsIntegral(x: real)
  {
    x == x.Floor as real
  }

  // ---- clean_missing ----

  /** `s` is "n/a" in some mix of cases. */
  predicate NaSpelling(s: string)
  {
    |s| == 3 && (s[0] == 'n' || s[0] == 'N') && s[1] == '/' && (s[2] == 'a' || s[2] == 'A')
  }

  /** The values `clean_missing` treats as missing. The text of a number is made of
      digits, a sign, a point and exponent letters, so only a string can read "N/A". */
  predicate IsMissing(v: PyValue)
  {
    match v
    case PNone => true
    case PStr(s) => s == "None" || Upper(Strip(s)) == "N/A"
    case _ => false
  }

  /** `clean_missing`: the missing spellings become "N/A", anything else is returned as is. */
  function CleanMissing(v: PyValue): (r: PyValue)
    ensures IsMissing(v) ==> r == PStr("N/A")
    ensures !IsMissing(v) ==> r == v
  {
    if IsMissing(v) then PStr("N/A") else v
  }

  /** Upper-casing reads "N/A" exactly for the case variants of "n/a". */
  lemma UpperNa(s: string)
    ensures Upper(s) == "N/A" <==> NaSpelling(s)
  {
    if Upper(s) == "N/A" {
      assert UpperChar(s[0]) == 'N' && UpperChar(s[1]) == '/' && UpperChar(s[2]) == 'A';
    }
    if NaSpelling(s) {
      assert Upper(s) == [UpperChar(s[0]), UpperChar(s[1]), UpperChar(s[2])];
    }
  }

  predicate AllSpace(s: string)
  {
    forall i :: 0 <= i < |s| ==> IsSpace(s[i])
  }

  lemma {:induction false} StripLeftPadded(a: string, x: string)
    requires AllSpace(a) && |x| > 0 && !IsSpace(x[0])
    ensures StripLeft(a + x) == x
    decreases |a|
  {
    if a == [] {
      assert a + x == x;
    } else {
      assert (a + x)[1..] == a[1..] + x;
      StripLeftPadded(a[1..], x);
    }
  }

  lemma {:induction false} StripRightPadded(x: string, b: string)
    requires AllSpace(b) && |x| > 0 && !IsSpace(x[|x| - 1])
    ensures StripRight(x + b) == x
    decreases |b|
  {
    if b == [] {
      assert x + b == x;
    } else {
      assert (x + b)[..|x + b| - 1] == x + b[..|b| - 1];
      StripRightPadded(x, b[..|b| - 1]);
    }
  }

  /** "N/A" in any case and with any surrounding whitespace counts as missing. */
  lemma CleanMissingPadded(a: string, x: string, b: string)
    requires AllSpace(a) && AllSpace(b) && NaSpelling(x)
    ensures CleanMissing(PStr(a + x + b)) == PStr("N/A")
  {
    StripRightPadded(x, b);
    assert a + x + b == a + (x + b);
    StripLeftPadded(a, x + b);
    UpperNa(x);
  }

  /** Numbers are never missing: `clean_missing` returns them unchanged. */
  lemma CleanMissingKeepsNumbers(v: PyValue)
    requires v.PInt? || v.PFloat?
    ensures CleanMissing(v) == v
  {
  }

  /** Every case variant of "n/a", unpadded, counts as missing. */
  lemma NaSpellingMissing(s: string)
    requires NaSpelling(s)
    ensures IsMissing(PStr(s))
  {
    StripUnpadded(s);
    UpperNa(s);
  }

  /** The marker itself counts as missing. */
  lemma NaIsMissing()
    ensures IsMissing(PStr("N/A"))
  {
    NaSpellingMissing("N/A");
  }

  /** Cleaning twice is cleaning once. */
  lemma CleanMissingIdempotent(v: PyValue)
    ensures CleanMissing(CleanMissing(v)) == CleanMissing(v)
  {
    NaIsMissing();
  }

  // ---- Number formatting: f"{x:,.0f}" and f"{x:,.2f}" ----

  function Abs(x: int): nat
  {
    if x < 0 then -x else x
  }

  /** `f"{x:,.0f}"` for an integral `x`: a sign, then the digits in comma groups. */
  function Grouped(x: int): string
  {
    (if x < 0 then "-" else "") + GroupDigits(Abs(x), ',')
  }

  /** Rounds a non-negative real to the nearest integer, ties to even (the rule
      Python's float formatting applies to the exact value). */
  function RoundHalfEven(y: real): (r: int)
    requires y >= 0.0
    ensures r >= 0
    ensures r as real - 0.5 <= y <= r as real + 0.5
    ensures (y - r as real == 0.5 || r as real - y == 0.5) ==> r % 2 == 0
  {
    var fl := y.Floor;
    var frac := y - fl as real;
    if frac < 0.5 then fl
    else if frac > 0.5 then fl + 1
    else if fl % 2 == 0 then fl else fl + 1
  }

  /** `f"{x:,.2f}"`: the magnitude rounded to cents, grouped, with two decimals. */
  function TwoDecimals(x: real): string
  {
    var cents := RoundHalfEven((if x < 0.0 then -x else x) * 100.0);
    (if x < 0.0 then "-" else "") + GroupDigits(cents / 100, ',') + "." + Pad2(cents % 100)
  }

  /** The number formatting shared by `format_comma` and `format_val`:
      `f"{val:,.0f}" if val == int(val) else f"{val:,.2f}"`. */
  function FormatNumber(v: PyValue): (r: string)
    requires v.PInt? || v.PFloat?
    ensures |r| > 0
  {
    GroupDigitsEnds(if v.PInt? then Abs(v.i) else Abs(v.f.Floor), ',');
    GroupDigitsEnds(RoundHalfEven((if v.PFloat? && v.f < 0.0 then -v.f else if v.PFloat? then v.f else 0.0) * 100.0) / 100, ',');
    match v
    case PInt(i) => Grouped(i)
    case PFloat(f) => if IsIntegral(f) then Grouped(f.Floor) else TwoDecimals(f)
  }

  /** `format_comma`: "N/A" and non-numbers pass through; numbers are formatted. */
  function FormatComma(v: PyValue): (r: PyValue)
    ensures v == PStr("N/A") ==> r == v
    ensures !(v.PInt? || v.PFloat?) ==> r == v
    ensures v.PInt? || v.PFloat? ==> r == PStr(FormatNumber(v))
  {
    if v == PStr("N/A") then v
    else if v.PInt? || v.PFloat? then PStr(FormatNumber(v))
    else v
  }

  /** `format_val`: None and "N/A" become blank, numbers are formatted, and
      anything else passes through unchanged. */
  function FormatVal(v: PyValue): (r: PyValue)
    ensures r.PStr?  || r == v
    ensures r == PStr("") <==> v.PNone? || v == PStr("N/A") || v == PStr("")
    ensures !v.PNone? && v != PStr("N/A") && !(v.PInt? || v.PFloat?) ==> r == v
  {
    if v.PNone? || v == PStr("N/A") then PStr("")
    else if v.PInt? || v.PFloat? then PStr(FormatNumber(v))
    else v
  }

  /** An integral number is printed as its sign and its digits in comma
      groups: dropping the commas leaves exactly the digits of its magnitude. */
  lemma FormatIntegral(x: real)
    requires IsIntegral(x)
    ensures var s := FormatVal(PFloat(x)).s;
      && (x < 0.0 <==> s[0] == '-')
      && var digits := RemoveChar(if x < 0.0 then s[1..] else s, ',');
         AllDigits(digits) && DigitsValue(digits) == Abs(x.Floor)
  {
    var s := FormatVal(PFloat(x)).s;
    var g := GroupDigits(Abs(x.Floor), ',');
    GroupDigitsValue(Abs(x.Floor), ',');
    GroupDigitsEnds(Abs(x.Floor), ',');
    if x < 0.0 {
      assert s == "-" + g;
      assert s[1..] == g;
    } else {
      assert s == g;
    }
  }

  /** A float is printed as a grouped integer when integral, with two decimals otherwise. */
  lemma FormatFloatCases(x: real)
    ensures FormatVal(PFloat(x)) == PStr(if IsIntegral(x) then Grouped(x.Floor) else TwoDecimals(x))
  {
  }

  /** An integral float prints without a decimal point. Any other prints its sign, its
      grouped whole part, a point and exactly two digits, and these spell the magnitude
      rounded to cents. */
  lemma FormatFloat(x: real)
    ensures var s := FormatVal(PFloat(x)).s;
      && (IsIntegral(x) ==> '.' !in s)
      && (!IsIntegral(x) ==>
            && |s| >= 4 && s[|s| - 3] == '.' && AllDigits(s[|s| - 2..]) && '.' !in s[..|s| - 3]
            && (x < 0.0 <==> s[0] == '-')
            && var whole := RemoveChar(s[(if x < 0.0 then 1 else 0)..|s| - 3], ',');
               AllDigits(whole)
               && DigitsValue(whole) * 100 + DigitsValue(s[|s| - 2..]) == RoundHalfEven((if x < 0.0 then -x else x) * 100.0))
  {
    FormatFloatCases(x);
    if IsIntegral(x) {
      GroupedNoPoint(x.Floor);
    } else {
      var cents := RoundHalfEven((if x < 0.0 then -x else x) * 100.0);
      CentsLayout(x < 0.0, cents);
    }
  }

  /** The sign, the grouped whole cents, a point and the two cent digits read back as the cents. */
  lemma CentsLayout(neg: bool, cents: nat)
    ensures var s := (if neg then "-" else "") + GroupDigits(cents / 100, ',') + "." + Pad2(cents % 100);
      && |s| >= 4 && s[|s| - 3] == '.' && AllDigits(s[|s| - 2..]) && '.' !in s[..|s| - 3]
      && (neg <==> s[0] == '-')
      && var whole := RemoveChar(s[(if neg then 1 else 0)..|s| - 3], ',');
         AllDigits(whole) && DigitsValue(whole) * 100 + DigitsValue(s[|s| - 2..]) == cents
  {
    GroupDigitsChars(cents / 100, ',');
    GroupDigitsEnds(cents / 100, ',');
    GroupDigitsValue(cents / 100, ',');
    Pad2Value(cents % 100);
    SignedDecimalShape(neg, GroupDigits(cents / 100, ','), Pad2(cents % 100));
  }

  /** A grouped integer holds no decimal point. */
  lemma GroupedNoPoint(n: int)
    ensures '.' !in Grouped(n)
  {
    GroupDigitsChars(Abs(n), ',');
    SignedNoPoint(n < 0, GroupDigits(Abs(n), ','));
  }

  /** A signed group of digits and commas holds no decimal point. */
  lemma SignedNoPoint(neg: bool, g: string)
    requires forall i :: 0 <= i < |g| ==> IsDigit(g[i]) || g[i] == ','
    ensures '.' !in (if neg then "-" else "") + g
  {
    var s := (if neg then "-" else "") + g;
    forall i | 0 <= i < |s|
      ensures s[i] != '.'
    {
      if neg && i > 0 {
        assert s[i] == g[i - 1];
      }
    }
  }

  /** The layout of a signed two-decimal number: the point is third from the end, and
      only the sign, the whole part and the two decimals surround it. */
  lemma SignedDecimalShape(neg: bool, g: string, d: string)
    requires |g| > 0 && IsDigit(g[0]) && forall i :: 0 <= i < |g| ==> IsDigit(g[i]) || g[i] == ','
    requires |d| == 2 && AllDigits(d)
    ensures var s := (if neg then "-" else "") + g + "." + d;
      && |s| >= 4 && s[|s| - 3] == '.' && s[|s| - 2..] == d && '.' !in s[..|s| - 3]
      && (neg <==> s[0] == '-')
      && s[(if neg then 1 else 0)..|s| - 3] == g
  {
    var sign := if neg then "-" else "";
    var s := sign + g + "." + d;
    assert s[..|s| - 3] == sign + g;
    SignedNoPoint(neg, g);
    assert s[|sign|..|s| - 3] == g;
    assert !neg ==> s[0] == g[0];
  }

  /** Numbers of four to six digits print as two comma groups. */
  lemma GroupTwo(hi: nat, lo: nat)
    requires 0 < hi < 1000 && lo < 1000
    ensures GroupDigits(hi * 1000 + lo, ',') == NatToString(hi) + "," + Pad3(lo)
  {
    var n := hi * 1000 + lo;
    assert n / 1000 == hi && n % 1000 == lo;
  }

  /** 12345 prints as "12,345". */
  lemma FormatValInt()
    ensures FormatVal(PInt(12345)) == PStr("12,345")
  {
    GroupTwo(12, 345);
    assert NatToString(12) == "12";
    assert Pad3(345) == "345";
  }

  /** Numbers of at least four digits print as their thousands, a comma and three digits. */
  lemma GroupStep(q: nat, lo: nat)
    requires 0 < q && lo < 1000
    ensures GroupDigits(q * 1000 + lo, ',') == GroupDigits(q, ',') + "," + Pad3(lo)
  {
    var n := q * 1000 + lo;
    assert n / 1000 == q && n % 1000 == lo;
  }

  /** A float with an integral value prints as that integer does. */
  lemma FormatIntegralAs(x: real, n: int)
    requires x == n as real
    ensures FormatVal(PFloat(x)) == PStr(Grouped(n))
  {
    FormatFloatCases(x);
    assert x.Floor == n;
  }

  /** 1234 groups as "1,234". */
  lemma GroupedThousand()
    ensures GroupDigits(1234, ',') == "1,234"
  {
    GroupTwo(1, 234);
    assert NatToString(1) == "1" && Pad3(234) == "234";
  }

  /** 1234567 groups as "1,234,567". */
  lemma GroupedMillion()
    ensures Grouped(1234567) == "1,234,567"
  {
    var thousands := GroupDigits(1234, ',');
    GroupedThousand();
    GroupStep(1234, 567);
    assert Pad3(567) == "567";
    assert GroupDigits(1234567, ',') == thousands + "," + "567";
  }

  /** 1234567.0 prints as "1,234,567". */
  lemma FormatValMillion()
    ensures FormatVal(PFloat(1234567.0)) == PStr("1,234,567")
  {
    FormatIntegralAs(1234567.0, 1234567);
    GroupedMillion();
  }

  /** -2500.0 prints as "-2,500". */
  lemma FormatValNegative()
    ensures FormatVal(PFloat(-2500.0)) == PStr("-2,500")
  {
    FormatFloatCases(-2500.0);
    assert (-2500.0).Floor == -2500;
    GroupTwo(2, 500);
    assert NatToString(2) == "2";
    assert Pad3(500) == "500";
  }

  /** A non-negative value with `cents` rounded cents prints its whole part grouped and two decimals. */
  lemma TwoDecimalsAs(x: real, cents: nat)
    requires x >= 0.0 && RoundHalfEven(x * 100.0) == cents
    ensures TwoDecimals(x) == GroupDigits(cents / 100, ',') + "." + Pad2(cents % 100)
  {
  }

  /** An integral amount of cents needs no rounding. */
  lemma RoundIntegral(y: real, n: nat)
    requires y == n as real
    ensures RoundHalfEven(y) == n
  {
    assert y.Floor == n;
  }

  /** A non-integral non-negative value prints as its grouped whole cents and two decimals. */
  lemma FormatCents(x: real, cents: nat)
    requires x >= 0.0 && !IsIntegral(x) && RoundHalfEven(x * 100.0) == cents
    ensures FormatVal(PFloat(x)) == PStr(GroupDigits(cents / 100, ',') + "." + Pad2(cents % 100))
  {
    FormatFloatCases(x);
    TwoDecimalsAs(x, cents);
  }

  /** 1234.5 prints with two decimals as "1,234.50". */
  lemma FormatValHalf()
    ensures FormatVal(PFloat(1234.5)) == PStr("1,234.50")
  {
    assert 1234.5.Floor == 1234;
    RoundIntegral(1234.5 * 100.0, 123450);
    FormatCents(1234.5, 123450);
    assert 123450 / 100 == 1234 && 123450 % 100 == 50;
    GroupedThousand();
    assert Pad2(50) == "50";
    assert GroupDigits(1234, ',') + "." + Pad2(50) == "1,234.50";
  }

  /** The cents are rounded half to even: 0.125 prints as "0.12". */
  lemma FormatValTieDown()
    ensures FormatVal(PFloat(0.125)) == PStr("0.12")
  {
    FormatFloatCases(0.125);
    assert !IsIntegral(0.125);
    assert RoundHalfEven(12.5) == 12;
    assert Pad2(12) == "12" && GroupDigits(0, ',') == "0";
  }

  /** The cents are rounded half to even: 0.375 prints as "0.38". */
  lemma FormatValTieUp()
    ensures FormatVal(PFloat(0.375)) == PStr("0.38")
  {
    FormatFloatCases(0.375);
    assert !IsIntegral(0.375);
    assert RoundHalfEven(37.5) == 38;
    assert Pad2(38) == "38" && GroupDigits(0, ',') == "0";
  }

  /** The printed cents are within half a cent of the value. */
  lemma TwoDecimalsClose(x: real)
    requires x >= 0.0
    ensures var cents := RoundHalfEven(x * 100.0);
      -0.005 <= (cents / 100) as real + (cents % 100) as real / 100.0 - x <= 0.005
  {
    var cents := RoundHalfEven(x * 100.0);
    assert cents == (cents / 100) * 100 + cents % 100;
    assert (cents / 100) as real + (cents % 100) as real / 100.0 == cents as real / 100.0;
  }

  // ---- Reading the normalized data ----

  /** `get_val`: the slot's `normalized_value`, None when the data, the slot or the key is missing. */
  function GetVal(data: Option<ReportDict>, m: MetricName, p: Period): (r: Option<real>)
    ensures r.Some? <==>
      data.Some? && data.value.Get(m).Get(p).Some? && data.value.Get(m).Get(p).value.normalizedValue.Some?
      && data.value.Get(m).Get(p).value.normalizedValue.value.Some?
    ensures r.Some? ==> data.value.Get(m).Get(p).value.normalizedValue == Some(Some(r.value))
  {
    if data.None? then None
    else
      match data.value.Get(m).Get(p)
      case None => None
      case Some(d) => Flatten(d.normalizedValue)
  }

  const MILLION_DIVISOR: real := 1000000.0

  /** `get_rev_millions`: the revenue in millions, None when missing. */
  function GetRevMillions(data: Option<ReportDict>, p: Period): (r: Option<real>)
    ensures r.None? <==> GetVal(data, Revenue, p).None?
    ensures r.Some? ==> r.value * 1000000.0 == GetVal(data, Revenue, p).value
  {
    var v := GetVal(data, Revenue, p);
    if v.Some? then Some(v.value / MILLION_DIVISOR) else None
  }

  /** A Python value for an optional float. */
  function FromReal(o: Option<real>): PyValue
  {
    if o.Some? then PFloat(o.value) else PNone
  }

  function FromInt(o: Option<int>): PyValue
  {
    if o.Some? then PInt(o.value) else PNone
  }

  function FromStr(o: Option<string>): PyValue
  {
    if o.Some? then PStr(o.value) else PNone
  }

  /** After normalization, `get_val` reads the value scaled by its unit's multiplier. */
  lemma GetValOfNormalized(slot: Option<ValueDict>, norm: ReportDict, m: MetricName, p: Period)
    requires norm.Get(m).Get(p) == NormalizedSlot(slot)
    requires slot.Some?
    ensures GetVal(Some(norm), m, p) == Scaled(slot.value.fields.value, slot.value.fields.unit)
  {
  }

  /** After normalization, the revenue cell of a value `v` in unit `u` is `v`
      scaled by the unit's multiplier, divided by a million. */
  lemma RevenueCellOfNormalized(slot: Option<ValueDict>, norm: ReportDict, p: Period)
    requires norm.revenue.Get(p) == NormalizedSlot(slot)
    requires slot.Some? && slot.value.fields.value.Some?
    ensures var f := slot.value.fields;
      GetRevMillions(Some(norm), p) == Some(Scaled(f.value, f.unit).value / MILLION_DIVISOR)
  {
    GetValOfNormalized(slot, norm, Revenue, p);
  }

  // ---- The row ----

  /** The cells of one period: revenue in millions and the three scopes. */
  datatype PeriodCells = PeriodCells(revenue: PyValue, scope1: PyValue, scope2: PyValue, scope3: PyValue)
  {
    function Cell(m: MetricName): PyValue
    {
      match m
      case Revenue => revenue
      case CO2Scope1 => scope1
      case CO2Scope2 => scope2
      case CO2Scope3 => scope3
    }
  }

  /** One row of the output table. */
  datatype Row = Row(
    companyName: string,
    reportingYear: PyValue,
    financialYearEnd: string,
    currency: PyValue,
    scope3Categories: PyValue,
    y0: PeriodCells,
    y0_1: PeriodCells,
    y0_2: PeriodCells)
  {
    function Period(p: Period): PeriodCells
    {
      match p
      case Y0 => y0
      case Y0_1 => y0_1
      case Y0_2 => y0_2
    }

    /** The cells in the order of the columns. */
    function Cells(): (r: seq<PyValue>)
      ensures |r| == |HEADER|
    {
      [PStr(companyName), reportingYear, PStr(financialYearEnd),
       y0.revenue, currency, y0.scope1, y0.scope2, y0.scope3, scope3Categories,
       y0_1.revenue, y0_1.scope1, y0_1.scope2, y0_1.scope3,
       y0_2.revenue, y0_2.scope1, y0_2.scope2, y0_2.scope3]
    }
  }

  /** The column names of the output table. */
  const HEADER: seq<string> := [
    "Company name", "Most recent reporting year", "Financial year end",
    MetricHeader(Revenue, Y0), "Y0-Currency",
    MetricHeader(CO2Scope1, Y0), MetricHeader(CO2Scope2, Y0), MetricHeader(CO2Scope3, Y0),
    " Y0-Scope 3 reporting categories - (0-15) ",
    MetricHeader(Revenue, Y0_1),
    MetricHeader(CO2Scope1, Y0_1), MetricHeader(CO2Scope2, Y0_1), MetricHeader(CO2Scope3, Y0_1),
    MetricHeader(Revenue, Y0_2),
    MetricHeader(CO2Scope1, Y0_2), MetricHeader(CO2Scope2, Y0_2), MetricHeader(CO2Scope3, Y0_2)]

  /** The prefix of a period's column names. */
  function PeriodLabel(p: Period): string
  {
    match p
    case Y0 => "Y0-"
    case Y0_1 => "Y0-1-"
    case Y0_2 => "Y0-2-"
  }

  /** The column name of metric `m` in period `p`. */
  function MetricHeader(m: MetricName, p: Period): string
  {
    match m
    case Revenue => PeriodLabel(p) + "Revenue / Turnover (million)"
    case CO2Scope1 => " " + PeriodLabel(p) + "CO2 Scope 1 \n(tCO2e)  "
    case CO2Scope2 => " " + PeriodLabel(p) + "CO2 Scope 2 - market based\n(tCO2e)  "
    case CO2Scope3 => " " + PeriodLabel(p) + "CO2 Scope 3\n(tCO2e) "
  }

  /** The position of the column of metric `m` in period `p`: Y0 interleaves the currency
      after revenue and the scope-3 categories after the scopes. */
  function MetricColumn(m: MetricName, p: Period): nat
  {
    var offset := match m
      case Revenue => 0
      case CO2Scope1 => 1
      case CO2Scope2 => 2
      case CO2Scope3 => 3;
    match p
    case Y0 => if m == Revenue then 3 else 4 + offset
    case Y0_1 => 9 + offset
    case Y0_2 => 13 + offset
  }

  /** Each cell sits under the column that names it: the scalars where the row dict puts
      them, and every metric of every period under its own period-prefixed name. */
  lemma CellsUnderHeader(row: Row)
    ensures var c := row.Cells();
      && HEADER[0] == "Company name" && c[0] == PStr(row.companyName)
      && HEADER[1] == "Most recent reporting year" && c[1] == row.reportingYear
      && HEADER[2] == "Financial year end" && c[2] == PStr(row.financialYearEnd)
      && HEADER[4] == "Y0-Currency" && c[4] == row.currency
      && HEADER[8] == " Y0-Scope 3 reporting categories - (0-15) " && c[8] == row.scope3Categories
    ensures forall m, p ::
      && MetricColumn(m, p) < |HEADER|
      && HEADER[MetricColumn(m, p)] == MetricHeader(m, p)
      && row.Cells()[MetricColumn(m, p)] == row.Period(p).Cell(m)
  {
    forall m, p
      ensures MetricColumn(m, p) < |HEADER|
        && HEADER[MetricColumn(m, p)] == MetricHeader(m, p)
        && row.Cells()[MetricColumn(m, p)] == row.Period(p).Cell(m)
    {
      MetricUnderHeader(row, m, p);
    }
  }

  lemma MetricUnderHeader(row: Row, m: MetricName, p: Period)
    ensures MetricColumn(m, p) < |HEADER|
    ensures HEADER[MetricColumn(m, p)] == MetricHeader(m, p)
    ensures row.Cells()[MetricColumn(m, p)] == row.Period(p).Cell(m)
  {
    match p
    case Y0 =>
    case Y0_1 =>
    case Y0_2 =>
  }

  const FINANCIAL_YEAR_END: string := "31-Dec"

  /** The reporting-year cell (lines 122-126): missing becomes blank, an integral float an int. */
  method RepYearCell(v: PyValue) returns (repYear: PyValue)
    ensures IsMissing(v) ==> repYear == PStr("")
    ensures v.PFloat? && IsIntegral(v.f) ==> repYear == PInt(v.f.Floor)
    ensures !IsMissing(v) && !(v.PFloat? && IsIntegral(v.f)) ==> repYear == v
  {
    NaIsMissing();
    repYear := CleanMissing(v);
    if repYear.PFloat? && IsIntegral(repYear.f) {
      repYear := PInt(repYear.f.Floor);
    } else if repYear == PStr("N/A") {
      repYear := PStr("");
    }
  }

  /** The scope-3 categories cell (lines 129-134): None becomes blank, an integral float
      an int; unlike the year it is not cleaned, so the string "N/A" stays. */
  method S3CatsCell(v: PyValue) returns (s3Cats: PyValue)
    ensures v.PNone? ==> s3Cats == PStr("")
    ensures v.PFloat? && IsIntegral(v.f) ==> s3Cats == PInt(v.f.Floor)
    ensures !v.PNone? && !(v.PFloat? && IsIntegral(v.f)) ==> s3Cats == v
  {
    s3Cats := v;
    if s3Cats != PNone {
      if s3Cats.PFloat? && IsIntegral(s3Cats.f) {
        s3Cats := PInt(s3Cats.f.Floor);
      }
    } else {
      s3Cats := PStr("");
    }
  }

  /** The currency cell (lines 136-137): missing becomes blank. */
  method CurrencyCell(v: PyValue) returns (curr: PyValue)
    ensures IsMissing(v) ==> curr == PStr("")
    ensures !IsMissing(v) ==> curr == v
  {
    NaIsMissing();
    curr := CleanMissing(v);
    if curr == PStr("N/A") {
      curr := PStr("");
    }
  }

  /** The cell of metric `m` in period `p`: revenue in millions, the scopes as they are. */
  function MetricCell(data: Option<ReportDict>, m: MetricName, p: Period): PyValue
  {
    FormatVal(FromReal(if m == Revenue then GetRevMillions(data, p) else GetVal(data, m, p)))
  }

  /** The blank row of a company with no data: only the name and the year end are filled. */
  predicate BlankRow(row: Row, name: string)
  {
    && row.companyName == name && row.financialYearEnd == FINANCIAL_YEAR_END
    && row.reportingYear == PStr("") && row.currency == PStr("") && row.scope3Categories == PStr("")
    && forall p, m :: row.Period(p).Cell(m) == PStr("")
  }

  /** The row dict (lines 139-160) for company `name` and the normalized data. */
  method BuildRow(name: string, data: Option<ReportDict>) returns (row: Row)
    ensures row.companyName == name && row.financialYearEnd == FINANCIAL_YEAR_END
    ensures forall p, m :: row.Period(p).Cell(m) == MetricCell(data, m, p)
    ensures data.None? ==> BlankRow(row, name)
    ensures data.Some? ==> row.reportingYear == (if data.value.reportingYear.Some? then PInt(data.value.reportingYear.value) else PStr(""))
    ensures data.Some? ==> row.scope3Categories == (if data.value.scope3Categories.Some? then PInt(data.value.scope3Categories.value) else PStr(""))
    ensures data.Some? ==> row.currency == (if IsMissing(FromStr(data.value.currency)) then PStr("") else PStr(data.value.currency.value))
  {
    var repYear := RepYearCell(if data.Some? then FromInt(data.value.reportingYear) else PNone);
    var s3Cats := S3CatsCell(if data.Some? then FromInt(data.value.scope3Categories) else PNone);
    var curr := CurrencyCell(if data.Some? then FromStr(data.value.currency) else PNone);
    row := Row(name, repYear, FINANCIAL_YEAR_END, curr, s3Cats,
      PeriodRow(data, Y0), PeriodRow(data, Y0_1), PeriodRow(data, Y0_2));
    RowCells(row, data);
    if data.None? {
      NoDataCells();
    }
  }

  /** A row whose periods are the period rows of `data` has the metric cells of `data`. */
  lemma RowCells(row: Row, data: Option<ReportDict>)
    requires row.y0 == PeriodRow(data, Y0) && row.y0_1 == PeriodRow(data, Y0_1) && row.y0_2 == PeriodRow(data, Y0_2)
    ensures forall p, m :: row.Period(p).Cell(m) == MetricCell(data, m, p)
  {
    forall p, m
      ensures row.Period(p).Cell(m) == MetricCell(data, m, p)
    {
      PeriodOfRow(row, data, p);
    }
  }

  lemma PeriodOfRow(row: Row, data: Option<ReportDict>, p: Period)
    requires row.y0 == PeriodRow(data, Y0) && row.y0_1 == PeriodRow(data, Y0_1) && row.y0_2 == PeriodRow(data, Y0_2)
    ensures row.Period(p) == PeriodRow(data, p)
  {
    match p
    case Y0 =>
    case Y0_1 =>
    case Y0_2 =>
  }

  /** Without data every metric cell is blank. */
  lemma NoDataCells()
    ensures forall p, m :: MetricCell(None, m, p) == PStr("")
  {
  }

  /** The four metric cells of period `p`. */
  function PeriodRow(data: Option<ReportDict>, p: Period): (r: PeriodCells)
    ensures forall m :: r.Cell(m) == MetricCell(data, m, p)
  {
    PeriodCells(MetricCell(data, Revenue, p), MetricCell(data, CO2Scope1, p),
      MetricCell(data, CO2Scope2, p), MetricCell(data, CO2Scope3, p))
  }

  // ---- The upsert ----

  /** The rows of `table` whose company is not `name`, in order. */
  function Without(table: seq<Row>, name: string): (r: seq<Row>)
    ensures |r| <= |table|
  {
    if table == [] then []
    else (if table[0].companyName == name then [] else [table[0]]) + Without(table[1..], name)
  }

  /** The rows kept are exactly the rows of other companies. */
  lemma {:induction false} WithoutMembers(table: seq<Row>, name: string)
    ensures forall x :: x in Without(table, name) <==> x in table && x.companyName != name
  {
    if table != [] {
      WithoutMembers(table[1..], name);
      assert table == [table[0]] + table[1..];
    }
  }

  /** Dropping rows keeps the order: dropping from a concatenation concatenates the results. */
  lemma {:induction false} WithoutAppend(a: seq<Row>, b: seq<Row>, name: string)
    ensures Without(a + b, name) == Without(a, name) + Without(b, name)
  {
    if a == [] {
      assert a + b == b;
    } else {
      var kept := if a[0].companyName == name then [] else [a[0]];
      assert (a + b)[0] == a[0];
      assert (a + b)[1..] == a[1..] + b;
      WithoutAppend(a[1..], b, name);
      assert Without(a + b, name) == kept + (Without(a[1..], name) + Without(b, name));
      assert kept + (Without(a[1..], name) + Without(b, name)) == (kept + Without(a[1..], name)) + Without(b, name);
    }
  }

  /** Each other company's row is kept as many times as it occurs, and none of `name`'s. */
  lemma {:induction false} WithoutCount(table: seq<Row>, name: string, x: Row)
    ensures multiset(Without(table, name))[x] == if x.companyName == name then 0 else multiset(table)[x]
  {
    if table != [] {
      var kept := if table[0].companyName == name then [] else [table[0]];
      WithoutCount(table[1..], name, x);
      assert multiset(table) == multiset([table[0]]) + multiset(table[1..]) by {
        assert table == [table[0]] + table[1..];
      }
      assert multiset(Without(table, name)) == multiset(kept) + multiset(Without(table[1..], name));
    }
  }

  lemma {:induction false} WithoutIdempotent(table: seq<Row>, name: string)
    ensures Without(Without(table, name), name) == Without(table, name)
  {
    if table != [] {
      WithoutIdempotent(table[1..], name);
      var rest := Without(table[1..], name);
      if table[0].companyName != name {
        var r := [table[0]] + rest;
        assert Without(table, name) == r;
        assert r[0] == table[0] && r[1..] == rest;
        assert Without(r, name) == [table[0]] + Without(rest, name);
      } else {
        assert Without(table, name) == [] + rest;
        assert [] + rest == rest;
      }
    }
  }

  /** The upsert (lines 164-170): the earlier rows of the company are dropped and the new row
      goes last; without an existing table the new row is the whole table. */
  function Upsert(existing: Option<seq<Row>>, row: Row): (r: seq<Row>)
    ensures |r| > 0 && r[|r| - 1] == row
  {
    match existing
    case None => [row]
    case Some(table) => Without(table, row.companyName) + [row]
  }

  /** Exactly one row carries the company's name, the new one, and it is last. */
  lemma UpsertUnique(existing: Option<seq<Row>>, row: Row, i: int)
    requires 0 <= i < |Upsert(existing, row)|
    ensures Upsert(existing, row)[i].companyName == row.companyName <==> i == |Upsert(existing, row)| - 1
  {
    var r := Upsert(existing, row);
    if i < |r| - 1 && existing.Some? {
      WithoutMembers(existing.value, row.companyName);
      assert r[i] in Without(existing.value, row.companyName);
    }
  }

  /** Every other company's rows are kept, in their order. */
  lemma UpsertKeepsOthers(table: seq<Row>, row: Row)
    ensures Upsert(Some(table), row)[..|Upsert(Some(table), row)| - 1] == Without(table, row.companyName)
    ensures forall x :: x in table && x.companyName != row.companyName ==> x in Upsert(Some(table), row)
  {
    var r := Upsert(Some(table), row);
    assert r[..|r| - 1] == Without(table, row.companyName);
    WithoutMembers(table, row.companyName);
  }

  /** Running the pipeline again for a company replaces its row. */
  lemma UpsertReplaces(existing: Option<seq<Row>>, first: Row, second: Row)
    requires first.companyName == second.companyName
    ensures Upsert(Some(Upsert(existing, first)), second) == Upsert(existing, second)
  {
    var name := first.companyName;
    var t := existing.GetOr([]);
    assert Upsert(existing, first) == Without(t, name) + [first];
    WithoutAppend(Without(t, name), [first], name);
    assert Without([first], name) == [];
    WithoutIdempotent(t, name);
    assert Without(Without(t, name), name) + [] == Without(t, name);
    if existing.None? {
      assert Without(t, name) == [];
    }
  }

  // ---- The projection checked against the schema ----

  /** The projection of lines 77-89: the scalars and, for each metric and period, the
      normalized value; `None` at the top is the KeyError of a slot without that key. */
  datatype Simple = Simple(reportingYear: Option<int>, currency: Option<string>,
                           metrics: map<MetricName, map<Period, Option<real>>>)

  /** Every present slot carries the key `normalized_value`. */
  predicate AllKeyed(data: ReportDict)
  {
    forall m, p :: data.Get(m).Get(p).Some? ==> data.Get(m).Get(p).value.normalizedValue.Some?
  }

  /** `{k: v["normalized_value"] for k, v in metric.items() if v}`, None on a missing key. */
  function SlotValues(metric: Metric<ValueDict>): (r: Option<map<Period, Option<real>>>)
    ensures r.None? <==> exists p :: metric.Get(p).Some? && metric.Get(p).value.normalizedValue.None?
    ensures r.Some? ==> forall p :: p in r.value <==> metric.Get(p).Some?
    ensures r.Some? ==> forall p :: p in r.value ==> r.value[p] == metric.Get(p).value.normalizedValue.value
  {
    if exists p :: metric.Get(p).Some? && metric.Get(p).value.normalizedValue.None? then None
    else Some(map p | p in PERIODS && metric.Get(p).Some? :: metric.Get(p).value.normalizedValue.value)
  }

  /** The four metric comprehensions of lines 80-83; None on a missing key. */
  method ProjectMetrics(data: Option<ReportDict>) returns (r: Option<map<MetricName, map<Period, Option<real>>>>)
    ensures r.None? <==> data.Some? && !AllKeyed(data.value)
    ensures r.Some? ==> forall m :: m in r.value
    ensures r.Some? ==> forall m, p :: p in r.value[m] ==> r.value[m][p] == GetVal(data, m, p)
    ensures r.Some? ==> forall m, p :: p !in r.value[m] ==> GetVal(data, m, p) == None
  {
    if data.None? {
      AllMetrics();
      return Some(map m | m in METRICS :: map[]);
    }
    var d := data.value;
    var revenue := SlotValues(d.revenue);
    var scope1 := SlotValues(d.co2Scope1);
    var scope2 := SlotValues(d.co2Scope2);
    var scope3 := SlotValues(d.co2Scope3);
    if revenue.None? || scope1.None? || scope2.None? || scope3.None? {
      NotKeyed(d);
      return None;
    }
    var metrics := map[Revenue := revenue.value, CO2Scope1 := scope1.value,
                       CO2Scope2 := scope2.value, CO2Scope3 := scope3.value];
    MetricsOfSlots(d, metrics);
    ProjectedValues(d, metrics);
    r := Some(metrics);
  }

  /** A metric whose comprehension fails has a present slot without the key. */
  lemma NotKeyed(d: ReportDict)
    requires SlotValues(d.revenue).None? || SlotValues(d.co2Scope1).None?
      || SlotValues(d.co2Scope2).None? || SlotValues(d.co2Scope3).None?
    ensures !AllKeyed(d)
  {
    var m := if SlotValues(d.revenue).None? then Revenue
      else if SlotValues(d.co2Scope1).None? then CO2Scope1
      else if SlotValues(d.co2Scope2).None? then CO2Scope2
      else CO2Scope3;
    assert SlotValues(d.Get(m)).None?;
  }

  /** The four comprehensions, one per metric. */
  lemma MetricsOfSlots(d: ReportDict, metrics: map<MetricName, map<Period, Option<real>>>)
    requires SlotValues(d.revenue).Some? && SlotValues(d.co2Scope1).Some?
    requires SlotValues(d.co2Scope2).Some? && SlotValues(d.co2Scope3).Some?
    requires metrics == map[Revenue := SlotValues(d.revenue).value, CO2Scope1 := SlotValues(d.co2Scope1).value,
                            CO2Scope2 := SlotValues(d.co2Scope2).value, CO2Scope3 := SlotValues(d.co2Scope3).value]
    ensures forall m :: m in metrics && SlotValues(d.Get(m)) == Some(metrics[m])
  {
    forall m
      ensures m in metrics && SlotValues(d.Get(m)) == Some(metrics[m])
    {
      match m
      case Revenue =>
      case CO2Scope1 =>
      case CO2Scope2 =>
      case CO2Scope3 =>
    }
  }

  /** What the comprehensions read is what `get_val` reads, and every slot had the key. */
  lemma ProjectedValues(d: ReportDict, metrics: map<MetricName, map<Period, Option<real>>>)
    requires forall m :: m in metrics && SlotValues(d.Get(m)) == Some(metrics[m])
    ensures AllKeyed(d)
    ensures forall m, p :: p in metrics[m] ==> metrics[m][p] == GetVal(Some(d), m, p)
    ensures forall m, p :: p !in metrics[m] ==> GetVal(Some(d), m, p) == None
  {
    forall m, p | d.Get(m).Get(p).Some?
      ensures d.Get(m).Get(p).value.normalizedValue.Some?
    {
      assert SlotValues(d.Get(m)).Some?;
    }
  }

  /** The inner loop of lines 88-89: every period missing from `values` is set to None. */
  method FillPeriods(values: map<Period, Option<real>>) returns (filled: map<Period, Option<real>>)
    ensures forall p :: p in filled
    ensures forall p :: p in values ==> filled[p] == values[p]
    ensures forall p :: p !in values ==> filled[p] == None
  {
    filled := values;
    for t := 0 to |PERIODS|
      invariant forall p :: p in values ==> p in filled && filled[p] == values[p]
      invariant forall p :: p in filled && p !in values ==> filled[p] == None
      invariant forall p :: p in PERIODS[..t] ==> p in filled
    {
      var y := PERIODS[t];
      assert PERIODS[..t + 1] == PERIODS[..t] + [y];
      if y !in filled {
        filled := filled[y := None];
      }
    }
    assert PERIODS[..|PERIODS|] == PERIODS;
    AllPeriods();
  }

  /** The projection checked against the schema (lines 77-89), with every period
      of every metric present. */
  method ValidationProjection(data: Option<ReportDict>) returns (r: Option<Simple>)
    ensures r.None? <==> data.Some? && !AllKeyed(data.value)
    ensures r.Some? ==> r.value.reportingYear == (if data.Some? then data.value.reportingYear else None)
    ensures r.Some? ==> r.value.currency == (if data.Some? then data.value.currency else None)
    ensures r.Some? ==> forall m, p ::
      m in r.value.metrics && p in r.value.metrics[m] && r.value.metrics[m][p] == GetVal(data, m, p)
  {
    var projected := ProjectMetrics(data);
    if projected.None? {
      return None;
    }
    var metrics := projected.value;
    for i := 0 to |METRICS|
      invariant forall m :: m in metrics
      invariant forall m, p :: m in METRICS[..i] ==> p in metrics[m] && metrics[m][p] == GetVal(data, m, p)
      invariant forall m :: m !in METRICS[..i] ==> metrics[m] == projected.value[m]
    {
      var k := METRICS[i];
      assert METRICS[..i + 1] == METRICS[..i] + [k];
      var filled := FillPeriods(metrics[k]);
      metrics := metrics[k := filled];
    }
    assert METRICS[..|METRICS|] == METRICS;
    AllMetrics();
    r := Some(Simple(if data.Some? then data.value.reportingYear else None,
                     if data.Some? then data.value.currency else None, metrics));
  }

  /** Data that went through normalization always has the key the projection reads. */
  lemma NormalizedAllKeyed(raw: ReportDict, norm: ReportDict)
    requires forall m, p :: norm.Get(m).Get(p) == NormalizedSlot(raw.Get(m).Get(p))
    ensures AllKeyed(norm)
  {
    forall m, p | norm.Get(m).Get(p).Some?
      ensures norm.Get(m).Get(p).value.normalizedValue.Some?
    {
      NormalizedSlotHasKey(raw.Get(m).Get(p));
    }
  }

  // ---- The pipeline ----

  /** `os.path.basename`: what follows the last '/'. */
  function Basename(path: string): (r: string)
    ensures '/' !in r
    ensures |r| <= |path| && path[|path| - |r|..] == r
    ensures |r| < |path| ==> path[|path| - |r| - 1] == '/'
  {
    path[RFind(path, '/') + 1..]
  }

  /** How a run ends: the input is missing, no page is a candidate, or the audit
      trail and the new table are written. */
  datatype Outcome =
    | FileNotFound
    | NoCandidates
    | Completed(auditTrail: map<TrailKey, AuditEntry>, table: seq<Row>)

  /** The pages of `extracted` with the scores the layout pass writes. */
  function Scored(extracted: seq<PageRecord>): (r: seq<PageRecord>)
    ensures |r| == |extracted|
    ensures forall i :: 0 <= i < |r| ==> r[i] == extracted[i].(keywordScore := KeywordScore(extracted[i].text))
  {
    seq(|extracted|, i requires 0 <= i < |extracted| => extracted[i].(keywordScore := KeywordScore(extracted[i].text)))
  }

  /** The normalized value the pipeline ends up with for a slot of the oracle's answer. */
  function FinalValue(e: ESGExtraction, m: MetricName, p: Period): Option<real>
  {
    match e.Get(m).Get(p)
    case None => None
    case Some(v) => Scaled(v.value, v.unit)
  }

  /** The oracle's answer for the pages the layout pass selects from `extracted`. */
  function Answer(extracted: seq<PageRecord>, oracle: Oracle): Option<ESGExtraction>
  {
    oracle(Prompt(Context(Select(Candidates(Scored(extracted))))))
  }

  /** The cells of `row` for answer `e`: revenue in millions, the other metrics as
      scaled, and the reporting year, currency and scope-3 categories as lines 122-137 clean them. */
  predicate CellsOfAnswer(row: Row, e: ESGExtraction)
  {
    && (forall p :: row.Period(p).Cell(Revenue) == FormatVal(FromReal(
          if FinalValue(e, Revenue, p).Some? then Some(FinalValue(e, Revenue, p).value / MILLION_DIVISOR) else None)))
    && (forall p, m :: m != Revenue ==> row.Period(p).Cell(m) == FormatVal(FromReal(FinalValue(e, m, p))))
    && row.reportingYear == (if e.reportingYear.Some? then PInt(e.reportingYear.value) else PStr(""))
    && row.scope3Categories == (if e.scope3Categories.Some? then PInt(e.scope3Categories.value) else PStr(""))
    && row.currency == (if IsMissing(FromStr(e.currency)) then PStr("") else PStr(e.currency.value))
  }

  /** The audit record of value `v` of the answer: its fields, its value scaled by its
      unit, the box of its raw text among `pages`, and its confidence. */
  predicate RecordOfAnswer(r: AuditRecord, v: ExtractedValue, pages: seq<PageRecord>)
  {
    && v.value.Some? && r.value == v.value.value
    && r.unit == v.unit && r.page == v.page && r.sourceType == v.sourceType
    && r.rawText == v.rawText && r.reasoningSummary == v.reasoningSummary
    && r.normalizedValue == Scaled(v.value, v.unit)
    && r.bbox == FindBbox(v.rawText, v.page, pages)
    && r.confidence == Confidence(Some(ValueDict(v, None))) && 0.5 <= r.confidence <= 1.0
    && r.extractionMethod == EXTRACTION_METHOD
  }

  /** The trail for answer `e` over `pages`: the three scalars wrapped, and a record
      exactly for the slots of `e` that carry a value. */
  predicate TrailOfAnswer(trail: map<TrailKey, AuditEntry>, e: ESGExtraction, pages: seq<PageRecord>)
  {
    && (forall f :: ScalarKey(f) in trail && trail[ScalarKey(f)] == ScalarEntry(Dump(e), f))
    && (forall p, m :: SlotKey(m, p) in trail <==> e.Get(m).Get(p).Some? && e.Get(m).Get(p).value.value.Some?)
    && (forall p, m :: SlotKey(m, p) in trail ==>
          trail[SlotKey(m, p)].Record? && RecordOfAnswer(trail[SlotKey(m, p)].record, e.Get(m).Get(p).value, pages))
  }

  /** The end-to-end case of a Y0 scope-1 value of 12345 tCO2e: whatever else the answer
      holds, the row prints "12,345" under that column and the trail's `co2_scope_1_y0`
      record keeps 12345 as its normalized value, with a confidence of at least 0.5. */
  lemma Scope1Scenario(row: Row, trail: map<TrailKey, AuditEntry>, e: ESGExtraction, pages: seq<PageRecord>,
                       v: ExtractedValue)
    requires CellsOfAnswer(row, e) && TrailOfAnswer(trail, e, pages)
    requires e.co2Scope1.y0 == Some(v) && v.value == Some(12345.0) && v.unit == Some("tCO2e")
    ensures row.Cells()[MetricColumn(CO2Scope1, Y0)] == PStr("12,345")
    ensures KeyName(SlotKey(CO2Scope1, Y0)) == "co2_scope_1_y0"
    ensures SlotKey(CO2Scope1, Y0) in trail && trail[SlotKey(CO2Scope1, Y0)].Record?
    ensures trail[SlotKey(CO2Scope1, Y0)].record.normalizedValue == Some(12345.0)
    ensures trail[SlotKey(CO2Scope1, Y0)].record.confidence >= 0.5
  {
    MultiplierTonnes();
    Scope1ScenarioValue(e, v);
    Scope1ScenarioCell(row, e);
    Scope1ScenarioRecord(trail, e, pages, v);
    Scope1Key();
  }

  lemma Scope1ScenarioValue(e: ESGExtraction, v: ExtractedValue)
    requires e.co2Scope1.y0 == Some(v) && v.value == Some(12345.0) && Multiplier(v.unit) == 1.0
    ensures FinalValue(e, CO2Scope1, Y0) == Some(12345.0)
  {
  }

  lemma Scope1Key()
    ensures KeyName(SlotKey(CO2Scope1, Y0)) == "co2_scope_1_y0"
  {
    assert KeyName(SlotKey(CO2Scope1, Y0)) == "co2_scope_1" + "_" + "y0";
  }

  lemma Scope1ScenarioCell(row: Row, e: ESGExtraction)
    requires CellsOfAnswer(row, e) && FinalValue(e, CO2Scope1, Y0) == Some(12345.0)
    ensures row.Cells()[MetricColumn(CO2Scope1, Y0)] == PStr("12,345")
  {
    assert row.Period(Y0).Cell(CO2Scope1) == FormatVal(PFloat(12345.0));
    FormatIntegralAs(12345.0, 12345);
    FormatValInt();
    MetricUnderHeader(row, CO2Scope1, Y0);
  }

  lemma Scope1ScenarioRecord(trail: map<TrailKey, AuditEntry>, e: ESGExtraction, pages: seq<PageRecord>,
                             v: ExtractedValue)
    requires TrailOfAnswer(trail, e, pages)
    requires e.co2Scope1.y0 == Some(v) && v.value == Some(12345.0) && Multiplier(v.unit) == 1.0
    ensures SlotKey(CO2Scope1, Y0) in trail && trail[SlotKey(CO2Scope1, Y0)].Record?
    ensures trail[SlotKey(CO2Scope1, Y0)].record.normalizedValue == Some(12345.0)
    ensures trail[SlotKey(CO2Scope1, Y0)].record.confidence >= 0.5
  {
    assert e.Get(CO2Scope1).Get(Y0) == Some(v);
    assert SlotKey(CO2Scope1, Y0) in trail;
    assert RecordOfAnswer(trail[SlotKey(CO2Scope1, Y0)].record, v, pages);
  }

  /** `extract_pipeline`: `pdfExists` is whether the file is there, `extracted` what the
      reader returns for it, `existing` the table already on disk, if any. */
  method ExtractPipeline(pdfPath: string, pdfExists: bool, extracted: seq<PageRecord>, oracle: Oracle,
                         existing: Option<seq<Row>>) returns (o: Outcome)
    ensures !pdfExists ==> o == FileNotFound
    ensures pdfExists ==> (o == NoCandidates <==> Select(Candidates(Scored(extracted))) == [])
    ensures o == FileNotFound <==> !pdfExists
    ensures o.Completed? <==> pdfExists && Select(Candidates(Scored(extracted))) != []
    ensures o.Completed? ==> |o.table| > 0 && o.table == Upsert(existing, o.table[|o.table| - 1])
    ensures o.Completed? ==> o.table[|o.table| - 1].companyName == Basename(pdfPath)
    ensures o.Completed? && Answer(extracted, oracle).None? ==>
      BlankRow(o.table[|o.table| - 1], Basename(pdfPath)) && o.auditTrail == map[]
    ensures o.Completed? && Answer(extracted, oracle).Some? ==>
      CellsOfAnswer(o.table[|o.table| - 1], Answer(extracted, oracle).value)
      && TrailOfAnswer(o.auditTrail, Answer(extracted, oracle).value, Select(Candidates(Scored(extracted))))
  {
    var companyName := Basename(pdfPath);
    if !pdfExists {
      return FileNotFound;
    }
    var layoutAgent := new LayoutAgent(pdfPath);
    var candidatePages := layoutAgent.Run(extracted);
    assert layoutAgent.pagesData == Scored(extracted);
    if candidatePages == [] {
      return NoCandidates;
    }
    o := Complete(companyName, candidatePages, oracle, existing);
  }

  /** The steps after the page selection: extraction, normalization, the trail and the upsert. */
  method Complete(companyName: string, candidatePages: seq<PageRecord>, oracle: Oracle,
                  existing: Option<seq<Row>>) returns (o: Outcome)
    requires candidatePages != []
    ensures o.Completed? && |o.table| > 0 && o.table == Upsert(existing, o.table[|o.table| - 1])
    ensures o.table[|o.table| - 1].companyName == companyName
    ensures oracle(Prompt(Context(candidatePages))).None? ==>
      BlankRow(o.table[|o.table| - 1], companyName) && o.auditTrail == map[]
    ensures oracle(Prompt(Context(candidatePages))).Some? ==>
      CellsOfAnswer(o.table[|o.table| - 1], oracle(Prompt(Context(candidatePages))).value)
      && TrailOfAnswer(o.auditTrail, oracle(Prompt(Context(candidatePages))).value, candidatePages)
  {
    var rawData := Extraction.Run(candidatePages, oracle);
    var normalizedData := Normalization.Run(rawData);
    var auditData := BuildVerificationJson(normalizedData, candidatePages);
    var row := BuildRow(companyName, normalizedData);
    var table := Upsert(existing, row);
    o := Completed(auditData, table);
    FinalCells(rawData, normalizedData, candidatePages, oracle(Prompt(Context(candidatePages))), row, auditData);
  }

  /** The row and the trail, in terms of the oracle's answer. */
  lemma FinalCells(rawData: Option<ReportDict>, normalizedData: Option<ReportDict>, pages: seq<PageRecord>,
                   answer: Option<ESGExtraction>, row: Row, trail: map<TrailKey, AuditEntry>)
    requires rawData == (if answer.Some? then Some(Dump(answer.value)) else None)
    requires normalizedData.None? <==> rawData.None?
    requires normalizedData.Some? ==>
      && normalizedData.value.reportingYear == rawData.value.reportingYear
      && normalizedData.value.currency == rawData.value.currency
      && normalizedData.value.scope3Categories == rawData.value.scope3Categories
    requires normalizedData.Some? ==> forall m, p ::
      normalizedData.value.Get(m).Get(p) == NormalizedSlot(rawData.value.Get(m).Get(p))
    requires forall p, m :: row.Period(p).Cell(m) == MetricCell(normalizedData, m, p)
    requires normalizedData.Some? ==> row.reportingYear == (if normalizedData.value.reportingYear.Some? then PInt(normalizedData.value.reportingYear.value) else PStr(""))
    requires normalizedData.Some? ==> row.scope3Categories == (if normalizedData.value.scope3Categories.Some? then PInt(normalizedData.value.scope3Categories.value) else PStr(""))
    requires normalizedData.Some? ==> row.currency == (if IsMissing(FromStr(normalizedData.value.currency)) then PStr("") else PStr(normalizedData.value.currency.value))
    requires normalizedData.Some? ==> forall f :: ScalarKey(f) in trail && trail[ScalarKey(f)] == ScalarEntry(normalizedData.value, f)
    requires normalizedData.Some? ==> forall m, p ::
      SlotKey(m, p) in trail <==> Recorded(normalizedData.value.Get(m).Get(p))
    requires normalizedData.Some? ==> forall m, p :: Recorded(normalizedData.value.Get(m).Get(p)) ==>
      SlotKey(m, p) in trail && trail[SlotKey(m, p)] == Record(MakeRecord(normalizedData.value.Get(m).Get(p).value, pages))
    ensures answer.None? ==> normalizedData.None?
    ensures answer.Some? ==> CellsOfAnswer(row, answer.value) && TrailOfAnswer(trail, answer.value, pages)
  {
    if answer.Some? {
      var e := answer.value;
      ValuesOfAnswer(rawData.value, normalizedData.value, e);
      RecordedOfAnswer(rawData.value, normalizedData.value, e);
      forall f
        ensures ScalarKey(f) in trail && trail[ScalarKey(f)] == ScalarEntry(Dump(e), f)
      {
        ScalarOfAnswer(normalizedData.value, e, f);
      }
      forall p, m | SlotKey(m, p) in trail
        ensures trail[SlotKey(m, p)].Record? && RecordOfAnswer(trail[SlotKey(m, p)].record, e.Get(m).Get(p).value, pages)
      {
        SlotRecordOfAnswer(normalizedData.value.Get(m).Get(p), e.Get(m).Get(p).value, pages);
      }
    }
  }

  /** The scalar entries of normalized data are those of the answer. */
  lemma ScalarOfAnswer(normalizedData: ReportDict, e: ESGExtraction, f: ScalarField)
    requires normalizedData.reportingYear == e.reportingYear && normalizedData.currency == e.currency
    requires normalizedData.scope3Categories == e.scope3Categories
    ensures ScalarEntry(normalizedData, f) == ScalarEntry(Dump(e), f)
  {
  }

  /** The record built from a normalized slot describes the answer's value. */
  lemma SlotRecordOfAnswer(slot: Option<ValueDict>, v: ExtractedValue, pages: seq<PageRecord>)
    requires v.value.Some? && slot == NormalizedSlot(Some(ValueDict(v, None)))
    ensures Recorded(slot) && RecordOfAnswer(MakeRecord(slot.value, pages), v, pages)
  {
    assert slot.value == ValueDict(v, Some(Scaled(v.value, v.unit)));
  }

  /** The normalized values are the scaled values of the answer. */
  lemma ValuesOfAnswer(rawData: ReportDict, normalizedData: ReportDict, e: ESGExtraction)
    requires rawData == Dump(e)
    requires forall m, p :: normalizedData.Get(m).Get(p) == NormalizedSlot(rawData.Get(m).Get(p))
    ensures forall p, m :: GetVal(Some(normalizedData), m, p) == FinalValue(e, m, p)
  {
  }

  /** A slot is recorded exactly when the answer gives it a value. */
  lemma RecordedOfAnswer(rawData: ReportDict, normalizedData: ReportDict, e: ESGExtraction)
    requires rawData == Dump(e)
    requires forall m, p :: normalizedData.Get(m).Get(p) == NormalizedSlot(rawData.Get(m).Get(p))
    ensures forall p, m :: Recorded(normalizedData.Get(m).Get(p)) <==>
      e.Get(m).Get(p).Some? && e.Get(m).Get(p).value.value.Some?
  {
  }
}
