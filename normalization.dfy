/** Magnitude normalization (agents/normalization_agent.py): every present
    value of `revenue` and `co2_scope_1..3` gets a `normalized_value`, its
    value scaled by the magnitude its unit names (billion, million, thousand,
    tested in that order; otherwise unscaled). */
module Normalization {
  import opened Wrappers
  import opened Text
  import opened Schema

  const BILLION: real := 1000000000.0
  const MILLION: real := 1000000.0
  const THOUSAND: real := 1000.0

  predicate BillionUnit(textUnit: string)
  {
    Contains(textUnit, "billion") || Contains(textUnit, "bn") || Strip(textUnit) == "b"
  }

  predicate MillionUnit(textUnit: string)
  {
    Contains(textUnit, "million") || Strip(textUnit) == "m"
  }

  predicate ThousandUnit(textUnit: string)
  {
    Contains(textUnit, "thousand") || Contains(textUnit, "k")
  }

  /** The unit as the agent tests it: `str(val_obj.get("unit") or "").lower()`. */
  function TextUnit(unit: Option<string>): string
  {
    Lower(unit.GetOr(""))
  }

  /** The factor the agent applies for `unit`: the first class that matches wins. */
  function Multiplier(unit: Option<string>): real
  {
    var textUnit := TextUnit(unit);
    if BillionUnit(textUnit) then BILLION
    else if MillionUnit(textUnit) then MILLION
    else if ThousandUnit(textUnit) then THOUSAND
    else 1.0
  }

  /** The four magnitudes, tested in order: billion, then million, then thousand,
      and no scaling exactly when no class matches. */
  lemma MultiplierClasses(unit: Option<string>)
    ensures var f, t := Multiplier(unit), TextUnit(unit);
      && (f == BILLION || f == MILLION || f == THOUSAND || f == 1.0)
      && (BillionUnit(t) ==> f == BILLION)
      && (!BillionUnit(t) && MillionUnit(t) ==> f == MILLION)
      && (!BillionUnit(t) && !MillionUnit(t) && ThousandUnit(t) ==> f == THOUSAND)
      && (f == 1.0 <==> !BillionUnit(t) && !MillionUnit(t) && !ThousandUnit(t))
  {
  }

  /** The `normalized_value` for a value and its unit: null stays null. */
  function Scaled(value: Option<real>, unit: Option<string>): (r: Option<real>)
    ensures r.None? <==> value.None?
  {
    match value
    case None => None
    case Some(x) => Some(x * Multiplier(unit))
  }

  /** One slot after `_normalize_metric`: a present dict gets the key
      `normalized_value` and keeps every other field; an absent slot stays absent. */
  function NormalizedSlot(slot: Option<ValueDict>): (r: Option<ValueDict>)
    ensures r.None? <==> slot.None?
    ensures r.Some? ==> r.value.fields == slot.value.fields
    ensures r.Some? ==> r.value.normalizedValue == Some(Scaled(slot.value.fields.value, slot.value.fields.unit))
  {
    match slot
    case None => None
    case Some(d) => Some(d.(normalizedValue := Some(Scaled(d.fields.value, d.fields.unit))))
  }

  /** After the first `i` periods: those are normalized, the others untouched. */
  predicate NormalizedUpTo(metric: Metric<ValueDict>, r: Metric<ValueDict>, i: nat)
  {
    forall p: Period :: r.Get(p) == if p.Index() < i then NormalizedSlot(metric.Get(p)) else metric.Get(p)
  }

  lemma NormalizedUpToStep(metric: Metric<ValueDict>, r: Metric<ValueDict>, i: nat)
    requires i < |PERIODS| && NormalizedUpTo(metric, r, i)
    ensures r.Get(PERIODS[i]) == metric.Get(PERIODS[i])
    ensures NormalizedUpTo(metric, r.Set(PERIODS[i], NormalizedSlot(metric.Get(PERIODS[i]))), i + 1)
  {
    assert PERIODS[i].Index() == i;
  }

  /** One iteration of `_normalize_metric`, for a present dict: a null value gets
      a null `normalized_value`, any other the scaled one. */
  method NormalizeDict(d: ValueDict) returns (r: ValueDict)
    ensures Some(r) == NormalizedSlot(Some(d))
  {
    var rawVal := d.fields.value;
    if rawVal.Some? {
      r := d.(normalizedValue := Some(Scaled(rawVal, d.fields.unit)));
    } else {
      r := d.(normalizedValue := Some(None));
    }
  }

  /** `_normalize_metric`: writes `normalized_value` into each present period's dict.
      `isFinancial` plays no part: the result is fixed by `metric` alone. */
  method NormalizeMetric(metric: Metric<ValueDict>, isFinancial: bool) returns (r: Metric<ValueDict>)
    ensures forall p :: r.Get(p) == NormalizedSlot(metric.Get(p))
  {
    r := metric;
    for i := 0 to |PERIODS|
      invariant NormalizedUpTo(metric, r, i)
    {
      var k := PERIODS[i];
      NormalizedUpToStep(metric, r, i);
      var valObj := r.Get(k);
      if valObj.Some? {
        var d := NormalizeDict(valObj.value);
        if isFinancial {
          // The source keeps financial values in base units as well.
        }
        r := r.Set(k, Some(d));
      } else {
        r.SetSame(k);
      }
    }
    assert forall p: Period :: p.Index() < |PERIODS|;
  }

  /** `NormalizationAgent.run`: the empty dict stays empty; otherwise revenue and
      the three scopes are normalized and the scalars pass through. */
  method Run(data: Option<ReportDict>) returns (r: Option<ReportDict>)
    ensures r.None? <==> data.None?
    ensures r.Some? ==> r.value.reportingYear == data.value.reportingYear
    ensures r.Some? ==> r.value.currency == data.value.currency
    ensures r.Some? ==> r.value.scope3Categories == data.value.scope3Categories
    ensures r.Some? ==> forall m, p :: r.value.Get(m).Get(p) == NormalizedSlot(data.value.Get(m).Get(p))
  {
    if data.None? {
      return None;
    }
    var normData := data.value;
    var revenue := NormalizeMetric(normData.revenue, true);
    normData := normData.Set(Revenue, revenue);
    var scopes := [CO2Scope1, CO2Scope2, CO2Scope3];
    for i := 0 to |scopes|
      invariant normData.reportingYear == data.value.reportingYear
      invariant normData.currency == data.value.currency
      invariant normData.scope3Categories == data.value.scope3Categories
      invariant forall m, p ::
        normData.Get(m).Get(p) == if m == Revenue || m in scopes[..i] then NormalizedSlot(data.value.Get(m).Get(p)) else data.value.Get(m).Get(p)
    {
      var scope := scopes[i];
      assert scopes[..i + 1] == scopes[..i] + [scope];
      var normalized := NormalizeMetric(normData.Get(scope), false);
      normData := normData.Set(scope, normalized);
    }
    assert scopes[..|scopes|] == scopes;
    assert forall m :: m == Revenue || m in scopes;
    r := Some(normData);
  }

  /** After normalization every present slot carries the key `normalized_value`. */
  lemma NormalizedSlotHasKey(slot: Option<ValueDict>)
    requires slot.Some?
    ensures NormalizedSlot(slot).value.normalizedValue.Some?
    ensures Flatten(NormalizedSlot(slot).value.normalizedValue).None? <==> slot.value.fields.value.None?
  {
  }

  /** Normalizing an already normalized slot changes nothing. */
  lemma NormalizedSlotIdempotent(slot: Option<ValueDict>)
    ensures NormalizedSlot(NormalizedSlot(slot)) == NormalizedSlot(slot)
  {
  }

  /** The factor is fixed by the lower-cased unit's classes. */
  lemma MultiplierOf(unit: Option<string>, t: string)
    requires TextUnit(unit) == t
    ensures Multiplier(unit) == if BillionUnit(t) then BILLION else if MillionUnit(t) then MILLION
      else if ThousandUnit(t) then THOUSAND else 1.0
  {
  }

  lemma NoLetterB()
    ensures !Contains("million", "billion") && !Contains("million", "bn")
  {
    assert 'b' !in "million";
    NotContainsMissingChar("million", "billion", 'b');
    NotContainsMissingChar("million", "bn", 'b');
  }

  lemma MillionIsNotBillion()
    ensures !BillionUnit("million")
  {
    NoLetterB();
    StripUnpadded("million");
  }

  lemma MillionIsMillion()
    ensures MillionUnit("million")
  {
    assert StartsWith("million", "million");
  }

  /** "million" scales by a million. */
  lemma MultiplierMillionWord()
    ensures Multiplier(Some("million")) == MILLION
  {
    assert Lower("million") == "million";
    MultiplierOf(Some("million"), "million");
    MillionIsNotBillion();
    MillionIsMillion();
  }

  /** "bn" scales by a billion. */
  lemma MultiplierBn()
    ensures Multiplier(Some("bn")) == BILLION
  {
    assert Lower("bn") == "bn";
    MultiplierOf(Some("bn"), "bn");
    assert StartsWith("bn", "bn");
  }

  lemma EmptyInNoClass()
    ensures !BillionUnit("") && !MillionUnit("") && !ThousandUnit("")
  {
    assert Strip("") == "";
    NotContainsLonger("", "billion");
    NotContainsLonger("", "bn");
    NotContainsLonger("", "million");
    NotContainsLonger("", "thousand");
    NotContainsLonger("", "k");
  }

  /** No unit, or an empty one, leaves the value unscaled. */
  lemma MultiplierNoUnit()
    ensures Multiplier(None) == 1.0
    ensures Multiplier(Some("")) == 1.0
  {
    assert Lower("") == "";
    MultiplierOf(None, "");
    MultiplierOf(Some(""), "");
    EmptyInNoClass();
  }

  /** A unpadded unit shorter than "million", without a 'b' and other than "m", is in
      neither the billion nor the million class. */
  lemma NotLargeWithout(t: string)
    requires 0 < |t| < 7 && 'b' !in t && t != "m"
    requires !IsSpace(t[0]) && !IsSpace(t[|t| - 1])
    ensures !BillionUnit(t) && !MillionUnit(t)
  {
    NotContainsLonger(t, "billion");
    NotContainsLonger(t, "million");
    NotContainsMissingChar(t, "bn", 'b');
    StripUnpadded(t);
  }

  lemma KgIsThousandOnly()
    ensures !BillionUnit("kg") && !MillionUnit("kg") && ThousandUnit("kg")
  {
    NotLargeWithout("kg");
    assert StartsWith("kg", "k");
  }

  /** Units are matched as substrings: "kg" scales by a thousand. */
  lemma MultiplierKg()
    ensures Multiplier(Some("kg")) == THOUSAND
  {
    assert Lower("kg") == "kg";
    MultiplierOf(Some("kg"), "kg");
    KgIsThousandOnly();
  }

  /** A unit shorter than "thousand" and without a 'k' is not in the thousand class. */
  lemma NoThousandWithout(t: string)
    requires |t| < 8 && 'k' !in t
    ensures !ThousandUnit(t)
  {
    NotContainsLonger(t, "thousand");
    NotContainsMissingChar(t, "k", 'k');
  }

  /** "mn" is none of the spellings, so it does not scale. */
  lemma MultiplierMn()
    ensures Multiplier(Some("mn")) == 1.0
  {
    assert Lower("mn") == "mn";
    MultiplierOf(Some("mn"), "mn");
    NotLargeWithout("mn");
    NoThousandWithout("mn");
  }

  /** "tCO2e", the unit of the emission metrics, names no magnitude and does not scale. */
  lemma MultiplierTonnes()
    ensures Multiplier(Some("tCO2e")) == 1.0
  {
    assert Lower("tCO2e") == "tco2e";
    MultiplierOf(Some("tCO2e"), "tco2e");
    NotLargeWithout("tco2e");
    NoThousandWithout("tco2e");
  }

  /** The billion class is tested first and wins over the others. */
  lemma MultiplierBillionFirst()
    ensures Multiplier(Some("Billion thousand")) == BILLION
  {
    assert Lower("Billion thousand")[..7] == "billion";
  }

  lemma StripSpacedM()
    ensures Strip(" m ") == "m"
  {
    assert " m "[1..] == "m ";
    assert StripLeft("m ") == "m ";
    assert StripLeft(" m ") == "m ";
    assert "m "[..1] == "m";
    assert StripRight("m") == "m";
    assert StripRight("m ") == "m";
  }

  lemma SpacedMIsMillion()
    ensures !BillionUnit(" m ") && MillionUnit(" m ")
  {
    NotContainsLonger(" m ", "billion");
    NotContainsMissingChar(" m ", "bn", 'b');
    StripSpacedM();
  }

  /** A lone letter is recognised after stripping: " M " scales by a million. */
  lemma MultiplierSpacedM()
    ensures Multiplier(Some(" M ")) == MILLION
  {
    assert Lower(" M ") == " m ";
    MultiplierOf(Some(" M "), " m ");
    SpacedMIsMillion();
  }

  /** Worked examples: 100 million, 2.5 bn, 500 with no unit, a null value. */
  lemma ScaledExamples()
    ensures Scaled(Some(100.0), Some("million")) == Some(100000000.0)
    ensures Scaled(Some(2.5), Some("bn")) == Some(2500000000.0)
    ensures Scaled(Some(500.0), None) == Some(500.0)
    ensures Scaled(None, Some("million")) == None
  {
    MultiplierMillionWord();
    MultiplierBn();
    MultiplierNoUnit();
  }
}
