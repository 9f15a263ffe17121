/** Audit assembly (agents/verification_agent.py): the normalized extraction
    becomes an audit trail with one wrapper per document-level scalar and one
    record per metric/period slot that holds a value; each record carries the
    bounding box of its snippet on its page and a heuristic confidence. */
module Verification {
  import opened Wrappers
  import opened Text
  import opened Schema
  import opened Layout
  import opened Normalization

  /** Python truthiness of an optional string: neither None nor "". */
  predicate TruthyStr(s: Option<string>)
  {
    s.Some? && s.value != ""
  }

  /** Python truthiness of an optional int: neither None nor 0. */
  predicate TruthyInt(i: Option<int>)
  {
    i.Some? && i.value != 0
  }

  /** A block matches a snippet when either lower-cased text contains the other. */
  predicate Overlaps(snippet: string, text: string)
  {
    Contains(Lower(text), Lower(snippet)) || Contains(Lower(snippet), Lower(text))
  }

  /** The index of the first block that matches `snippet`, or `|blocks|` if none does. */
  function FirstBlock(snippet: string, blocks: seq<TextBlock>): (j: nat)
    ensures j <= |blocks|
    ensures j < |blocks| ==> Overlaps(snippet, blocks[j].text)
    ensures forall k :: 0 <= k < j ==> !Overlaps(snippet, blocks[k].text)
    decreases |blocks|
  {
    if |blocks| == 0 then 0
    else if Overlaps(snippet, blocks[0].text) then 0
    else 1 + FirstBlock(snippet, blocks[1..])
  }

  /** Page `pages[i]` is numbered `pageNum` and has a block matching `snippet`. */
  predicate PageHit(snippet: string, pageNum: int, pages: seq<PageRecord>, i: int)
    requires 0 <= i < |pages|
  {
    pages[i].page == pageNum && FirstBlock(snippet, pages[i].blocks) < |pages[i].blocks|
  }

  /** The index of the first page that is a hit, or `|pages|` if none is. */
  function FirstPage(snippet: string, pageNum: int, pages: seq<PageRecord>): (i: nat)
    ensures i <= |pages|
    ensures i < |pages| ==> PageHit(snippet, pageNum, pages, i)
    ensures forall k :: 0 <= k < i ==> !PageHit(snippet, pageNum, pages, k)
    decreases |pages|
  {
    if |pages| == 0 then 0
    else if PageHit(snippet, pageNum, pages, 0) then 0
    else
      var rest := FirstPage(snippet, pageNum, pages[1..]);
      assert forall k :: 1 <= k < |pages| ==>
        PageHit(snippet, pageNum, pages, k) == PageHit(snippet, pageNum, pages[1..], k - 1);
      1 + rest
  }

  /** Block `pages[i].blocks[j]` lies on page `pageNum` and matches `snippet`. */
  predicate Hit(snippet: string, pageNum: int, pages: seq<PageRecord>, i: int, j: int)
  {
    0 <= i < |pages| && pages[i].page == pageNum && 0 <= j < |pages[i].blocks|
    && Overlaps(snippet, pages[i].blocks[j].text)
  }

  /** `_find_bbox`: nothing for a missing snippet or page; otherwise the box of the
      first matching block, scanning pages in order and each page's blocks in order. */
  function FindBbox(snippet: Option<string>, pageNum: Option<int>, pages: seq<PageRecord>): (r: Option<BBox>)
    ensures !TruthyStr(snippet) || !TruthyInt(pageNum) ==> r.None?
    ensures r.Some? ==> exists i, j ::
      && Hit(snippet.value, pageNum.value, pages, i, j)
      && r.value == pages[i].blocks[j].bbox
      && forall i', j' :: Hit(snippet.value, pageNum.value, pages, i', j') ==> i < i' || (i == i' && j <= j')
    ensures TruthyStr(snippet) && TruthyInt(pageNum) && r.None? ==>
      forall i, j :: !Hit(snippet.value, pageNum.value, pages, i, j)
  {
    if !TruthyStr(snippet) || !TruthyInt(pageNum) then None
    else
      var s, n := snippet.value, pageNum.value;
      var i := FirstPage(s, n, pages);
      if i < |pages| then
        var j := FirstBlock(s, pages[i].blocks);
        assert Hit(s, n, pages, i, j);
        assert forall i', j' :: Hit(s, n, pages, i', j') && i' < i ==> PageHit(s, n, pages, i');
        Some(pages[i].blocks[j].bbox)
      else
        assert forall i', j' :: Hit(s, n, pages, i', j') ==> PageHit(s, n, pages, i');
        None
  }

  /** `_compute_confidence`, as a value: 0 without a value; else 0.5 plus 0.2 for a
      truthy reasoning summary and 0.2 for a truthy page, capped at 1. */
  function Confidence(v: Option<ValueDict>): real
  {
    if v.None? || v.value.fields.value.None? then 0.0
    else
      var bonusReasoning := if TruthyStr(v.value.fields.reasoningSummary) then 0.2 else 0.0;
      var bonusPage := if TruthyInt(v.value.fields.page) then 0.2 else 0.0;
      var score := 0.5 + bonusReasoning + bonusPage;
      if score < 1.0 then score else 1.0
  }

  /** `_compute_confidence`: accumulates the score step by step. */
  method ComputeConfidence(valObj: Option<ValueDict>) returns (score: real)
    ensures score == Confidence(valObj)
    ensures 0.0 <= score <= 1.0
    ensures score == 0.0 <==> valObj.None? || valObj.value.fields.value.None?
    ensures valObj.Some? && valObj.value.fields.value.Some? ==> 0.5 <= score
  {
    if valObj.None? || valObj.value.fields.value.None? {
      return 0.0;
    }
    score := 0.5;
    if TruthyStr(valObj.value.fields.reasoningSummary) {
      score := score + 0.2;
    }
    if TruthyInt(valObj.value.fields.page) {
      score := score + 0.2;
    }
    if score > 1.0 {
      score := 1.0;
    }
  }

  /** Supplying a reasoning summary or a page never lowers the confidence. */
  lemma ConfidenceMonotone(v: ValueDict, w: ValueDict)
    requires w.fields.value.Some? ==> v.fields.value.Some?
    requires TruthyStr(w.fields.reasoningSummary) ==> TruthyStr(v.fields.reasoningSummary)
    requires TruthyInt(w.fields.page) ==> TruthyInt(v.fields.page)
    ensures Confidence(Some(w)) <= Confidence(Some(v))
  {
  }

  /** The confidence takes one of four values, so the cap at 1 never binds. */
  lemma ConfidenceLevels(v: Option<ValueDict>)
    ensures Confidence(v) in {0.0, 0.5, 0.7, 0.9}
    ensures Confidence(v) == 0.9 <==>
      v.Some? && v.value.fields.value.Some? && TruthyStr(v.value.fields.reasoningSummary) && TruthyInt(v.value.fields.page)
  {
  }

  /** The document-level fields of the dumped extraction. */
  datatype ScalarField = ReportingYear | Currency | Scope3Categories

  /** A key of the audit trail: a scalar field, or `<metric>_<period>`. */
  datatype TrailKey = ScalarKey(field: ScalarField) | SlotKey(metric: MetricName, period: Period)

  /** The key as the trail spells it. */
  function KeyName(k: TrailKey): string
  {
    match k
    case ScalarKey(ReportingYear) => "reporting_year"
    case ScalarKey(Currency) => "currency"
    case ScalarKey(Scope3Categories) => "scope_3_reporting_categories_y0"
    case SlotKey(m, p) => m.Key() + "_" + p.Key()
  }

  const EXTRACTION_METHOD: string := "LLM Structured Output (gpt-4o) + Normalization"

  /** One audit record: the value's fields, its box, its confidence and the fixed method. */
  datatype AuditRecord = AuditRecord(
    value: real,
    unit: Option<string>,
    page: Option<int>,
    sourceType: Option<SourceType>,
    bbox: Option<BBox>,
    rawText: Option<string>,
    normalizedValue: Option<real>,
    confidence: real,
    extractionMethod: string,
    reasoningSummary: Option<string>)

  /** A trail entry: `{"value": x}` for a scalar, or a full record. */
  datatype AuditEntry =
    | IntWrapper(intValue: Option<int>)
    | StrWrapper(strValue: Option<string>)
    | Record(record: AuditRecord)

  /** The record the trail holds for a slot with a value. */
  function MakeRecord(v: ValueDict, pages: seq<PageRecord>): (r: AuditRecord)
    requires v.fields.value.Some?
    ensures r.value == v.fields.value.value && r.unit == v.fields.unit && r.page == v.fields.page
    ensures r.sourceType == v.fields.sourceType && r.rawText == v.fields.rawText
    ensures r.reasoningSummary == v.fields.reasoningSummary
    ensures r.normalizedValue == Flatten(v.normalizedValue)
    ensures r.bbox == FindBbox(v.fields.rawText, v.fields.page, pages)
    ensures 0.5 <= r.confidence <= 1.0
    ensures r.extractionMethod == EXTRACTION_METHOD
  {
    AuditRecord(v.fields.value.value, v.fields.unit, v.fields.page, v.fields.sourceType,
      FindBbox(v.fields.rawText, v.fields.page, pages), v.fields.rawText,
      Flatten(v.normalizedValue), Confidence(Some(v)), EXTRACTION_METHOD, v.fields.reasoningSummary)
  }

  /** The slot the source writes a record for: truthy, with a non-null value. */
  predicate Recorded(slot: Option<ValueDict>)
  {
    slot.Some? && slot.value.fields.value.Some?
  }

  /** The top-level keys of the dumped extraction, in the order `items()` yields them. */
  datatype Field = Scalar(scalar: ScalarField) | MetricField(name: MetricName)

  const FIELDS: seq<Field> := [Scalar(ReportingYear), Scalar(Currency),
    MetricField(Revenue), MetricField(CO2Scope1), MetricField(CO2Scope2), MetricField(CO2Scope3),
    Scalar(Scope3Categories)]

  /** The wrapper for a scalar field. */
  function ScalarEntry(data: ReportDict, f: ScalarField): AuditEntry
  {
    match f
    case ReportingYear => IntWrapper(data.reportingYear)
    case Currency => StrWrapper(data.currency)
    case Scope3Categories => IntWrapper(data.scope3Categories)
  }

  /** Trail `trail` holds exactly the entries for the fields in `done` and, of
      `current`'s metric, exactly the periods in `periods`. */
  predicate TrailUpTo(trail: map<TrailKey, AuditEntry>, data: ReportDict, pages: seq<PageRecord>,
                      done: seq<Field>, current: Option<MetricName>, periods: seq<Period>)
  {
    && (forall f :: ScalarKey(f) in trail <==> Scalar(f) in done)
    && (forall f :: ScalarKey(f) in trail ==> trail[ScalarKey(f)] == ScalarEntry(data, f))
    && (forall m, p :: SlotKey(m, p) in trail <==>
          (MetricField(m) in done || (current == Some(m) && p in periods)) && Recorded(data.Get(m).Get(p)))
    && (forall m, p :: SlotKey(m, p) in trail ==>
          trail[SlotKey(m, p)] == Record(MakeRecord(data.Get(m).Get(p).value, pages)))
  }

  /** `build_verification_json`: an empty input gives an empty trail; otherwise every
      scalar is wrapped and every recorded slot gets its record, and nothing else. */
  method BuildVerificationJson(data: Option<ReportDict>, pages: seq<PageRecord>)
    returns (trail: map<TrailKey, AuditEntry>)
    ensures data.None? ==> trail == map[]
    ensures data.Some? ==> forall f :: ScalarKey(f) in trail && trail[ScalarKey(f)] == ScalarEntry(data.value, f)
    ensures data.Some? ==> forall m, p :: SlotKey(m, p) in trail <==> Recorded(data.value.Get(m).Get(p))
    ensures data.Some? ==> forall m, p :: Recorded(data.value.Get(m).Get(p)) ==>
      SlotKey(m, p) in trail && trail[SlotKey(m, p)] == Record(MakeRecord(data.value.Get(m).Get(p).value, pages))
    ensures forall k :: k in trail && trail[k].Record? ==> 0.5 <= trail[k].record.confidence <= 1.0
  {
    trail := map[];
    if data.None? {
      return;
    }
    var d := data.value;
    for i := 0 to |FIELDS|
      invariant TrailUpTo(trail, d, pages, FIELDS[..i], None, [])
    {
      var field := FIELDS[i];
      assert FIELDS[..i + 1] == FIELDS[..i] + [field];
      match field {
        case Scalar(f) =>
          AddScalar(trail, d, pages, FIELDS[..i], f);
          trail := trail[ScalarKey(f) := ScalarEntry(d, f)];
        case MetricField(m) =>
          trail := AddMetric(trail, d, pages, FIELDS[..i], m);
      }
    }
    assert FIELDS[..|FIELDS|] == FIELDS;
    TrailComplete(trail, d, pages);
  }

  /** Wrapping scalar `f` extends the trail by that field. */
  lemma AddScalar(trail: map<TrailKey, AuditEntry>, data: ReportDict, pages: seq<PageRecord>,
                  done: seq<Field>, f: ScalarField)
    requires TrailUpTo(trail, data, pages, done, None, [])
    ensures TrailUpTo(trail[ScalarKey(f) := ScalarEntry(data, f)], data, pages, done + [Scalar(f)], None, [])
  {
  }

  /** The records of metric `m`, one period after the other (the inner loop of lines 58-77). */
  method AddMetric(trail0: map<TrailKey, AuditEntry>, data: ReportDict, pages: seq<PageRecord>,
                   done: seq<Field>, m: MetricName) returns (trail: map<TrailKey, AuditEntry>)
    requires TrailUpTo(trail0, data, pages, done, None, [])
    ensures TrailUpTo(trail, data, pages, done + [MetricField(m)], None, [])
  {
    trail := trail0;
    var metricData := data.Get(m);
    StartMetric(trail, data, pages, done, m);
    for t := 0 to |PERIODS|
      invariant TrailUpTo(trail, data, pages, done, Some(m), PERIODS[..t])
    {
      var period := PERIODS[t];
      assert PERIODS[..t + 1] == PERIODS[..t] + [period];
      AddPeriod(trail, data, pages, done, m, PERIODS[..t], period);
      var valObj := metricData.Get(period);
      if valObj.Some? && valObj.value.fields.value.Some? {
        trail := trail[SlotKey(m, period) := Record(MakeRecord(valObj.value, pages))];
      }
    }
    assert PERIODS[..|PERIODS|] == PERIODS;
    FinishMetric(trail, data, pages, done, m);
  }

  /** Starting on metric `m` changes nothing in the trail. */
  lemma StartMetric(trail: map<TrailKey, AuditEntry>, data: ReportDict, pages: seq<PageRecord>,
                    done: seq<Field>, m: MetricName)
    requires TrailUpTo(trail, data, pages, done, None, [])
    ensures TrailUpTo(trail, data, pages, done, Some(m), [])
  {
  }

  /** One period of metric `m`: a recorded slot gets its record, any other is skipped. */
  lemma AddPeriod(trail: map<TrailKey, AuditEntry>, data: ReportDict, pages: seq<PageRecord>,
                  done: seq<Field>, m: MetricName, periods: seq<Period>, p: Period)
    requires TrailUpTo(trail, data, pages, done, Some(m), periods)
    ensures TrailUpTo(
      if Recorded(data.Get(m).Get(p)) then trail[SlotKey(m, p) := Record(MakeRecord(data.Get(m).Get(p).value, pages))]
      else trail, data, pages, done, Some(m), periods + [p])
  {
  }

  /** Once every period of `m` is done, the trail covers the field `m`. */
  lemma FinishMetric(trail: map<TrailKey, AuditEntry>, data: ReportDict, pages: seq<PageRecord>,
                     done: seq<Field>, m: MetricName)
    requires TrailUpTo(trail, data, pages, done, Some(m), PERIODS)
    ensures TrailUpTo(trail, data, pages, done + [MetricField(m)], None, [])
  {
    forall p: Period
      ensures p in PERIODS
    {
      var i := p.Index();
    }
  }

  /** Every scalar and every metric is one of the fields. */
  lemma FieldsListed()
    ensures forall f :: Scalar(f) in FIELDS
    ensures forall m :: MetricField(m) in FIELDS
  {
    forall f: ScalarField
      ensures Scalar(f) in FIELDS
    {
      match f
      case ReportingYear => assert FIELDS[0] == Scalar(f);
      case Currency => assert FIELDS[1] == Scalar(f);
      case Scope3Categories => assert FIELDS[6] == Scalar(f);
    }
    forall m: MetricName
      ensures MetricField(m) in FIELDS
    {
      match m
      case Revenue => assert FIELDS[2] == MetricField(m);
      case CO2Scope1 => assert FIELDS[3] == MetricField(m);
      case CO2Scope2 => assert FIELDS[4] == MetricField(m);
      case CO2Scope3 => assert FIELDS[5] == MetricField(m);
    }
  }

  /** A trail over all the fields is complete. */
  lemma TrailComplete(trail: map<TrailKey, AuditEntry>, data: ReportDict, pages: seq<PageRecord>)
    requires TrailUpTo(trail, data, pages, FIELDS, None, [])
    ensures forall f :: ScalarKey(f) in trail && trail[ScalarKey(f)] == ScalarEntry(data, f)
    ensures forall m, p :: SlotKey(m, p) in trail <==> Recorded(data.Get(m).Get(p))
    ensures forall m, p :: Recorded(data.Get(m).Get(p)) ==>
      SlotKey(m, p) in trail && trail[SlotKey(m, p)] == Record(MakeRecord(data.Get(m).Get(p).value, pages))
    ensures forall k :: k in trail && trail[k].Record? ==> 0.5 <= trail[k].record.confidence <= 1.0
  {
    FieldsListed();
    forall k | k in trail
      ensures trail[k].Record? ==> 0.5 <= trail[k].record.confidence <= 1.0
    {
      match k
      case ScalarKey(f) =>
        assert trail[k] == ScalarEntry(data, f);
      case SlotKey(m, p) =>
        assert trail[k] == Record(MakeRecord(data.Get(m).Get(p).value, pages));
    }
  }

  /** Across normalization and assembly: every record built from normalized data
      carries the value scaled by its unit's multiplier. */
  lemma RecordOfNormalizedSlot(slot: Option<ValueDict>, pages: seq<PageRecord>)
    requires Recorded(slot)
    ensures Recorded(NormalizedSlot(slot))
    ensures MakeRecord(NormalizedSlot(slot).value, pages).normalizedValue
      == Some(slot.value.fields.value.value * Multiplier(slot.value.fields.unit))
  {
    var v := slot.value.fields;
    assert NormalizedSlot(slot).value.normalizedValue == Some(Scaled(v.value, v.unit));
  }

  /** A snippet and its page that the page's blocks account for yield a box. */
  lemma FindBboxFinds(snippet: string, pages: seq<PageRecord>, i: nat, j: nat)
    requires snippet != "" && i < |pages| && pages[i].page != 0
    requires j < |pages[i].blocks| && Contains(Lower(pages[i].blocks[j].text), Lower(snippet))
    ensures FindBbox(Some(snippet), Some(pages[i].page), pages).Some?
  {
    assert Hit(snippet, pages[i].page, pages, i, j);
  }

  /** The period a key suffix spells, if any. */
  function PeriodOf(t: string): Option<Period>
  {
    if t == "y0" then Some(Y0)
    else if t == "y0_1" then Some(Y0_1)
    else if t == "y0_2" then Some(Y0_2)
    else None
  }

  /** The scope a digit names, if any. */
  function ScopeOf(c: char): Option<MetricName>
  {
    if c == '1' then Some(CO2Scope1)
    else if c == '2' then Some(CO2Scope2)
    else if c == '3' then Some(CO2Scope3)
    else None
  }

  /** Reads a trail key back from its spelling. */
  function ParseKey(s: string): Option<TrailKey>
  {
    if s == "reporting_year" then Some(ScalarKey(ReportingYear))
    else if s == "currency" then Some(ScalarKey(Currency))
    else if s == "scope_3_reporting_categories_y0" then Some(ScalarKey(Scope3Categories))
    else if StartsWith(s, "revenue_") then
      match PeriodOf(s[8..])
      case Some(p) => Some(SlotKey(Revenue, p))
      case None => None
    else if StartsWith(s, "co2_scope_") && |s| >= 12 && s[11] == '_' then
      match (ScopeOf(s[10]), PeriodOf(s[12..]))
      case (Some(m), Some(p)) => Some(SlotKey(m, p))
      case _ => None
    else None
  }

  /** Every key reads back from its spelling. */
  lemma ParseKeyName(k: TrailKey)
    ensures ParseKey(KeyName(k)) == Some(k)
  {
    match k
    case ScalarKey(_) =>
    case SlotKey(m, p) =>
      PeriodOfKey(p);
      if m == Revenue {
        RevenueKeyName(p);
      } else {
        ScopeKeyName(m, p);
      }
  }

  /** A period's suffix reads back as the period. */
  lemma PeriodOfKey(p: Period)
    ensures PeriodOf(p.Key()) == Some(p)
  {
  }

  /** `revenue_<period>` reads back as the revenue slot of the period. */
  lemma RevenueKeyName(p: Period)
    requires PeriodOf(p.Key()) == Some(p)
    ensures ParseKey(KeyName(SlotKey(Revenue, p))) == Some(SlotKey(Revenue, p))
  {
    var s := KeyName(SlotKey(Revenue, p));
    assert s[..8] == "revenue_";
    assert s[8..] == p.Key();
  }

  /** `co2_scope_<n>_<period>` reads back as the scope's slot of the period. */
  lemma ScopeKeyName(m: MetricName, p: Period)
    requires m != Revenue && PeriodOf(p.Key()) == Some(p)
    ensures ParseKey(KeyName(SlotKey(m, p))) == Some(SlotKey(m, p))
  {
    var s := KeyName(SlotKey(m, p));
    assert s[0] == 'c' && s[0] != "reporting_year"[0];
    assert !StartsWith(s, "revenue_");
    assert s[..10] == "co2_scope_";
    assert s[11] == '_';
    assert ScopeOf(s[10]) == Some(m);
    assert s[12..] == p.Key();
  }

  /** Distinct trail keys are spelled differently, so no entry overwrites another. */
  lemma KeyNameInjective(a: TrailKey, b: TrailKey)
    requires KeyName(a) == KeyName(b)
    ensures a == b
  {
    ParseKeyName(a);
    ParseKeyName(b);
  }
}
