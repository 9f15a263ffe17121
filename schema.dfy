/** The structured-output schema of agents/extraction_agent.py (ExtractedValue,
    Metric, ESGExtraction), and the dict form `model_dump()` gives it, which
    the later stages read and extend. */
module Schema {
  import opened Wrappers

  datatype SourceType = Table | Paragraph | Infographic

  /** Every field is optional: the oracle reports "not found" as null. */
  datatype ExtractedValue = ExtractedValue(
    value: Option<real>,
    rawText: Option<string>,
    unit: Option<string>,
    page: Option<int>,
    sourceType: Option<SourceType>,
    reasoningSummary: Option<string>)

  /** The reporting periods Y0, Y0-1, Y0-2, in the order the source iterates them. */
  datatype Period = Y0 | Y0_1 | Y0_2
  {
    function Key(): string
    {
      match this
      case Y0 => "y0"
      case Y0_1 => "y0_1"
      case Y0_2 => "y0_2"
    }

    /** The position of the period in PERIODS. */
    function Index(): (i: nat)
      ensures i < |PERIODS| && PERIODS[i] == this
    {
      match this
      case Y0 => 0
      case Y0_1 => 1
      case Y0_2 => 2
    }
  }

  const PERIODS: seq<Period> := [Y0, Y0_1, Y0_2]

  lemma AllPeriods()
    ensures forall p :: p in PERIODS
  {
    forall p: Period
      ensures p in PERIODS
    {
      match p
      case Y0 => assert PERIODS[0] == p;
      case Y0_1 => assert PERIODS[1] == p;
      case Y0_2 => assert PERIODS[2] == p;
    }
  }

  /** One metric: three optional slots. */
  datatype Metric<V> = Metric(y0: Option<V>, y0_1: Option<V>, y0_2: Option<V>)
  {
    function Get(p: Period): Option<V>
    {
      match p
      case Y0 => y0
      case Y0_1 => y0_1
      case Y0_2 => y0_2
    }

    function Set(p: Period, v: Option<V>): (r: Metric<V>)
      ensures r.Get(p) == v
      ensures forall q :: q != p ==> r.Get(q) == Get(q)
    {
      match p
      case Y0 => this.(y0 := v)
      case Y0_1 => this.(y0_1 := v)
      case Y0_2 => this.(y0_2 := v)
    }

    /** Writing back the slot a period already holds changes nothing. */
    lemma SetSame(p: Period)
      ensures Set(p, Get(p)) == this
    {
    }
  }

  /** The four metrics, in the order of the schema. */
  datatype MetricName = Revenue | CO2Scope1 | CO2Scope2 | CO2Scope3
  {
    function Key(): string
    {
      match this
      case Revenue => "revenue"
      case CO2Scope1 => "co2_scope_1"
      case CO2Scope2 => "co2_scope_2"
      case CO2Scope3 => "co2_scope_3"
    }
  }

  const METRICS: seq<MetricName> := [Revenue, CO2Scope1, CO2Scope2, CO2Scope3]

  lemma AllMetrics()
    ensures forall m :: m in METRICS
  {
    forall m: MetricName
      ensures m in METRICS
    {
      match m
      case Revenue => assert METRICS[0] == m;
      case CO2Scope1 => assert METRICS[1] == m;
      case CO2Scope2 => assert METRICS[2] == m;
      case CO2Scope3 => assert METRICS[3] == m;
    }
  }

  /** An extraction: the document-level scalars and the four metrics, all always present. */
  datatype Report<V> = Report(
    reportingYear: Option<int>,
    currency: Option<string>,
    revenue: Metric<V>,
    co2Scope1: Metric<V>,
    co2Scope2: Metric<V>,
    co2Scope3: Metric<V>,
    scope3Categories: Option<int>)
  {
    function Get(m: MetricName): Metric<V>
    {
      match m
      case Revenue => revenue
      case CO2Scope1 => co2Scope1
      case CO2Scope2 => co2Scope2
      case CO2Scope3 => co2Scope3
    }

    function Set(m: MetricName, metric: Metric<V>): (r: Report<V>)
      ensures r.Get(m) == metric
      ensures forall n :: n != m ==> r.Get(n) == Get(n)
      ensures r.reportingYear == reportingYear && r.currency == currency
      ensures r.scope3Categories == scope3Categories
    {
      match m
      case Revenue => this.(revenue := metric)
      case CO2Scope1 => this.(co2Scope1 := metric)
      case CO2Scope2 => this.(co2Scope2 := metric)
      case CO2Scope3 => this.(co2Scope3 := metric)
    }
  }

  /** The oracle's answer, as the schema types it. */
  type ESGExtraction = Report<ExtractedValue>

  /** The dict of one value after `model_dump()`: the schema fields, and the key
      `normalized_value`, absent (None) until normalization writes it. */
  datatype ValueDict = ValueDict(fields: ExtractedValue, normalizedValue: Option<Option<real>>)

  /** The dumped extraction the later stages pass along. */
  type ReportDict = Report<ValueDict>

  function DumpSlot(v: Option<ExtractedValue>): Option<ValueDict>
  {
    match v
    case Some(x) => Some(ValueDict(x, None))
    case None => None
  }

  function DumpMetric(m: Metric<ExtractedValue>): Metric<ValueDict>
  {
    Metric(DumpSlot(m.y0), DumpSlot(m.y0_1), DumpSlot(m.y0_2))
  }

  /** `result.model_dump()`: the same fields, as dicts without `normalized_value`. */
  function Dump(e: ESGExtraction): (r: ReportDict)
    ensures r.reportingYear == e.reportingYear && r.currency == e.currency
    ensures r.scope3Categories == e.scope3Categories
    ensures forall m, p :: r.Get(m).Get(p).Some? <==> e.Get(m).Get(p).Some?
    ensures forall m, p :: r.Get(m).Get(p).Some? ==>
      r.Get(m).Get(p).value == ValueDict(e.Get(m).Get(p).value, None)
  {
    Report(e.reportingYear, e.currency,
      DumpMetric(e.revenue), DumpMetric(e.co2Scope1), DumpMetric(e.co2Scope2), DumpMetric(e.co2Scope3),
      e.scope3Categories)
  }
}
