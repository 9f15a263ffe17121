# ESG extraction pipeline, modelled in Dafny

The system reads a company's PDF report and fills one row of an ESG table: the most recent
reporting year, the currency, revenue in millions and CO2 scope 1, 2 and 3 emissions for the
three most recent years (Y0, Y0-1, Y0-2), and the number of scope-3 reporting categories.
It runs four agents in turn:

- the **layout agent** scores each page by the ESG keywords it mentions, and keeps the 20
  best-scoring pages in page order;
- the **extraction agent** tags those pages with their numbers, joins them into one prompt and
  asks a language model for a schema-shaped answer;
- the **normalization agent** scales every value by the magnitude its unit names (billion,
  million, thousand);
- the **verification agent** builds an audit trail with one record per extracted value: its
  fields, the bounding box of its source text, a heuristic confidence and the extraction method.

The driver then formats the normalized data into a row and upserts it into the table, replacing
any earlier row of the same company. The number helpers module (a character filter, a
locale-aware float parser and a whole-word multiplier) is modelled as well.

Modules:

| file | module | models |
|---|---|---|
| `wrappers.dfy` | `Wrappers` | `Option` |
| `text.dfy` | `Text` | the Python string operations used: `lower`, `upper`, `strip`, `in`, `find`/`rfind`, `replace`, `join`, `str(int)`, digit grouping |
| `schema.dfy` | `Schema` | the pydantic schema (`ExtractedValue`, `Metric`, `ESGExtraction`) and its `model_dump` |
| `layout.dfy` | `Layout` | `agents/layout_agent.py` (`LayoutAgent` is a class whose `Run` rewrites `pagesData`) |
| `extraction.dfy` | `Extraction` | `agents/extraction_agent.py` |
| `normalization.dfy` | `Normalization` | `agents/normalization_agent.py` |
| `verification.dfy` | `Verification` | `agents/verification_agent.py` |
| `numbers.dfy` | `NumberUtils` | `utils/number_utils.py` |
| `pipeline.dfy` | `Pipeline` | `extract.py` |

Modelling choices:

- The language-model call is an **oracle**, a function parameter from the prompt to
  `Option<ESGExtraction>`. `None` covers both a failing call and a null parsed answer.
- The PDF reader's output is an **input**: the page records (page number, text, text blocks).
  Whether the PDF exists is a boolean input.
- So is the table already on disk.
- A data dict is a typed record, `Report<V>`.
  - The schema instance is `Report<ExtractedValue>`.
  - The dumped dict is `Report<ValueDict>`: the fields, plus `normalizedValue: Option<Option<real>>`. The outer `Option` says whether the key `normalized_value` is present.
  - The empty dict `{}` is `None`.
- Floats are `real`. The `.2f` format rounds the exact value to cents, ties to even.
- The audit trail is a `map` from trail keys to entries.
  - `Verification.KeyNameInjective` proves that distinct keys are spelled differently.
  - So no trail entry overwrites another.
- How a run ends is an `Outcome`: `FileNotFound`, `NoCandidates`, or `Completed`. `Completed` carries the trail and the table.
  - `FileNotFound` stands for `sys.exit(1)`.
  - `NoCandidates` stands for `sys.exit(0)`.

## Model

| member | source | states |
|---|---|---|
| Layout.KeywordScore | agents/layout_agent.py:9-14 | the score is at most 15, one per pattern, and is 0 exactly when no ESG pattern matches the lower-cased text |
| Layout.CountMatches | agents/layout_agent.py:35 | the count of matching patterns is bounded by the number of patterns and is 0 exactly when none matches |
| Layout.Candidates | agents/layout_agent.py:32-40 | the candidates are exactly the pages with a positive score, and there are no more of them than pages |
| Layout.SortByScore | agents/layout_agent.py:45 | the descending sort by score is a permutation of its input |
| Layout.SortByPage | agents/layout_agent.py:48 | the sort by page number is a permutation of its input |
| Layout.LayoutAgent.constructor | agents/layout_agent.py:23-25 | a new agent has its path and no page data |
| Layout.LayoutAgent.Run | agents/layout_agent.py:27-50 | every page record gets its keyword score written in place, nothing else changes, and the result is the selection from the candidates |
| Layout.CandidatesIncreasing | agents/layout_agent.py:32-40 | filtering keeps the document order of the pages |
| Layout.SortByScoreRanked | agents/layout_agent.py:45 | the score sort is stable: higher scores first, with ties in document order |
| Layout.SortByPageIncreasing | agents/layout_agent.py:48 | the page sort orders pages with distinct numbers strictly by page number |
| Layout.SelectionShape | agents/layout_agent.py:44-48 | at most 20 pages are selected, each a candidate page with a positive score, and they come in increasing page order |
| Layout.SelectionOutranksLeftOut | agents/layout_agent.py:45-47 | every selected page outranks every candidate left out: a higher score, or an equal score and an earlier page |
| Layout.SelectionKeepsAllWhenFew | agents/layout_agent.py:45-48 | with at most 20 candidates, all of them are selected, in document order |
| Layout.SameElementsIncreasingEqual | agents/layout_agent.py:48 | two page-ordered sequences with the same elements are equal, so the final sort fixes the result |
| Layout.NoMatchNoSelection | agents/layout_agent.py:38-40 | when no page mentions any keyword, nothing is selected |
| Layout.TakeSub | agents/layout_agent.py:47 | taking the first n pages keeps at most n pages, all of them from the input |
| Schema.Dump | agents/extraction_agent.py:90-92 | `model_dump` keeps the scalars and, for every slot, whether it is present and its fields, with no `normalized_value` key yet |
| Schema.Metric.Set | agents/normalization_agent.py:19-21 | writing one period changes that period only |
| Schema.Report.Set | agents/normalization_agent.py:56-62 | writing one metric changes that metric only and keeps the scalars |
| Extraction.Parts | agents/extraction_agent.py:61-64 | one tagged part per page, in page order |
| Extraction.Run | agents/extraction_agent.py:48-96 | no pages give the empty result; otherwise the oracle is asked with the fixed prompt around the joined context, and its answer is dumped, or empty when the call fails |
| Extraction.PromptEndsWithContext | agents/extraction_agent.py:68-75 | the prompt ends with "CONTEXT:\n" followed by the context |
| Extraction.ContextInOrder | agents/extraction_agent.py:66 | the context holds the tagged pages in order, separated by newlines |
| Extraction.PagePartTagged | agents/extraction_agent.py:64 | each page's part is tagged with its page number, followed by its text and a newline |
| Normalization.MultiplierClasses | agents/normalization_agent.py:27-36 | the factor is 10^9, 10^6, 10^3 or 1; billion wins over million, which wins over thousand; the factor is 1 exactly when no class matches |
| Normalization.Scaled | agents/normalization_agent.py:25-44 | the normalized value is null exactly when the value is null |
| Normalization.NormalizedSlot | agents/normalization_agent.py:20-44 | a present slot keeps its fields and gains the scaled value; an absent slot stays absent |
| Normalization.NormalizeDict | agents/normalization_agent.py:21-44 | one iteration of the period loop: a present dict gets its value scaled by its unit, or a null `normalized_value` for a null value, and keeps its other fields |
| Normalization.NormalizeMetric | agents/normalization_agent.py:15-46 | every period of the metric is normalized, whatever `is_financial` says |
| Normalization.Run | agents/normalization_agent.py:48-64 | empty stays empty; otherwise the four metrics are normalized and the three scalars pass through |
| Normalization.NormalizedSlotHasKey | agents/normalization_agent.py:43-44 | after normalization a present slot always has the key, null exactly when its value is null |
| Normalization.NormalizedSlotIdempotent | agents/normalization_agent.py:15-46 | normalizing twice gives what normalizing once gives |
| Normalization.MultiplierMillionWord | agents/normalization_agent.py:31-32 | "million" scales by 10^6 |
| Normalization.MultiplierBn | agents/normalization_agent.py:29-30 | "bn" scales by 10^9 |
| Normalization.MultiplierNoUnit | agents/normalization_agent.py:23 | a missing or empty unit does not scale |
| Normalization.MultiplierKg | agents/normalization_agent.py:33-34 | "kg" contains "k", so it scales by a thousand |
| Normalization.MultiplierMn | agents/normalization_agent.py:29-36 | "mn" matches no class, so it does not scale |
| Normalization.MultiplierBillionFirst | agents/normalization_agent.py:29-30 | a unit that names both billion and thousand scales by a billion |
| Normalization.MultiplierTonnes | agents/normalization_agent.py:27-36 | "tCO2e" matches no class and does not scale |
| Normalization.MultiplierSpacedM | agents/normalization_agent.py:31 | " M " is stripped and lower-cased to "m", so it scales by a million |
| Normalization.ScaledExamples | agents/normalization_agent.py:25-44 | 100 million is 10^8; 2.5 bn is 2.5·10^9; no unit keeps 500; a null value stays null |
| Verification.FirstBlock | agents/verification_agent.py:23-25 | returns the first block whose text overlaps the snippet, ignoring case; earlier blocks do not |
| Verification.FirstPage | agents/verification_agent.py:21-25 | returns the first page with the number that has an overlapping block |
| Verification.FindBbox | agents/verification_agent.py:17-26 | no box without a truthy snippet and page; a box found is that of the first block, scanning pages and then blocks in order, that lies on a page with that number and whose text overlaps the snippet, ignoring case; there is no box exactly when no such block exists |
| Verification.FindBboxFinds | agents/verification_agent.py:21-25 | a block on the right page that contains the snippet guarantees a box |
| Verification.ComputeConfidence | agents/verification_agent.py:28-44 | 0 exactly without a value; otherwise at least 0.5, plus 0.2 for a reasoning summary and 0.2 for a page, capped at 1 |
| Verification.ConfidenceLevels | agents/verification_agent.py:33-43 | the confidence is one of 0, 0.5, 0.7 and 0.9, and 0.9 exactly when the value, the reasoning and the page are all given |
| Verification.ConfidenceMonotone | agents/verification_agent.py:33-41 | more evidence never lowers the confidence |
| Verification.MakeRecord | agents/verification_agent.py:63-76 | the record copies the slot's fields and normalized value, looks up the box, has a confidence between 0.5 and 1, and names the fixed extraction method |
| Verification.BuildVerificationJson | agents/verification_agent.py:46-79 | empty data gives an empty trail; otherwise every scalar is wrapped, and exactly the slots with a non-null value get their record |
| Verification.AddMetric | agents/verification_agent.py:58-77 | the period loop adds exactly the recorded periods of one metric |
| Verification.TrailComplete | agents/verification_agent.py:53-77 | after all fields, the trail has every scalar and exactly the recorded slots, each with its record |
| Verification.RecordOfNormalizedSlot | agents/verification_agent.py:72 | a record made from normalized data carries the value times its unit's multiplier |
| Verification.ParseKeyName | agents/verification_agent.py:55-59 | every trail key reads back from its spelling |
| Verification.KeyNameInjective | agents/verification_agent.py:55-59 | distinct trail keys are spelled differently |
| NumberUtils.KeepNumberChars | utils/number_utils.py:10 | the filter keeps only digits, '.', ',' and '-', and never lengthens the text |
| NumberUtils.CleanNumberString | utils/number_utils.py:3-11 | None stays None; the result holds no space and only number characters |
| NumberUtils.CleanIsFilter | utils/number_utils.py:8-10 | dropping the spaces first changes nothing: the result is the number-character filter of the text |
| NumberUtils.CleanNumberStringIdempotent | utils/number_utils.py:3-11 | cleaning twice gives what cleaning once gives |
| NumberUtils.RewriteSeparators | utils/number_utils.py:20-34 | the separator rewrite never lengthens the text |
| NumberUtils.ParseFloat | utils/number_utils.py:13-39 | None and "" give None, and a parsed value comes from non-blank text |
| NumberUtils.ParseEnglish | utils/number_utils.py:23-26 | comma-grouped digits with a decimal point read as their value |
| NumberUtils.ParseContinental | utils/number_utils.py:27-31 | dot-grouped digits with a decimal comma read as their value |
| NumberUtils.ParseDecimalComma | utils/number_utils.py:27-31 | digits with a single comma read the comma as the decimal point |
| NumberUtils.ParseSingleCommaGroup | utils/number_utils.py:27-31 | "12,345" reads as 12.345, not as twelve thousand |
| NumberUtils.ParseAmbiguous | utils/number_utils.py:27-39 | two commas and no point turn into two points, which `float` rejects: None |
| NumberUtils.TwoPointsUnreadable | utils/number_utils.py:36-39 | text with two decimal points does not read as a number |
| NumberUtils.HasWordFrom | utils/number_utils.py:48-52 | the scan is true exactly when the word occurs as a whole word at or after the index |
| NumberUtils.NormalizeMultiplier | utils/number_utils.py:41-56 | None stays None; a present value is multiplied by the factor `WordMultiplier` finds in the context, and is returned unchanged when that factor is 1 |
| NumberUtils.WordMultiplierClasses | utils/number_utils.py:48-55 | the factor is 10^9, 10^6, 10^3 or 1; a whole word billion/bn/b gives 10^9 and wins over million/m (10^6), which wins over thousand/k (10^3); the factor is 1 exactly when none of the seven words occurs as a whole word |
| NumberUtils.SingleWordContext | utils/number_utils.py:48-52 | in a context of word characters only, a word matches exactly when it is the whole context |
| NumberUtils.WordRulesDifferFromAgent | utils/number_utils.py:52 | "kg" scales by a thousand in the agent's substring rule and not at all under the whole-word rule |
| NumberUtils.BillionWordWins | utils/number_utils.py:48-49 | the billion class is tested first: "EUR bn, m" scales by a billion |
| Pipeline.CleanMissing | extract.py:24-27 | the missing spellings (None, "None", "n/a" in any case, padded) become "N/A"; everything else is returned unchanged |
| Pipeline.UpperNa | extract.py:25 | upper-casing reads "N/A" exactly for the case variants of "n/a" |
| Pipeline.CleanMissingPadded | extract.py:25 | "n/a" between white space is missing |
| Pipeline.CleanMissingKeepsNumbers | extract.py:25-27 | numbers are never missing |
| Pipeline.CleanMissingIdempotent | extract.py:24-27 | cleaning twice gives what cleaning once gives |
| Pipeline.RoundHalfEven | extract.py:34 | the rounding is within one half of the value, and an exact tie goes to the even integer |
| Pipeline.FormatNumber | extract.py:34 | a number always prints as a non-empty text |
| Pipeline.FormatComma | extract.py:29-37 | "N/A" and non-numbers are returned unchanged; numbers print with thousands separators |
| Pipeline.FormatVal | extract.py:110-119 | the result is a string or the input itself; it is blank exactly for None, "N/A" and ""; other non-numbers pass through |
| Pipeline.FormatIntegral | extract.py:116 | an integral value prints as its sign and comma-grouped digits, which spell its magnitude |
| Pipeline.FormatFloat | extract.py:116 | an integral float prints with no decimal point; any other prints its sign, its grouped whole part, a point and exactly two digits, and whole part and digits read back as the magnitude rounded to cents |
| Pipeline.FormatValInt | extract.py:116 | 12345 prints as "12,345" |
| Pipeline.FormatValMillion | extract.py:116 | 1234567.0 prints as "1,234,567" |
| Pipeline.FormatValNegative | extract.py:116 | -2500.0 prints as "-2,500" |
| Pipeline.FormatValHalf | extract.py:116 | 1234.5 prints as "1,234.50" |
| Pipeline.FormatValTieDown | extract.py:116 | 0.125 prints as "0.12": the tie goes to the even digit |
| Pipeline.FormatValTieUp | extract.py:116 | 0.375 prints as "0.38" |
| Pipeline.TwoDecimalsClose | extract.py:116 | the printed cents are within half a cent of the value |
| Pipeline.GetVal | extract.py:100-102 | a value exactly when the data has the slot with a non-null normalized value, and then it is that value |
| Pipeline.GetRevMillions | extract.py:104-108 | revenue in millions: None exactly when the revenue is missing, otherwise a millionth of it |
| Pipeline.GetValOfNormalized | extract.py:100-102 | after normalization `get_val` reads the value scaled by its unit |
| Pipeline.RevenueCellOfNormalized | extract.py:104-108 | after normalization the revenue cell reads the scaled value divided by a million |
| Pipeline.RepYearCell | extract.py:121-126 | a missing year is blank, an integral float becomes an int, anything else is kept |
| Pipeline.S3CatsCell | extract.py:128-134 | None is blank, an integral float becomes an int, anything else, even "N/A", is kept |
| Pipeline.CurrencyCell | extract.py:136-137 | a missing currency is blank, anything else is kept |
| Pipeline.CellsUnderHeader | extract.py:139-160 | each cell sits under the column that names it: the name, year, year end, currency and scope-3 categories in their places, and each period's metrics under the period-prefixed metric names |
| Pipeline.BuildRow | extract.py:139-160 | the row names the company and the year end "31-Dec"; each metric cell is the formatted value, revenue in millions; the scalars follow the cell rules; without data every cell but the name and the year end is blank |
| Pipeline.Without | extract.py:167 | dropping a company's rows never adds rows |
| Pipeline.WithoutMembers | extract.py:167 | the rows kept are exactly those of other companies |
| Pipeline.WithoutCount | extract.py:167 | every row of another company is kept as often as it occurred; the company's own rows are all dropped |
| Pipeline.WithoutIdempotent | extract.py:167 | dropping twice gives what dropping once gives |
| Pipeline.Upsert | extract.py:164-170 | the new row goes last |
| Pipeline.UpsertUnique | extract.py:164-170 | after the upsert exactly one row carries the company's name, the last one |
| Pipeline.UpsertKeepsOthers | extract.py:166-168 | the rows of other companies are kept in their order |
| Pipeline.UpsertReplaces | extract.py:164-170 | upserting the same company twice leaves only the second row |
| Pipeline.SlotValues | extract.py:80-83 | the comprehension fails exactly on a present slot without the key; otherwise it maps exactly the present periods to their normalized values |
| Pipeline.ProjectMetrics | extract.py:80-83 | the projection fails exactly when a present slot lacks the key; otherwise every metric is there, and each period maps to what `get_val` reads |
| Pipeline.FillPeriods | extract.py:88-89 | every period is present afterwards, the old ones unchanged and the new ones None |
| Pipeline.ValidationProjection | extract.py:77-89 | the year and the currency pass through, and every period of every metric holds what `get_val` reads |
| Pipeline.NormalizedAllKeyed | extract.py:80-83 | normalized data always has the key the projection reads, so the projection never fails |
| Pipeline.Basename | extract.py:42 | the name is the part of the path after its last '/' |
| Pipeline.Scored | agents/layout_agent.py:33-36 | the scored pages are the input pages with their keyword scores |
| Pipeline.ExtractPipeline | extract.py:39-174 | the run ends as file-not-found exactly when the file is missing, without a table exactly when no page is selected, and completes exactly when the file exists and a page is selected; then the table is the upsert of a row named after the file, holding blanks when the oracle gives no answer and the scaled answer values and cleaned scalars otherwise; the trail then wraps the three scalars and holds a record exactly for each non-null answer value, with its fields, its value scaled by its unit, the box of its raw text on the selected pages and a confidence between 0.5 and 1 |
| Pipeline.Complete | extract.py:55-170 | from the selected pages on: every cell of the row, scalar and metric, and every trail entry, scalar wrapper and record, is fixed by the oracle's answer to the prompt of those pages; no answer gives a blank row and an empty trail |
| Pipeline.FinalCells | extract.py:57-160 | extraction, normalization, the trail and formatting compose: the scalar and metric cells and the trail's scalar entries and records are those the oracle's answer determines |
| Pipeline.Scope1Scenario | extract.py:146 | a Y0 scope-1 answer of 12345 tCO2e prints "12,345" under its column, and the trail's `co2_scope_1_y0` record has normalized value 12345 and a confidence of at least 0.5 |

## Left out

- The whole program is modelled without I/O:
  - reading the PDF is abstracted (the page records are an input);
  - reading and writing the CSV, pandas and the verification JSON file are not modelled;
  - so are logging, `argparse` and the environment;
  - the table on disk is an input and the new table an output.
- The language-model call is abstracted: the oracle parameter stands for it, including the fixed system message, the model name and the temperature.
- The PDF utilities, including the commented-out table extraction, are not part of this model.
- The schema check itself is not modelled. `jsonschema.validate` and the test for the schema file are calls into code outside the model. The projection it validates is modelled.
- There is no floating point. Values are exact reals, so NaN, infinities and `pd.isna` are not modelled, and neither is binary rounding before the `.2f` format. For example, the source's confidence `0.5 + 0.2 + 0.2` is the float 0.8999999999999999, while Verification.ConfidenceLevels gives 0.9.
- NumberUtils.ParseFloat: `float()` is narrowed to an optional sign followed by decimal digits with at most one point.
  - Exponents, underscores, `inf` and `nan` are not read.
  - Other white space than the stripped ends is not allowed. This matters when the separator rewrite deletes a leading separator: `parse_float(",  5.0")` rewrites to `"  5.0"`, which `float` reads as 5.0, while the model gives None.
- Text.Lower and Text.Upper: case mapping is ASCII only, so non-ASCII letters keep their case. The regex classes `\w` and `\d` are ASCII only too, so `[^\d.,\-]` drops non-ASCII digits that Python keeps. `\s` and `strip` use the full `str.isspace` set (Text.IsSpace). Python's `float()` also reads non-ASCII decimal digits (for example Arabic-Indic digits), which the model's NumberUtils.ParseDecimal does not.
- Layout.Matches: the regexes are written out as predicates. The model faithfully covers only the 15 patterns of the keyword list.
- Normalization.Run: the shallow copy of the input is not modelled.
  - The source aliases the nested dicts, so normalizing also changes the raw data in place.
  - The model works on values, and nothing later reads the raw data.
- Normalization.NormalizeMetric:
  - The falsy-metric and non-dict-slot guards are not modelled, because a `model_dump` always produces a dict for every metric.
  - The `is_financial` branch does nothing in the source, and the model keeps it empty.
- Verification.BuildVerificationJson: the trail is a map. The key order of `items()` is kept only as the order of the loop, not in the result.
- Pipeline.ExtractPipeline: `sys.exit` becomes the `FileNotFound` and `NoCandidates` outcomes. The exit codes and the writing of files are not modelled.
- Pipeline.ExtractPipeline: the validation projection is modelled separately as Pipeline.ValidationProjection, not inside the run, because its only effect is a log line.
- Pipeline.Upsert: rows read back from an existing CSV are treated as rows of the same type. The string conversion of `dtype=str` and `fillna("")` are not modelled.
