/** The extraction step (agents/extraction_agent.py): the selected pages are
    tagged with their page numbers and joined into one context, which goes,
    inside a fixed prompt, to the schema-constrained oracle. An empty page list,
    a failed call or a null answer all give the empty result. */
module Extraction {
  import opened Wrappers
  import opened Text
  import opened Layout
  import opened Schema

  /** The oracle: the language-model call with the fixed system message, the
      ESGExtraction response format and temperature 0, which returns the parsed
      answer, or None when the call raises or the parsed answer is null. */
  type Oracle = string -> Option<ESGExtraction>

  const INSTRUCTIONS: string :=
    "You are an expert ESG Data Extractor. Your task is to extract exact ESG metrics "
    + "from the following text. The most recent reporting year is Y0, the previous year is Y0-1, etc. "
    + "If multiple candidates are found, prefer tables over paragraphs, prefer consolidated ESG tables. "
    + "IMPORTANT: If a value is missing or not explicitly stated, return null.\n\n"

  /** `f"--- PAGE {p['page']} ---\n{p['text']}\n"`. */
  function PagePart(p: PageRecord): string
  {
    "--- PAGE " + IntToString(p.page) + " ---\n" + p.text + "\n"
  }

  function Parts(pages: seq<PageRecord>): (r: seq<string>)
    ensures |r| == |pages|
    ensures forall i :: 0 <= i < |pages| ==> r[i] == PagePart(pages[i])
  {
    seq(|pages|, i requires 0 <= i < |pages| => PagePart(pages[i]))
  }

  /** `"\n".join(context_parts)`. */
  function Context(pages: seq<PageRecord>): string
  {
    Join("\n", Parts(pages))
  }

  function Prompt(context: string): string
  {
    INSTRUCTIONS + "CONTEXT:\n" + context
  }

  /** `ExtractionAgent.run`: None stands for the empty dict `{}`. */
  method Run(candidates: seq<PageRecord>, oracle: Oracle) returns (r: Option<ReportDict>)
    ensures candidates == [] ==> r == None
    ensures candidates != [] ==> r == match oracle(Prompt(Context(candidates)))
                                      case Some(e) => Some(Dump(e))
                                      case None => None
  {
    if candidates == [] {
      return None;
    }
    var contextParts: seq<string> := [];
    for i := 0 to |candidates|
      invariant contextParts == Parts(candidates[..i])
    {
      contextParts := contextParts + [PagePart(candidates[i])];
    }
    assert candidates[..|candidates|] == candidates;
    var contextString := Join("\n", contextParts);
    var prompt := INSTRUCTIONS + "CONTEXT:\n" + contextString;
    var result := oracle(prompt);
    match result
    case Some(e) =>
      r := Some(Dump(e));
    case None =>
      r := None;
  }

  /** The prompt ends with "CONTEXT:\n" and the context. */
  lemma PromptEndsWithContext(context: string)
    ensures |Prompt(context)| >= |context| + 9
    ensures Prompt(context)[|Prompt(context)| - |context| - 9..] == "CONTEXT:\n" + context
  {
    var p := Prompt(context);
    assert p == INSTRUCTIONS + ("CONTEXT:\n" + context);
  }

  /** The pages appear in input order: up to page i's part, the context is the
      context of the earlier pages, a newline, and page i's tagged text. */
  lemma ContextInOrder(pages: seq<PageRecord>, i: nat)
    requires i < |pages|
    ensures StartsWith(Context(pages),
      Context(pages[..i]) + (if i > 0 then "\n" else "") + PagePart(pages[i]))
  {
    var parts := Parts(pages);
    assert Parts(pages[..i]) == parts[..i];
    JoinStep("\n", parts, i);
    JoinPrefix("\n", parts, i + 1, |parts|);
    assert parts[..|parts|] == parts;
  }

  /** Page i's tag carries its page number and is followed by its text. */
  lemma PagePartTagged(p: PageRecord)
    ensures StartsWith(PagePart(p), "--- PAGE " + IntToString(p.page) + " ---\n" + p.text)
    ensures PagePart(p)[|PagePart(p)| - 1] == '\n'
  {
    var tag := "--- PAGE " + IntToString(p.page) + " ---\n" + p.text;
    assert PagePart(p) == tag + "\n";
    assert PagePart(p)[..|tag|] == tag;
  }
}
