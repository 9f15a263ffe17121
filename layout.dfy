/** Page selection (agents/layout_agent.py): score every page by the ESG
    keyword patterns its lower-cased text matches, keep the pages that match
    at least one, take the 20 best by a stable descending sort on the score,
    and return those in page order. */
module Layout {
  import opened Text

  /** A rectangle x0, y0, x1, y1 in page coordinates. */
  datatype BBox = BBox(x0: real, y0: real, x1: real, y1: real)

  datatype TextBlock = TextBlock(bbox: BBox, text: string)

  /** One page as the PDF reader delivers it, plus the score this stage writes. */
  datatype PageRecord = PageRecord(page: int, text: string, blocks: seq<TextBlock>, keywordScore: nat)

  /** One entry of ESG_KEYWORDS: a literal pattern, or `scope\s*<digit>`. */
  datatype Keyword = Literal(word: string) | Scope(digit: char)

  const ESG_KEYWORDS: seq<Keyword> := [
    Scope('1'), Scope('2'), Scope('3'),
    Literal("revenue"), Literal("turnover"), Literal("financials"),
    Literal("emissions"), Literal("ghg"), Literal("carbon"), Literal("co2"),
    Literal("millions"), Literal("billions"), Literal("€"), Literal("$"), Literal("£")
  ]

  /** How many pages are forwarded to the extraction step at most. */
  const MAX_SELECTED: nat := 20

  /** `\s*<d>` matches at the start of `s`. */
  predicate SpacesThen(s: string, d: char)
  {
    |s| > 0 && (s[0] == d || (IsSpace(s[0]) && SpacesThen(s[1..], d)))
  }

  /** `re.search(r"scope\s*<d>", s)` succeeds. */
  predicate SearchScope(s: string, d: char)
    decreases |s|
  {
    (StartsWith(s, "scope") && SpacesThen(s[5..], d)) || (|s| > 0 && SearchScope(s[1..], d))
  }

  /** `re.search(kw, text)` succeeds. */
  predicate Matches(kw: Keyword, text: string)
  {
    match kw
    case Literal(w) => Contains(text, w)
    case Scope(d) => SearchScope(text, d)
  }

  /** How many of the patterns `kws` occur in `text`; each counts once. */
  function CountMatches(kws: seq<Keyword>, text: string): (n: nat)
    ensures n <= |kws|
    ensures n == 0 <==> forall i :: 0 <= i < |kws| ==> !Matches(kws[i], text)
  {
    if kws == [] then 0
    else CountMatches(kws[..|kws| - 1], text) + (if Matches(kws[|kws| - 1], text) then 1 else 0)
  }

  /** `sum(1 for kw in ESG_KEYWORDS if re.search(kw, text.lower()))`. */
  function KeywordScore(text: string): (n: nat)
    ensures n <= 15
    ensures n == 0 <==> forall i :: 0 <= i < |ESG_KEYWORDS| ==> !Matches(ESG_KEYWORDS[i], Lower(text))
  {
    CountMatches(ESG_KEYWORDS, Lower(text))
  }

  /** The pages that scored at least one, in document order. */
  function Candidates(pages: seq<PageRecord>): (r: seq<PageRecord>)
    ensures forall p :: p in r <==> p in pages && p.keywordScore > 0
    ensures |r| <= |pages|
  {
    if pages == [] then []
    else
      var last := pages[|pages| - 1];
      Candidates(pages[..|pages| - 1]) + (if last.keywordScore > 0 then [last] else [])
  }

  // ---- The two stable sorts ----

  /** Inserts `x`, which comes earlier in the document than every page of `s`,
      in front of the first page that does not score more. */
  function InsertByScore(x: PageRecord, s: seq<PageRecord>): (r: seq<PageRecord>)
    ensures multiset(r) == multiset(s) + multiset{x}
  {
    if s == [] then [x]
    else if s[0].keywordScore <= x.keywordScore then [x] + s
    else
      assert s == [s[0]] + s[1..];
      [s[0]] + InsertByScore(x, s[1..])
  }

  /** `sorted(pages, key=lambda x: x["keyword_score"], reverse=True)`: stable,
      so pages with equal scores stay in document order. */
  function SortByScore(pages: seq<PageRecord>): (r: seq<PageRecord>)
    ensures multiset(r) == multiset(pages)
  {
    if pages == [] then []
    else
      assert pages == [pages[0]] + pages[1..];
      InsertByScore(pages[0], SortByScore(pages[1..]))
  }

  predicate PageSorted(s: seq<PageRecord>)
  {
    forall i, j :: 0 <= i < j < |s| ==> s[i].page <= s[j].page
  }

  function InsertByPage(x: PageRecord, s: seq<PageRecord>): (r: seq<PageRecord>)
    ensures multiset(r) == multiset(s) + multiset{x}
  {
    if s == [] then [x]
    else if x.page <= s[0].page then [x] + s
    else
      assert s == [s[0]] + s[1..];
      [s[0]] + InsertByPage(x, s[1..])
  }

  /** `sorted(selected, key=lambda x: x["page"])`. */
  function SortByPage(pages: seq<PageRecord>): (r: seq<PageRecord>)
    ensures multiset(r) == multiset(pages)
  {
    if pages == [] then []
    else
      assert pages == [pages[0]] + pages[1..];
      InsertByPage(pages[0], SortByPage(pages[1..]))
  }

  /** `pages[:n]`. */
  function Take(pages: seq<PageRecord>, n: nat): seq<PageRecord>
  {
    if |pages| <= n then pages else pages[..n]
  }

  /** From the candidate pages, the ones forwarded downstream. */
  function Select(candidates: seq<PageRecord>): seq<PageRecord>
  {
    SortByPage(Take(SortByScore(candidates), MAX_SELECTED))
  }

  /** The page-record source numbers pages 1..n in order, so page numbers rise strictly. */
  predicate IncreasingPages(s: seq<PageRecord>)
  {
    forall i, j :: 0 <= i < j < |s| ==> s[i].page < s[j].page
  }

  predicate DistinctPages(s: seq<PageRecord>)
  {
    forall i, j :: 0 <= i < |s| && 0 <= j < |s| && i != j ==> s[i].page != s[j].page
  }

  /** `a` is ranked before `b`: a higher score, or the same score and earlier in the document. */
  predicate Before(a: PageRecord, b: PageRecord)
  {
    a.keywordScore > b.keywordScore || (a.keywordScore == b.keywordScore && a.page < b.page)
  }

  predicate Ranked(s: seq<PageRecord>)
  {
    forall i, j :: 0 <= i < j < |s| ==> Before(s[i], s[j])
  }

  // ---- The agent ----

  class LayoutAgent {
    const pdfPath: string
    /** `self.pages_data`: the page records, whose scores `Run` writes in place. */
    var pagesData: seq<PageRecord>

    constructor (pdfPath: string)
      ensures this.pdfPath == pdfPath && pagesData == []
    {
      this.pdfPath := pdfPath;
      pagesData := [];
    }

    /** `run`, given the reader's output `extracted` for `pdfPath`. */
    method Run(extracted: seq<PageRecord>) returns (selected: seq<PageRecord>)
      modifies this
      ensures |pagesData| == |extracted|
      ensures forall i :: 0 <= i < |extracted| ==>
        pagesData[i] == extracted[i].(keywordScore := KeywordScore(extracted[i].text))
      ensures selected == Select(Candidates(pagesData))
    {
      pagesData := extracted;
      var candidatePages: seq<PageRecord> := [];
      var i := 0;
      while i < |pagesData|
        invariant 0 <= i <= |pagesData| == |extracted|
        invariant forall j :: 0 <= j < |extracted| ==>
          pagesData[j] == if j < i then extracted[j].(keywordScore := KeywordScore(extracted[j].text)) else extracted[j]
        invariant candidatePages == Candidates(pagesData[..i])
      {
        var page := pagesData[i];
        var matchCount := KeywordScore(page.text);
        ghost var before := pagesData;
        pagesData := pagesData[i := page.(keywordScore := matchCount)];
        assert pagesData[..i] == before[..i];
        CandidatesStep(pagesData, i);
        if matchCount > 0 {
          candidatePages := candidatePages + [pagesData[i]];
        }
        i := i + 1;
      }
      assert pagesData[..i] == pagesData;
      candidatePages := SortByScore(candidatePages);
      selected := Take(candidatePages, MAX_SELECTED);
      selected := SortByPage(selected);
    }
  }

  // ---- Properties of the selection ----

  lemma CandidatesStep(s: seq<PageRecord>, i: nat)
    requires i < |s|
    ensures Candidates(s[..i + 1]) == Candidates(s[..i]) + (if s[i].keywordScore > 0 then [s[i]] else [])
  {
    assert s[..i + 1][..i] == s[..i];
  }

  lemma {:induction false} CandidatesIncreasing(pages: seq<PageRecord>)
    requires IncreasingPages(pages)
    ensures IncreasingPages(Candidates(pages))
  {
    if pages != [] {
      var init := pages[..|pages| - 1];
      assert IncreasingPages(init);
      CandidatesIncreasing(init);
      var c := Candidates(init);
      forall y | y in c
        ensures y.page < pages[|pages| - 1].page
      {
        var k :| 0 <= k < |init| && init[k] == y;
      }
    }
  }

  lemma ConsRanked(h: PageRecord, rest: seq<PageRecord>)
    requires Ranked(rest) && DistinctPages(rest)
    requires forall y :: y in rest ==> Before(h, y) && h.page != y.page
    ensures Ranked([h] + rest) && DistinctPages([h] + rest)
  {
    var r := [h] + rest;
    forall i, j | 0 <= i < j < |r| ensures Before(r[i], r[j]) && r[i].page != r[j].page {
      assert r[j] == rest[j - 1];
      if i > 0 {
        assert r[i] == rest[i - 1];
      } else {
        assert r[j] in rest;
      }
    }
  }

  lemma RankedTail(s: seq<PageRecord>, y: PageRecord)
    requires s != [] && Ranked(s) && DistinctPages(s)
    ensures Ranked(s[1..]) && DistinctPages(s[1..])
    ensures y in s[1..] ==> Before(s[0], y) && s[0].page != y.page
  {
    assert forall i :: 0 <= i < |s[1..]| ==> s[1..][i] == s[i + 1];
    if y in s[1..] {
      var k :| 0 <= k < |s[1..]| && s[1..][k] == y;
      assert s[k + 1] == y;
    }
  }

  lemma {:induction false} InsertByScoreRanked(x: PageRecord, s: seq<PageRecord>)
    requires Ranked(s) && DistinctPages(s)
    requires forall y :: y in s ==> x.page < y.page
    ensures Ranked(InsertByScore(x, s)) && DistinctPages(InsertByScore(x, s))
  {
    if s == [] {
    } else if s[0].keywordScore <= x.keywordScore {
      forall y | y in s ensures Before(x, y) && x.page != y.page {
        RankedTail(s, y);
      }
      ConsRanked(x, s);
    } else {
      var rest := InsertByScore(x, s[1..]);
      RankedTail(s, x);
      InsertByScoreRanked(x, s[1..]);
      forall y | y in rest ensures Before(s[0], y) && s[0].page != y.page {
        assert y in multiset(rest);
        RankedTail(s, y);
      }
      ConsRanked(s[0], rest);
    }
  }

  /** The stable descending sort orders candidates by score, ties in document order. */
  lemma {:induction false} SortByScoreRanked(pages: seq<PageRecord>)
    requires IncreasingPages(pages)
    ensures Ranked(SortByScore(pages)) && DistinctPages(SortByScore(pages))
  {
    if pages != [] {
      var tail := pages[1..];
      assert IncreasingPages(tail);
      SortByScoreRanked(tail);
      var st := SortByScore(tail);
      forall y | y in st ensures pages[0].page < y.page {
        assert y in multiset(tail);
        var k :| 0 <= k < |tail| && tail[k] == y;
        assert pages[k + 1] == y;
      }
      InsertByScoreRanked(pages[0], st);
    }
  }

  lemma ConsIncreasing(h: PageRecord, rest: seq<PageRecord>)
    requires IncreasingPages(rest)
    requires forall y :: y in rest ==> h.page < y.page
    ensures IncreasingPages([h] + rest)
  {
    var r := [h] + rest;
    forall i, j | 0 <= i < j < |r| ensures r[i].page < r[j].page {
      assert r[j] == rest[j - 1];
      if i > 0 {
        assert r[i] == rest[i - 1];
      } else {
        assert r[j] in rest;
      }
    }
  }

  lemma {:induction false} InsertByPageIncreasing(x: PageRecord, s: seq<PageRecord>)
    requires IncreasingPages(s)
    requires forall y :: y in s ==> x.page != y.page
    ensures IncreasingPages(InsertByPage(x, s))
  {
    if s == [] {
    } else if x.page <= s[0].page {
      InsertFirst(x, s);
    } else {
      var tail := s[1..];
      assert forall i :: 0 <= i < |tail| ==> tail[i] == s[i + 1];
      InsertByPageIncreasing(x, tail);
      InsertLater(x, s);
    }
  }

  /** A page before the first of a rising sequence, and no page of it, goes in front. */
  lemma InsertFirst(x: PageRecord, s: seq<PageRecord>)
    requires IncreasingPages(s) && s != [] && x.page <= s[0].page
    requires forall y :: y in s ==> x.page != y.page
    ensures IncreasingPages([x] + s)
  {
    forall y | y in s ensures x.page < y.page {
      var k :| 0 <= k < |s| && s[k] == y;
    }
    ConsIncreasing(x, s);
  }

  /** A page after the first goes into the tail, behind the first. */
  lemma InsertLater(x: PageRecord, s: seq<PageRecord>)
    requires IncreasingPages(s) && s != [] && x.page > s[0].page
    requires IncreasingPages(InsertByPage(x, s[1..]))
    ensures IncreasingPages([s[0]] + InsertByPage(x, s[1..]))
  {
    var tail := s[1..];
    var rest := InsertByPage(x, tail);
    forall y | y in rest ensures s[0].page < y.page {
      assert y in multiset(rest);
      if y != x {
        var k :| 0 <= k < |tail| && tail[k] == y;
        assert tail[k] == s[k + 1];
      }
    }
    ConsIncreasing(s[0], rest);
  }

  /** Re-sorting pages with distinct numbers gives strictly rising page numbers. */
  lemma {:induction false} SortByPageIncreasing(pages: seq<PageRecord>)
    requires DistinctPages(pages)
    ensures IncreasingPages(SortByPage(pages))
  {
    if pages != [] {
      var tail := pages[1..];
      assert DistinctPages(tail) by {
        forall i, j | 0 <= i < |tail| && 0 <= j < |tail| && i != j ensures tail[i].page != tail[j].page {
          assert tail[i] == pages[i + 1] && tail[j] == pages[j + 1];
        }
      }
      SortByPageIncreasing(tail);
      var st := SortByPage(tail);
      forall y | y in st ensures pages[0].page != y.page {
        assert y in multiset(tail);
        var k :| 0 <= k < |tail| && tail[k] == y;
        assert pages[k + 1] == y;
      }
      InsertByPageIncreasing(pages[0], st);
    }
  }

  lemma TakeSub(s: seq<PageRecord>, n: nat)
    ensures multiset(Take(s, n)) <= multiset(s)
    ensures |Take(s, n)| <= n
  {
    if |s| > n {
      assert s == s[..n] + s[n..];
      assert multiset(s) == multiset(s[..n]) + multiset(s[n..]);
    }
  }

  lemma TakeDistinct(s: seq<PageRecord>, n: nat)
    requires DistinctPages(s) && Ranked(s)
    ensures DistinctPages(Take(s, n)) && Ranked(Take(s, n))
  {
  }

  /** What the ranking gives: the ranked-and-truncated candidates, before the page re-sort. */
  lemma RankedTop(candidates: seq<PageRecord>)
    requires IncreasingPages(candidates)
    ensures DistinctPages(Take(SortByScore(candidates), MAX_SELECTED))
  {
    SortByScoreRanked(candidates);
    TakeDistinct(SortByScore(candidates), MAX_SELECTED);
  }

  /** The selection holds at most 20 of the candidates, none of them twice. */
  lemma SelectionFromCandidates(c: seq<PageRecord>)
    ensures |Select(c)| <= MAX_SELECTED
    ensures multiset(Select(c)) <= multiset(c)
  {
    var top := Take(SortByScore(c), MAX_SELECTED);
    TakeSub(SortByScore(c), MAX_SELECTED);
    assert multiset(Select(c)) == multiset(top);
    assert |Select(c)| == |multiset(top)|;
  }

  /** Members of a sub-multiset of the candidates are pages with a match. */
  lemma SubCandidates(pages: seq<PageRecord>, sel: seq<PageRecord>)
    requires multiset(sel) <= multiset(Candidates(pages))
    ensures forall p :: p in sel ==> p in pages && p.keywordScore > 0
  {
    forall p | p in sel ensures p in pages && p.keywordScore > 0 {
      assert p in multiset(sel);
      assert p in multiset(Candidates(pages));
    }
  }

  /** The selection comes in strictly rising page order. */
  lemma SelectionIncreasing(pages: seq<PageRecord>)
    requires IncreasingPages(pages)
    ensures IncreasingPages(Select(Candidates(pages)))
  {
    var c := Candidates(pages);
    CandidatesIncreasing(pages);
    RankedTop(c);
    SortByPageIncreasing(Take(SortByScore(c), MAX_SELECTED));
  }

  /** At most 20 pages are selected, all of them candidates (so none of score 0),
      and they come in strictly rising page order. */
  lemma SelectionShape(pages: seq<PageRecord>)
    requires IncreasingPages(pages)
    ensures |Select(Candidates(pages))| <= MAX_SELECTED
    ensures multiset(Select(Candidates(pages))) <= multiset(Candidates(pages))
    ensures forall p :: p in Select(Candidates(pages)) ==> p in pages && p.keywordScore > 0
    ensures IncreasingPages(Select(Candidates(pages)))
  {
    SelectionFromCandidates(Candidates(pages));
    SubCandidates(pages, Select(Candidates(pages)));
    SelectionIncreasing(pages);
  }

  /** The page re-sort keeps exactly the truncated ranking's pages. */
  lemma InSelect(c: seq<PageRecord>, x: PageRecord)
    ensures x in Select(c) <==> x in Take(SortByScore(c), MAX_SELECTED)
  {
    var top := Take(SortByScore(c), MAX_SELECTED);
    assert x in Select(c) <==> x in multiset(Select(c));
    assert x in top <==> x in multiset(top);
  }

  /** In a prefix of the ranking, at a position before `n`. */
  lemma IndexInTake(sd: seq<PageRecord>, n: nat, x: PageRecord) returns (i: nat)
    requires x in Take(sd, n)
    ensures i < n && i < |sd| && sd[i] == x
  {
    var top := Take(sd, n);
    var k :| 0 <= k < |top| && top[k] == x;
    i := k;
  }

  /** Left out of a prefix of the ranking: at a position from `n` on. */
  lemma IndexBeyondTake(sd: seq<PageRecord>, n: nat, x: PageRecord) returns (j: nat)
    requires x in sd && x !in Take(sd, n)
    ensures n <= j < |sd| && sd[j] == x
  {
    var k :| 0 <= k < |sd| && sd[k] == x;
    j := k;
  }

  /** Every selected page outranks every candidate left out: a higher score,
      or the same score and an earlier page. */
  lemma SelectionOutranksLeftOut(pages: seq<PageRecord>, p: PageRecord, q: PageRecord)
    requires IncreasingPages(pages)
    requires p in Select(Candidates(pages))
    requires q in Candidates(pages) && q !in Select(Candidates(pages))
    ensures Before(p, q)
    ensures p.keywordScore >= q.keywordScore
  {
    var c := Candidates(pages);
    CandidatesIncreasing(pages);
    SortByScoreRanked(c);
    var sd := SortByScore(c);
    InSelect(c, p);
    InSelect(c, q);
    assert q in multiset(sd);
    var i := IndexInTake(sd, MAX_SELECTED, p);
    var j := IndexBeyondTake(sd, MAX_SELECTED, q);
    assert Before(sd[i], sd[j]);
  }

  lemma SameElementsSameHead(a: seq<PageRecord>, b: seq<PageRecord>)
    requires IncreasingPages(a) && IncreasingPages(b)
    requires multiset(a) == multiset(b) && a != []
    ensures b != [] && a[0] == b[0]
  {
    assert a[0] in multiset(b) && |b| == |multiset(a)|;
    var k :| 0 <= k < |b| && b[k] == a[0];
    assert b[0] in multiset(a);
    var m :| 0 <= m < |a| && a[m] == b[0];
    assert a[0].page <= a[m].page;
    assert b[0].page <= b[k].page;
    assert k == 0;
  }

  lemma IncreasingTail(a: seq<PageRecord>)
    requires IncreasingPages(a) && a != []
    ensures IncreasingPages(a[1..])
  {
    assert forall i :: 0 <= i < |a[1..]| ==> a[1..][i] == a[i + 1];
  }

  lemma {:induction false} SameElementsIncreasingEqual(a: seq<PageRecord>, b: seq<PageRecord>)
    requires IncreasingPages(a) && IncreasingPages(b)
    requires multiset(a) == multiset(b)
    ensures a == b
  {
    if a == [] {
      assert |b| == |multiset(b)| == 0;
    } else {
      SameElementsSameHead(a, b);
      assert a == [a[0]] + a[1..] && b == [b[0]] + b[1..];
      assert multiset(a[1..]) == multiset(a) - multiset{a[0]};
      assert multiset(b[1..]) == multiset(b) - multiset{a[0]};
      IncreasingTail(a);
      IncreasingTail(b);
      SameElementsIncreasingEqual(a[1..], b[1..]);
    }
  }

  /** With at most 20 candidates, all of them are forwarded, in document order. */
  lemma SelectionKeepsAllWhenFew(pages: seq<PageRecord>)
    requires IncreasingPages(pages)
    requires |Candidates(pages)| <= MAX_SELECTED
    ensures Select(Candidates(pages)) == Candidates(pages)
  {
    var c := Candidates(pages);
    CandidatesIncreasing(pages);
    SortByScoreRanked(c);
    assert |SortByScore(c)| == |multiset(c)| == |c|;
    var top := Take(SortByScore(c), MAX_SELECTED);
    assert top == SortByScore(c);
    SortByPageIncreasing(top);
    SameElementsIncreasingEqual(Select(c), c);
  }

  lemma {:induction false} CandidatesNone(pages: seq<PageRecord>)
    requires forall i :: 0 <= i < |pages| ==> pages[i].keywordScore == 0
    ensures Candidates(pages) == []
  {
    if pages != [] {
      CandidatesNone(pages[..|pages| - 1]);
    }
  }

  /** A document where no page matches any keyword forwards nothing. */
  lemma NoMatchNoSelection(pages: seq<PageRecord>)
    requires forall i :: 0 <= i < |pages| ==> pages[i].keywordScore == KeywordScore(pages[i].text)
    requires forall i, k :: 0 <= i < |pages| && 0 <= k < |ESG_KEYWORDS| ==> !Matches(ESG_KEYWORDS[k], Lower(pages[i].text))
    ensures Select(Candidates(pages)) == []
  {
    CandidatesNone(pages);
  }
}
