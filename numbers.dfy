/** Number helpers (utils/number_utils.py): a character filter for number
    strings, a float parser that guesses the decimal separator from the last
    '.' or ',', and a multiplier that scales by billion/million/thousand
    words found as whole words. The pipeline itself does not call them. */
module NumberUtils {
  import opened Wrappers
  import opened Text
  import Normalization

  // ---- clean_number_string ----

  /** The characters `[\d.,\-]` keeps. */
  predicate NumberChar(c: char)
  {
    IsDigit(c) || c == '.' || c == ',' || c == '-'
  }

  /** `re.sub(r'[^\d.,\-]', '', s)`: the number characters of `s`, in order. */
  function KeepNumberChars(s: string): (r: string)
    ensures forall i :: 0 <= i < |r| ==> NumberChar(r[i])
    ensures |r| <= |s|
  {
    if s == [] then [] else (if NumberChar(s[0]) then [s[0]] else []) + KeepNumberChars(s[1..])
  }

  /** `clean_number_string`: None stays None; otherwise spaces are dropped and
      then everything but digits, '.', ',' and '-'. */
  function CleanNumberString(text: Option<string>): (r: Option<string>)
    ensures r.None? <==> text.None?
    ensures r.Some? ==> ' ' !in r.value
    ensures r.Some? ==> forall i :: 0 <= i < |r.value| ==> NumberChar(r.value[i])
  {
    match text
    case None => None
    case Some(t) => Some(KeepNumberChars(RemoveChar(t, ' ')))
  }

  lemma {:induction false} KeepNumberCharsAppend(a: string, b: string)
    ensures KeepNumberChars(a + b) == KeepNumberChars(a) + KeepNumberChars(b)
  {
    if a == [] {
      assert a + b == b;
    } else {
      assert (a + b)[1..] == a[1..] + b;
      KeepNumberCharsAppend(a[1..], b);
    }
  }

  /** A string of number characters is kept whole. */
  lemma {:induction false} KeepNumberCharsAll(s: string)
    requires forall i :: 0 <= i < |s| ==> NumberChar(s[i])
    ensures KeepNumberChars(s) == s
  {
    if s != [] {
      KeepNumberCharsAll(s[1..]);
    }
  }

  /** The space pass is subsumed by the filter: the result is the number
      characters of the input, in their order. */
  lemma {:induction false} CleanIsFilter(t: string)
    ensures CleanNumberString(Some(t)) == Some(KeepNumberChars(t))
  {
    if t != [] {
      CleanIsFilter(t[1..]);
      assert RemoveChar(t, ' ') == (if t[0] == ' ' then [] else [t[0]]) + RemoveChar(t[1..], ' ');
      KeepNumberCharsAppend(if t[0] == ' ' then [] else [t[0]], RemoveChar(t[1..], ' '));
    }
  }

  /** Cleaning a cleaned string changes nothing. */
  lemma CleanNumberStringIdempotent(text: Option<string>)
    ensures CleanNumberString(CleanNumberString(text)) == CleanNumberString(text)
  {
    if text.Some? {
      var r := CleanNumberString(text).value;
      RemoveCharAbsent(r, ' ');
      KeepNumberCharsAll(r);
    }
  }

  // ---- parse_float ----

  /** An unsigned decimal: digits, and an optional point followed by digits,
      with at least one digit in all. */
  function UnsignedDecimal(body: string): Option<real>
  {
    var dot := Find(body, '.');
    var whole := if dot == -1 then body else body[..dot];
    var frac := if dot == -1 then "" else body[dot + 1..];
    if AllDigits(whole) && AllDigits(frac) && |whole| + |frac| > 0 then
      Some(PartsValue(whole, frac))
    else None
  }

  /** What `float()` accepts here: an optional sign and an unsigned decimal. */
  function ParseDecimal(s: string): (r: Option<real>)
    ensures r.Some? ==> |s| > 0
  {
    if |s| > 0 && s[0] == '-' then
      match UnsignedDecimal(s[1..])
      case Some(x) => Some(-x)
      case None => None
    else if |s| > 0 && s[0] == '+' then UnsignedDecimal(s[1..])
    else
      var r := UnsignedDecimal(s);
      assert r.Some? ==> |s| > 0 by {
        if s == [] {
          assert Find(s, '.') == -1;
        }
      }
      r
  }

  /** The separator rewrite of lines 20-34: when '.' comes last, commas are thousands
      separators and are dropped; when ',' comes last, dots are dropped and commas
      become the decimal point; with neither, nothing changes. */
  function RewriteSeparators(text: string): (r: string)
    ensures |r| <= |text|
  {
    var lastDot := RFind(text, '.');
    var lastComma := RFind(text, ',');
    if lastDot > lastComma then
      if lastComma != -1 then RemoveChar(text, ',') else text
    else if lastComma > lastDot then
      ReplaceChar(if lastDot != -1 then RemoveChar(text, '.') else text, ',', '.')
    else text
  }

  /** `parse_float`: None for None or "", else the stripped text rewritten and read as a decimal. */
  function ParseFloat(text: Option<string>): (r: Option<real>)
    ensures text.None? || text == Some("") ==> r.None?
    ensures r.Some? ==> |Strip(text.value)| > 0
  {
    if text.None? || text.value == "" then None
    else ParseDecimal(RewriteSeparators(Strip(text.value)))
  }

  /** The value of the digits after the point: "25" is 0.25. */
  function FracValue(frac: string): real
    requires AllDigits(frac)
  {
    if frac == [] then 0.0 else (DigitValue(frac[0]) as real + FracValue(frac[1..])) / 10.0
  }

  /** The value an unsigned decimal `whole.frac` denotes. */
  function PartsValue(whole: string, frac: string): real
    requires AllDigits(whole) && AllDigits(frac)
  {
    DigitsValue(whole) as real + FracValue(frac)
  }

  lemma UnsignedParts(whole: string, frac: string)
    requires AllDigits(whole) && AllDigits(frac) && |whole| > 0
    ensures UnsignedDecimal(whole + "." + frac) == Some(PartsValue(whole, frac))
  {
    var s := whole + "." + frac;
    assert s == whole + ("." + frac);
    FindAppend(whole, "." + frac, '.');
    var dot := Find(s, '.');
    assert s[..dot] == whole;
    assert s[dot + 1..] == frac;
  }

  /** Reads an unsigned decimal `whole.frac` whose parts are digit strings. */
  lemma ParseDecimalParts(whole: string, frac: string)
    requires AllDigits(whole) && AllDigits(frac) && |whole| > 0
    ensures ParseDecimal(whole + "." + frac) == Some(PartsValue(whole, frac))
  {
    UnsignedParts(whole, frac);
    var s := whole + "." + frac;
    assert s[0] == whole[0];
    assert IsDigit(s[0]);
  }

  /** In `g`, a separator `sep` and digits, the last `sep` is the one before the digits. */
  lemma LastSeparator(g: string, sep: char, frac: string)
    requires AllDigits(frac) && !IsDigit(sep)
    ensures RFind(g + [sep] + frac, sep) == |g|
  {
    assert forall i :: 0 <= i < |frac| ==> frac[i] != sep;
    RFindAppendAbsent(g + [sep], frac, sep);
  }

  /** ... and any other separator is last where it is last in `g`. */
  lemma OtherSeparator(g: string, sep: char, other: char, frac: string)
    requires AllDigits(frac) && !IsDigit(other) && sep != other
    ensures RFind(g + [sep] + frac, other) == RFind(g, other)
  {
    var t := [sep] + frac;
    assert forall i :: 0 <= i < |t| ==> t[i] != other;
    assert g + [sep] + frac == g + t;
    RFindAppendAbsent(g, t, other);
  }

  /** Dropping `c` from `g + rest` where `rest` has no `c`. */
  lemma DropFromHead(g: string, rest: string, c: char)
    requires forall i :: 0 <= i < |rest| ==> rest[i] != c
    ensures RemoveChar(g + rest, c) == RemoveChar(g, c) + rest
  {
    RemoveCharAppend(g, rest, c);
    RemoveCharAbsent(rest, c);
  }

  /** The digits of a grouped number, separators dropped: never empty, value `n`. */
  lemma GroupedDigits(n: nat, sep: char)
    requires !IsDigit(sep)
    ensures var d := RemoveChar(GroupDigits(n, sep), sep);
      AllDigits(d) && DigitsValue(d) == n && |d| > 0
  {
    var g := GroupDigits(n, sep);
    GroupDigitsValue(n, sep);
    GroupDigitsEnds(n, sep);
    assert RemoveChar(g, sep) == [g[0]] + RemoveChar(g[1..], sep);
  }

  /** With '.' last, the commas before it are dropped. */
  lemma RewriteEnglish(g: string, frac: string)
    requires AllDigits(frac)
    ensures RewriteSeparators(g + "." + frac) == RemoveChar(g, ',') + "." + frac
  {
    var tail := "." + frac;
    assert g + ['.'] + frac == g + tail;
    LastSeparator(g, '.', frac);
    OtherSeparator(g, '.', ',', frac);
    if RFind(g, ',') == -1 {
      RemoveCharAbsent(g, ',');
    } else {
      assert forall i :: 0 <= i < |tail| ==> tail[i] != ',';
      DropFromHead(g, tail, ',');
    }
  }

  /** Dropping the dots from text without a comma: the commas of `tail` are the only ones left. */
  lemma DropDots(g: string, frac: string)
    requires ',' !in g && AllDigits(frac)
    ensures (if RFind(g, '.') != -1 then RemoveChar(g + "," + frac, '.') else g + "," + frac) == RemoveChar(g, '.') + "," + frac
    ensures ',' !in RemoveChar(g, '.')
  {
    var tail := "," + frac;
    assert g + "," + frac == g + tail;
    assert RemoveChar(g, '.') + "," + frac == RemoveChar(g, '.') + tail;
    assert forall i :: 0 <= i < |tail| ==> tail[i] != '.';
    if RFind(g, '.') == -1 {
      RemoveCharAbsent(g, '.');
    } else {
      DropFromHead(g, tail, '.');
    }
    RemoveCharKeeps(g, '.', ',');
  }

  /** The branch of the rewrite where a comma comes last. */
  lemma RewriteCommaLast(s: string)
    requires RFind(s, ',') > RFind(s, '.')
    ensures RewriteSeparators(s) == ReplaceChar(if RFind(s, '.') != -1 then RemoveChar(s, '.') else s, ',', '.')
  {
  }

  /** With ',' last and no other comma, the dots are dropped and the comma becomes the point. */
  lemma RewriteContinental(g: string, frac: string)
    requires AllDigits(frac) && ',' !in g
    ensures RewriteSeparators(g + "," + frac) == RemoveChar(g, '.') + "." + frac
  {
    LastSeparator(g, ',', frac);
    OtherSeparator(g, ',', '.', frac);
    RewriteCommaLast(g + "," + frac);
    DropDots(g, frac);
    CommaToPoint(RemoveChar(g, '.'), frac);
  }

  /** The one comma, before the decimals, becomes the point. */
  lemma CommaToPoint(digits: string, frac: string)
    requires ',' !in digits && AllDigits(frac)
    ensures ReplaceChar(digits + "," + frac, ',', '.') == digits + "." + frac
  {
    var s := digits + "," + frac;
    var t := digits + "." + frac;
    assert forall i :: 0 <= i < |digits| ==> s[i] == digits[i] && t[i] == digits[i];
    assert forall i :: |digits| < i < |s| ==> s[i] == frac[i - |digits| - 1] && t[i] == frac[i - |digits| - 1];
  }

  /** Digits, a separator and digits: neither end is blank. */
  lemma JoinedEnds(whole: string, sep: char, frac: string)
    requires |whole| > 0 && IsDigit(whole[0]) && AllDigits(frac) && !IsSpace(sep)
    ensures var s := whole + [sep] + frac;
      |s| > 0 && !IsSpace(s[0]) && !IsSpace(s[|s| - 1])
  {
    var s := whole + [sep] + frac;
    assert s[0] == whole[0];
    if frac == [] {
      assert s[|s| - 1] == sep;
    } else {
      assert s[|s| - 1] == frac[|frac| - 1];
    }
  }

  /** Text whose rewrite is `whole.frac` reads as that decimal. */
  lemma ReadsAsParts(s: string, whole: string, frac: string)
    requires |s| > 0 && !IsSpace(s[0]) && !IsSpace(s[|s| - 1])
    requires AllDigits(whole) && AllDigits(frac) && |whole| > 0
    requires RewriteSeparators(s) == whole + "." + frac
    ensures ParseFloat(Some(s)) == Some(PartsValue(whole, frac))
  {
    ParseFloatRewritten(s, whole + "." + frac);
    ParseDecimalParts(whole, frac);
  }

  lemma PartsOfValue(whole: string, frac: string, w: nat)
    requires AllDigits(whole) && AllDigits(frac) && DigitsValue(whole) == w
    ensures Some(PartsValue(whole, frac)) == Some(w as real + FracValue(frac))
  {
  }

  /** Unpadded text whose rewrite is `t` reads as `t` does. */
  lemma ParseFloatRewritten(s: string, t: string)
    requires |s| > 0 && !IsSpace(s[0]) && !IsSpace(s[|s| - 1])
    requires RewriteSeparators(s) == t
    ensures ParseFloat(Some(s)) == ParseDecimal(t)
  {
    ParseFloatUnpadded(s);
  }

  /** The English layout reads back: "1,234,567.89" is 1234567.89. */
  lemma ParseEnglish(n: nat, frac: string)
    requires AllDigits(frac)
    ensures ParseFloat(Some(GroupDigits(n, ',') + "." + frac)) == Some(n as real + FracValue(frac))
  {
    var g := GroupDigits(n, ',');
    var s := g + "." + frac;
    GroupDigitsEnds(n, ',');
    JoinedEnds(g, '.', frac);
    RewriteEnglish(g, frac);
    GroupedDigits(n, ',');
    ReadsAsParts(s, RemoveChar(g, ','), frac);
    PartsOfValue(RemoveChar(g, ','), frac, n);
  }

  lemma NoCommaInDotted(n: nat)
    ensures ',' !in GroupDigits(n, '.')
  {
    GroupDigitsChars(n, '.');
  }

  /** The continental layout reads back: "1.234.567,89" is 1234567.89. */
  lemma ParseContinental(n: nat, frac: string)
    requires AllDigits(frac)
    ensures ParseFloat(Some(GroupDigits(n, '.') + "," + frac)) == Some(n as real + FracValue(frac))
  {
    var g := GroupDigits(n, '.');
    var s := g + "," + frac;
    GroupDigitsEnds(n, '.');
    JoinedEnds(g, ',', frac);
    NoCommaInDotted(n);
    RewriteContinental(g, frac);
    GroupedDigits(n, '.');
    ReadsAsParts(s, RemoveChar(g, '.'), frac);
    PartsOfValue(RemoveChar(g, '.'), frac, n);
  }

  /** Two decimals are hundredths: `Pad2(c)` after the point adds c / 100. */
  lemma TwoDecimalsValue(cents: nat)
    requires cents < 100
    ensures FracValue(Pad2(cents)) == cents as real / 100.0
  {
    var f := Pad2(cents);
    var hi, lo := cents / 10, cents % 10;
    assert DigitValue(f[0]) == hi && DigitValue(f[1]) == lo;
    assert f[1..][1..] == [];
    assert FracValue(f[1..]) == lo as real / 10.0;
    assert FracValue(f) == (hi as real + lo as real / 10.0) / 10.0;
    assert cents == 10 * hi + lo;
  }

  /** A second point after the first makes the text unreadable. */
  lemma TwoPointsUnreadable(whole: string, mid: string, tail: string)
    requires |whole| > 0 && AllDigits(whole) && whole[0] != '-' && whole[0] != '+'
    ensures ParseDecimal(whole + "." + mid + "." + tail) == None
  {
    var rest := mid + "." + tail;
    var s := whole + "." + rest;
    assert s == whole + "." + mid + "." + tail;
    assert s == whole + ("." + rest);
    assert s[0] == whole[0];
    FindAppend(whole, "." + rest, '.');
    assert s[Find(s, '.') + 1..] == rest;
    assert rest[|mid|] == '.';
  }

  /** Only commas, at least two: every comma becomes a point. */
  lemma RewriteCommasOnly(a: string, b: string, c: string)
    requires AllDigits(a) && AllDigits(b) && AllDigits(c)
    ensures RewriteSeparators(a + "," + b + "," + c) == a + "." + b + "." + c
  {
    var s := a + "," + b + "," + c;
    assert s == (a + "," + b) + [','] + c;
    LastSeparator(a + "," + b, ',', c);
    assert forall i :: 0 <= i < |s| ==> s[i] != '.';
    assert ReplaceChar(s, ',', '.') == a + "." + b + "." + c;
  }

  /** Three comma-separated groups fit neither layout and give nothing
      (so "1,234,56" is unreadable). */
  lemma ParseAmbiguous(a: string, b: string, c: string)
    requires AllDigits(a) && AllDigits(b) && AllDigits(c) && |a| > 0
    ensures ParseFloat(Some(a + "," + b + "," + c)) == None
  {
    var s := a + "," + b + "," + c;
    assert s[0] == a[0];
    if c == [] {
      assert s[|s| - 1] == ',';
    } else {
      assert s[|s| - 1] == c[|c| - 1];
    }
    ParseFloatUnpadded(s);
    RewriteCommasOnly(a, b, c);
    TwoPointsUnreadable(a, b, c);
  }

  /** Text with no blank ends is rewritten and read as it stands. */
  lemma ParseFloatUnpadded(s: string)
    requires |s| > 0 && !IsSpace(s[0]) && !IsSpace(s[|s| - 1])
    ensures ParseFloat(Some(s)) == ParseDecimal(RewriteSeparators(s))
  {
    StripUnpadded(s);
  }

  /** A plain number with a decimal comma reads back: "1234,56" is 1234.56. */
  lemma ParseDecimalComma(whole: string, frac: string, w: nat)
    requires AllDigits(whole) && AllDigits(frac) && |whole| > 0 && DigitsValue(whole) == w
    ensures ParseFloat(Some(whole + "," + frac)) == Some(w as real + FracValue(frac))
  {
    var s := whole + "," + frac;
    JoinedEnds(whole, ',', frac);
    RewriteDecimalComma(whole, frac);
    ReadsAsParts(s, whole, frac);
    PartsOfValue(whole, frac, w);
  }

  lemma RewriteDecimalComma(whole: string, frac: string)
    requires AllDigits(whole) && AllDigits(frac)
    ensures RewriteSeparators(whole + "," + frac) == whole + "." + frac
  {
    assert ',' !in whole;
    RewriteContinental(whole, frac);
    RemoveCharAbsent(whole, '.');
  }

  lemma DigitsOf12345()
    ensures DigitsValue("12") == 12 && FracValue("345") == 0.345
  {
    assert "12"[..1] == "1" && "1"[..0] == "";
    assert "345"[1..] == "45" && "45"[1..] == "5" && "5"[1..] == "";
  }

  /** A single comma group is read as a decimal comma: "12,345" is 12.345, not 12345. */
  lemma ParseSingleCommaGroup()
    ensures ParseFloat(Some("12,345")) == Some(12.345)
  {
    assert "12,345" == "12" + "," + "345";
    DigitsOf12345();
    ParseDecimalComma("12", "345", 12);
    assert 12.0 + 0.345 == 12.345;
  }

  // ---- normalize_multiplier ----

  /** The ASCII part of the regex class `\w`. */
  predicate IsWordChar(c: char)
  {
    ('a' <= c <= 'z') || ('A' <= c <= 'Z') || IsDigit(c) || c == '_'
  }

  /** `\bw\b` matches at index `i` of `s`: `w` occurs there and is not glued to a
      word character on either side. */
  predicate WordAt(s: string, w: string, i: int)
  {
    0 <= i && i + |w| <= |s| && s[i..i + |w|] == w
    && (i == 0 || !IsWordChar(s[i - 1]))
    && (i + |w| == |s| || !IsWordChar(s[i + |w|]))
  }

  /** Scans `s` from index `i` for a whole-word occurrence of `w`. */
  function HasWordFrom(s: string, w: string, i: nat): (b: bool)
    ensures b <==> exists j :: i <= j && WordAt(s, w, j)
    decreases |s| - i
  {
    if i + |w| > |s| then false
    else if WordAt(s, w, i) then true
    else HasWordFrom(s, w, i + 1)
  }

  /** `re.search(r'\bw\b', s)` for a word `w`. */
  predicate HasWord(s: string, w: string)
  {
    HasWordFrom(s, w, 0)
  }

  /** The factor the word classes name in `context`: the first of the billion, million
      and thousand classes found as a whole word of the lower-cased context wins. */
  function WordMultiplier(context: string): real
  {
    var c := Lower(context);
    if HasWord(c, "billion") || HasWord(c, "bn") || HasWord(c, "b") then 1000000000.0
    else if HasWord(c, "million") || HasWord(c, "m") then 1000000.0
    else if HasWord(c, "thousand") || HasWord(c, "k") then 1000.0
    else 1.0
  }

  /** `normalize_multiplier`: None stays None; otherwise the value is scaled by the
      factor its context names, and returned as it is when no class is found. */
  function NormalizeMultiplier(value: Option<real>, context: string): (r: Option<real>)
    ensures r.None? <==> value.None?
    ensures value.Some? ==> r == Some(value.value * WordMultiplier(context))
    ensures WordMultiplier(context) == 1.0 ==> r == value
  {
    if value.None? then None else Some(value.value * WordMultiplier(context))
  }

  /** The four factors, tested in order: a billion word, then a million word, then a
      thousand word, each as a whole word of the lower-cased context; no scaling
      exactly when none of the seven words occurs. */
  lemma WordMultiplierClasses(context: string)
    ensures var f, c := WordMultiplier(context), Lower(context);
      var billion := HasWord(c, "billion") || HasWord(c, "bn") || HasWord(c, "b");
      var million := HasWord(c, "million") || HasWord(c, "m");
      var thousand := HasWord(c, "thousand") || HasWord(c, "k");
      && (f == 1000000000.0 || f == 1000000.0 || f == 1000.0 || f == 1.0)
      && (billion ==> f == 1000000000.0)
      && (!billion && million ==> f == 1000000.0)
      && (!billion && !million && thousand ==> f == 1000.0)
      && (f == 1.0 <==> !billion && !million && !thousand)
  {
  }

  predicate AllWordChars(s: string)
  {
    forall i :: 0 <= i < |s| ==> IsWordChar(s[i])
  }

  /** In a context that is a single word, a word matches only as the whole context. */
  lemma SingleWordContext(s: string, w: string)
    requires AllWordChars(s) && |w| > 0
    ensures HasWord(s, w) <==> s == w
  {
    if HasWord(s, w) {
      var j :| 0 <= j && WordAt(s, w, j);
      assert j == 0;
      assert j + |w| == |s|;
      assert s == s[0..|w|];
    }
    if s == w {
      assert s[0..|w|] == w;
      assert WordAt(s, w, 0);
    }
  }

  /** A word set off by non-word characters matches. */
  lemma WordBetweenSeparators(a: string, w: string, b: string)
    requires a == [] || !IsWordChar(a[|a| - 1])
    requires b == [] || !IsWordChar(b[0])
    ensures HasWord(a + w + b, w)
  {
    var s := a + w + b;
    assert s[|a|..|a| + |w|] == w;
    assert WordAt(s, w, |a|);
  }

  /** Against the agent's substring rule: "kg" scales by a thousand there and not at
      all here, since "k" is not a whole word of it. */
  lemma WordRulesDifferFromAgent()
    ensures Normalization.Multiplier(Some("kg")) == Normalization.THOUSAND
    ensures NormalizeMultiplier(Some(5.0), "kg") == Some(5.0)
  {
    Normalization.MultiplierKg();
    assert Lower("kg") == "kg";
    assert AllWordChars("kg");
    SingleWordContext("kg", "billion");
    SingleWordContext("kg", "bn");
    SingleWordContext("kg", "b");
    SingleWordContext("kg", "million");
    SingleWordContext("kg", "m");
    SingleWordContext("kg", "thousand");
    SingleWordContext("kg", "k");
  }

  /** The billion class wins: "EUR bn, m" scales by a billion. */
  lemma BillionWordWins()
    ensures NormalizeMultiplier(Some(2.0), "EUR bn, m") == Some(2000000000.0)
  {
    assert Lower("EUR bn, m") == "eur bn, m";
    assert "eur bn, m" == "eur " + "bn" + ", m";
    WordBetweenSeparators("eur ", "bn", ", m");
  }
}
