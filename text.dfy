/** String helpers shared by the pipeline stages: Python's `lower`, `upper`,
    `strip`, `in`, `replace`, `rfind`, `find`, `join`, and decimal digits. */
module Text {

  /** Python's `str.isspace()`; `strip()` and the regex class `\s` use the same set. */
  predicate IsSpace(c: char)
  {
    c == ' ' || ('\t' <= c <= '\r') || ('\U{1c}' <= c <= '\U{1f}')
    || c == '\U{85}' || c == '\U{a0}' || c == '\U{1680}'
    || ('\U{2000}' <= c <= '\U{200a}') || c == '\U{2028}' || c == '\U{2029}'
    || c == '\U{202f}' || c == '\U{205f}' || c == '\U{3000}'
  }

  function LowerChar(c: char): char
  {
    if 'A' <= c <= 'Z' then (c as int + 32) as char else c
  }

  function UpperChar(c: char): char
  {
    if 'a' <= c <= 'z' then (c as int - 32) as char else c
  }

  /** `s.lower()` on the ASCII letters. */
  function Lower(s: string): (r: string)
    ensures |r| == |s|
    ensures forall i :: 0 <= i < |s| ==> r[i] == LowerChar(s[i])
  {
    seq(|s|, i requires 0 <= i < |s| => LowerChar(s[i]))
  }

  /** `s.upper()` on the ASCII letters. */
  function Upper(s: string): (r: string)
    ensures |r| == |s|
    ensures forall i :: 0 <= i < |s| ==> r[i] == UpperChar(s[i])
  {
    seq(|s|, i requires 0 <= i < |s| => UpperChar(s[i]))
  }

  function StripLeft(s: string): (r: string)
    ensures |r| <= |s| && r == s[|s| - |r|..]
    ensures r == [] || !IsSpace(r[0])
  {
    if |s| > 0 && IsSpace(s[0]) then StripLeft(s[1..]) else s
  }

  function StripRight(s: string): (r: string)
    ensures |r| <= |s| && r == s[..|r|]
    ensures r == [] || !IsSpace(r[|r| - 1])
  {
    if |s| > 0 && IsSpace(s[|s| - 1]) then StripRight(s[..|s| - 1]) else s
  }

  /** `s.strip()`. */
  function Strip(s: string): string
  {
    StripRight(StripLeft(s))
  }

  /** A string whose ends are not blank is its own strip. */
  lemma StripUnpadded(s: string)
    requires |s| > 0 && !IsSpace(s[0]) && !IsSpace(s[|s| - 1])
    ensures Strip(s) == s
  {
  }

  predicate StartsWith(s: string, prefix: string)
  {
    |prefix| <= |s| && s[..|prefix|] == prefix
  }

  /** Python's `needle in hay` on strings. */
  predicate Contains(hay: string, needle: string)
    decreases |hay|
  {
    StartsWith(hay, needle) || (|hay| > 0 && Contains(hay[1..], needle))
  }

  /** A needle with a character the haystack lacks does not occur in it. */
  lemma {:induction false} NotContainsMissingChar(hay: string, needle: string, c: char)
    requires c in needle && c !in hay
    ensures !Contains(hay, needle)
    decreases |hay|
  {
    var k :| 0 <= k < |needle| && needle[k] == c;
    if |needle| <= |hay| {
      assert hay[..|needle|][k] in hay;
      assert hay[..|needle|] != needle;
    }
    if |hay| > 0 {
      NotContainsMissingChar(hay[1..], needle, c);
    }
  }

  /** A needle longer than the haystack does not occur in it. */
  lemma {:induction false} NotContainsLonger(hay: string, needle: string)
    requires |needle| > |hay|
    ensures !Contains(hay, needle)
    decreases |hay|
  {
    if |hay| > 0 {
      NotContainsLonger(hay[1..], needle);
    }
  }

  /** `s.replace(c, "")`. */
  function RemoveChar(s: string, c: char): (r: string)
    ensures forall i :: 0 <= i < |r| ==> r[i] != c
    ensures |r| <= |s|
  {
    if s == [] then [] else (if s[0] == c then [] else [s[0]]) + RemoveChar(s[1..], c)
  }

  /** Removing `c` introduces no character: a character `d` absent before is absent after. */
  lemma {:induction false} RemoveCharKeeps(s: string, c: char, d: char)
    requires d !in s
    ensures d !in RemoveChar(s, c)
  {
    if s != [] {
      RemoveCharKeeps(s[1..], c, d);
    }
  }

  /** `s.replace(a, b)` for single characters. */
  function ReplaceChar(s: string, a: char, b: char): (r: string)
    ensures |r| == |s|
    ensures forall i :: 0 <= i < |s| ==> r[i] == if s[i] == a then b else s[i]
  {
    seq(|s|, i requires 0 <= i < |s| => if s[i] == a then b else s[i])
  }

  /** `s.rfind(c)`: the last index of `c`, or -1. */
  function RFind(s: string, c: char): (r: int)
    ensures -1 <= r < |s|
    ensures r >= 0 ==> s[r] == c
    ensures forall j :: r < j < |s| ==> s[j] != c
  {
    if s == [] then -1
    else if s[|s| - 1] == c then |s| - 1
    else RFind(s[..|s| - 1], c)
  }

  /** `s.find(c)`: the first index of `c`, or -1. */
  function Find(s: string, c: char): (r: int)
    ensures -1 <= r < |s|
    ensures r >= 0 ==> s[r] == c
    ensures forall j :: 0 <= j < |s| && (r == -1 || j < r) ==> s[j] != c
  {
    if s == [] then -1
    else if s[0] == c then 0
    else var k := Find(s[1..], c); if k == -1 then -1 else k + 1
  }

  /** `sep.join(parts)`. */
  function Join(sep: string, parts: seq<string>): string
  {
    if parts == [] then ""
    else if |parts| == 1 then parts[0]
    else Join(sep, parts[..|parts| - 1]) + sep + parts[|parts| - 1]
  }

  /** Joining one more part appends the separator (unless it is the first part) and the part. */
  lemma JoinStep(sep: string, parts: seq<string>, i: nat)
    requires i < |parts|
    ensures Join(sep, parts[..i + 1]) == Join(sep, parts[..i]) + (if i > 0 then sep else "") + parts[i]
  {
    assert parts[..i + 1][..i] == parts[..i];
  }

  /** The join of the first `i` parts is a prefix of the join of the first `j`. */
  lemma {:induction false} JoinPrefix(sep: string, parts: seq<string>, i: nat, j: nat)
    requires i <= j <= |parts|
    ensures StartsWith(Join(sep, parts[..j]), Join(sep, parts[..i]))
  {
    if i < j {
      JoinPrefix(sep, parts, i, j - 1);
      JoinStep(sep, parts, j - 1);
      var a := Join(sep, parts[..i]);
      var b := Join(sep, parts[..j - 1]);
      assert b[..|a|] == a;
      var c := b + (if j - 1 > 0 then sep else "") + parts[j - 1];
      assert c[..|b|] == b;
      assert c[..|a|] == b[..|a|];
    }
  }

  lemma {:induction false} RemoveCharAppend(a: string, b: string, c: char)
    ensures RemoveChar(a + b, c) == RemoveChar(a, c) + RemoveChar(b, c)
  {
    if a == [] {
      assert a + b == b;
    } else {
      assert (a + b)[1..] == a[1..] + b;
      RemoveCharAppend(a[1..], b, c);
    }
  }

  lemma {:induction false} RemoveCharAbsent(s: string, c: char)
    requires forall i :: 0 <= i < |s| ==> s[i] != c
    ensures RemoveChar(s, c) == s
  {
    if s != [] {
      RemoveCharAbsent(s[1..], c);
    }
  }

  lemma {:induction false} RFindAppendAbsent(a: string, b: string, c: char)
    requires forall i :: 0 <= i < |b| ==> b[i] != c
    ensures RFind(a + b, c) == RFind(a, c)
  {
    if b != [] {
      assert (a + b)[..|a + b| - 1] == a + b[..|b| - 1];
      RFindAppendAbsent(a, b[..|b| - 1], c);
    } else {
      assert a + b == a;
    }
  }

  lemma {:induction false} FindAppend(a: string, b: string, c: char)
    requires forall i :: 0 <= i < |a| ==> a[i] != c
    requires |b| > 0 && b[0] == c
    ensures Find(a + b, c) == |a|
  {
    if a == [] {
      assert a + b == b;
    } else {
      assert (a + b)[1..] == a[1..] + b;
      FindAppend(a[1..], b, c);
    }
  }

  // ---- Decimal digits ----

  predicate IsDigit(c: char)
  {
    '0' <= c <= '9'
  }

  predicate AllDigits(s: string)
  {
    forall i :: 0 <= i < |s| ==> IsDigit(s[i])
  }

  function DigitChar(d: nat): (c: char)
    requires d < 10
    ensures IsDigit(c)
  {
    ('0' as int + d) as char
  }

  function DigitValue(c: char): (d: nat)
    requires IsDigit(c)
    ensures d < 10
  {
    c as int - '0' as int
  }

  function Pow10(k: nat): (r: nat)
    ensures r >= 1
  {
    if k == 0 then 1 else 10 * Pow10(k - 1)
  }

  /** The number a string of decimal digits denotes (what `int()` reads). */
  function DigitsValue(s: string): nat
    requires AllDigits(s)
  {
    if s == [] then 0 else DigitsValue(s[..|s| - 1]) * 10 + DigitValue(s[|s| - 1])
  }

  /** `str(n)` for a natural number. */
  function NatToString(n: nat): (s: string)
    ensures AllDigits(s) && |s| > 0
  {
    if n < 10 then [DigitChar(n)] else NatToString(n / 10) + [DigitChar(n % 10)]
  }

  /** `str(i)` for an integer. */
  function IntToString(i: int): string
  {
    if i < 0 then "-" + NatToString(-i) else NatToString(i)
  }

  /** Three digits with leading zeros, the inner groups of a grouped number. */
  function Pad3(r: nat): (s: string)
    requires r < 1000
    ensures |s| == 3 && AllDigits(s)
  {
    [DigitChar(r / 100), DigitChar(r / 10 % 10), DigitChar(r % 10)]
  }

  /** Two digits with a leading zero. */
  function Pad2(r: nat): (s: string)
    requires r < 100
    ensures |s| == 2 && AllDigits(s)
  {
    [DigitChar(r / 10), DigitChar(r % 10)]
  }

  /** The digits of `n` in groups of three, separated by `sep` (`f"{n:,}"` for `sep == ','`). */
  function GroupDigits(n: nat, sep: char): string
  {
    if n < 1000 then NatToString(n) else GroupDigits(n / 1000, sep) + [sep] + Pad3(n % 1000)
  }

  lemma {:induction false} DigitsValueAppend(a: string, b: string)
    requires AllDigits(a) && AllDigits(b)
    ensures AllDigits(a + b)
    ensures DigitsValue(a + b) == DigitsValue(a) * Pow10(|b|) + DigitsValue(b)
  {
    if b == [] {
      assert a + b == a;
    } else {
      var b' := b[..|b| - 1];
      var last := DigitValue(b[|b| - 1]);
      assert (a + b)[..|a + b| - 1] == a + b';
      DigitsValueAppend(a, b');
      assert DigitsValue(a + b) == DigitsValue(a + b') * 10 + last;
      assert DigitsValue(b) == DigitsValue(b') * 10 + last;
      ShiftDigit(DigitsValue(a), Pow10(|b'|), DigitsValue(b'), last);
    }
  }

  /** Appending a digit to `x * p + y` multiplies the shift by ten. */
  lemma ShiftDigit(x: nat, p: nat, y: nat, d: nat)
    ensures (x * p + y) * 10 + d == x * (10 * p) + (y * 10 + d)
  {
  }

  /** Reading back `str(n)` gives `n`. */
  lemma {:induction false} NatToStringValue(n: nat)
    ensures DigitsValue(NatToString(n)) == n
  {
    if n >= 10 {
      var s := NatToString(n);
      assert s[..|s| - 1] == NatToString(n / 10);
      NatToStringValue(n / 10);
    }
  }

  lemma Pad3Value(r: nat)
    requires r < 1000
    ensures DigitsValue(Pad3(r)) == r
  {
    var s := Pad3(r);
    assert s[..2][..1] == [s[0]];
    assert DigitsValue(s[..2][..1]) == r / 100;
    assert DigitsValue(s[..2]) == (r / 100) * 10 + r / 10 % 10;
  }

  lemma Pad2Value(r: nat)
    requires r < 100
    ensures DigitsValue(Pad2(r)) == r
  {
    var s := Pad2(r);
    assert s[..1] == [s[0]];
    assert s[..1][..0] == [];
    assert DigitsValue(s[..1]) == r / 10;
  }

  /** Removing the separators from a grouped number leaves its digits. */
  lemma {:induction false} GroupDigitsValue(n: nat, sep: char)
    requires !IsDigit(sep)
    ensures AllDigits(RemoveChar(GroupDigits(n, sep), sep))
    ensures DigitsValue(RemoveChar(GroupDigits(n, sep), sep)) == n
  {
    if n < 1000 {
      RemoveCharAbsent(NatToString(n), sep);
      NatToStringValue(n);
    } else {
      var g := GroupDigits(n / 1000, sep);
      GroupDigitsValue(n / 1000, sep);
      RemoveGroupSeparator(g, n % 1000, sep);
      assert RemoveChar(GroupDigits(n, sep), sep) == RemoveChar(g, sep) + Pad3(n % 1000);
      AppendGroupValue(RemoveChar(g, sep), n / 1000, n % 1000);
    }
  }

  /** Dropping the separators of `g`, a separator and three digits leaves `g`'s digits and those three. */
  lemma RemoveGroupSeparator(g: string, lo: nat, sep: char)
    requires lo < 1000 && !IsDigit(sep)
    ensures RemoveChar(g + [sep] + Pad3(lo), sep) == RemoveChar(g, sep) + Pad3(lo)
  {
    RemoveCharAppend(g + [sep], Pad3(lo), sep);
    RemoveCharAppend(g, [sep], sep);
    assert RemoveChar([sep], sep) == [];
    RemoveCharAbsent(Pad3(lo), sep);
  }

  /** Digits worth `q` followed by three digits worth `lo` are worth `q * 1000 + lo`. */
  lemma AppendGroupValue(u: string, q: nat, lo: nat)
    requires AllDigits(u) && DigitsValue(u) == q && lo < 1000
    ensures AllDigits(u + Pad3(lo)) && DigitsValue(u + Pad3(lo)) == q * 1000 + lo
  {
    DigitsValueAppend(u, Pad3(lo));
    Pad3Value(lo);
  }

  /** A grouped number starts and ends with a digit. */
  lemma {:induction false} GroupDigitsEnds(n: nat, sep: char)
    ensures |GroupDigits(n, sep)| > 0
    ensures IsDigit(GroupDigits(n, sep)[0])
    ensures IsDigit(GroupDigits(n, sep)[|GroupDigits(n, sep)| - 1])
  {
    if n >= 1000 {
      GroupDigitsEnds(n / 1000, sep);
    }
  }

  /** Every character of a grouped number is a digit or the separator. */
  lemma {:induction false} GroupDigitsChars(n: nat, sep: char)
    ensures forall i :: 0 <= i < |GroupDigits(n, sep)| ==>
      IsDigit(GroupDigits(n, sep)[i]) || GroupDigits(n, sep)[i] == sep
  {
    if n >= 1000 {
      GroupDigitsChars(n / 1000, sep);
    }
  }
}
