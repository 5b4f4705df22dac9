/** The quote-aware scanners of the filter parser: keywords and commas outside quotes. */
module NsqlScanner {
  import opened Wrappers
  import opened Text

  // ---------------------------------------------------------------- quoting

  datatype Quote = Out | InSingle | InDouble

  /** The quote state after one more character; a quote of the other kind is plain text. */
  function Step(q: Quote, c: char): Quote {
    if c == '\'' && q != InDouble then (if q == InSingle then Out else InSingle)
    else if c == '"' && q != InSingle then (if q == InDouble then Out else InDouble)
    else q
  }

  function After(q: Quote, s: string): Quote
    decreases |s|
  {
    if s == "" then q else After(Step(q, s[0]), s[1..])
  }

  lemma {:induction false} AfterConcat(q: Quote, a: string, b: string)
    ensures After(q, a + b) == After(After(q, a), b)
    decreases |a|
  {
    if a == "" {
      assert a + b == b;
    } else {
      assert (a + b)[1..] == a[1..] + b;
      AfterConcat(Step(q, a[0]), a[1..], b);
    }
  }

  lemma AfterNext(q: Quote, s: string, i: nat)
    requires i < |s|
    ensures After(q, s[..i + 1]) == Step(After(q, s[..i]), s[i])
  {
    AfterConcat(q, s[..i], [s[i]]);
    assert s[..i + 1] == s[..i] + [s[i]];
    assert [s[i]][1..] == "";
  }

  // ---------------------------------------------------------------- keywords outside quotes

  predicate IsQuote(c: char) { c == '\'' || c == '"' }

  /** A keyword may only start the text or follow whitespace or a closing parenthesis. */
  predicate StartsWord(text: string, i: nat)
    requires i <= |text|
  {
    i == 0 || IsWhitespace(text[i - 1]) || text[i - 1] == ')'
  }

  /** An occurrence of the keyword at character `i`: outside quotes, delimited on both sides, in any case. */
  predicate KeywordAt(text: string, kw: string, i: nat)
    requires kw != ""
  {
    && i + |kw| <= |text|
    && After(Out, text[..i]) == Out
    && !IsQuote(text[i])
    && SameIgnoreCase(text[i..i + |kw|], kw)
    && StartsWord(text, i)
    && (i + |kw| == |text| || IsWhitespace(text[i + |kw|]))
  }

  /** The first occurrence at or after `i`. */
  function FirstKeywordFrom(text: string, kw: string, i: nat): (r: Option<nat>)
    requires kw != "" && i <= |text|
    ensures r.Some? ==> i <= r.value && KeywordAt(text, kw, r.value) && forall j | i <= j < r.value :: !KeywordAt(text, kw, j)
    ensures r.None? ==> forall j | i <= j :: !KeywordAt(text, kw, j)
    decreases |text| - i
  {
    if i == |text| then None
    else if KeywordAt(text, kw, i) then Some(i)
    else FirstKeywordFrom(text, kw, i + 1)
  }

  function FindKeyword(text: string, kw: string): Option<nat>
    requires kw != ""
  {
    FirstKeywordFrom(text, kw, 0)
  }

  lemma FoundKeyword(text: string, kw: string)
    requires kw != "" && FindKeyword(text, kw).Some?
    ensures var i := FindKeyword(text, kw).value; KeywordAt(text, kw, i) && i + |kw| <= |text|
  {
  }

  lemma KeywordHere(text: string, kw: string, i: nat)
    requires kw != "" && i < |text|
    ensures KeywordAt(text, kw, i) <==>
              && After(Out, text[..i]) == Out && text[i] != '\'' && text[i] != '"'
              && i + |kw| <= |text| && SameIgnoreCase(text[i..i + |kw|], kw)
              && (i == 0 || IsWhitespace(text[i - 1]) || text[i - 1] == ')')
              && (i + |kw| == |text| || IsWhitespace(text[i + |kw|]))
    ensures FirstKeywordFrom(text, kw, i) == if KeywordAt(text, kw, i) then Some(i) else FirstKeywordFrom(text, kw, i + 1)
  {
    hide SameIgnoreCase, IsWhitespace;
  }

  lemma NoKeywordLeft(text: string, kw: string)
    requires kw != ""
    ensures FirstKeywordFrom(text, kw, |text|) == None && FindKeyword(text, kw) == FirstKeywordFrom(text, kw, 0)
  {
    hide KeywordAt;
  }

  lemma WidthStep(text: string, i: nat)
    requires i < |text|
    ensures Utf8Len(text[..i + 1]) == Utf8Len(text[..i]) + Utf8Width(text[i])
  {
    hide Utf8Width;
    Utf8LenConcat(text[..i], [text[i]]);
    assert text[..i] + [text[i]] == text[..i + 1];
    assert Utf8Len([text[i]]) == Utf8Width(text[i]) + Utf8Len([text[i]][1..]);
  }

  /** `find_keyword_outside_quotes`: the byte offset of the first occurrence, or None when there is none. */
  method FindKeywordOutsideQuotes(text: string, kw: string) returns (r: Option<nat>)
    requires kw != "" && !IsQuote(kw[0])
    ensures r.Some? <==> exists i: nat :: KeywordAt(text, kw, i)
    ensures r.Some? ==> exists i: nat ::
              && KeywordAt(text, kw, i)
              && (forall j | 0 <= j < i :: !KeywordAt(text, kw, j))
              && r.value == Utf8Len(text[..i])
    ensures r == match FindKeyword(text, kw) case None => None case Some(i) => Some(Utf8Len(text[..i]))
  {
    var inSingleQuote := false;
    var inDoubleQuote := false;
    var byteIdx := 0;
    NoKeywordLeft(text, kw);
    assert Utf8Len(text[..0]) == 0 && After(Out, text[..0]) == Out;
    hide KeywordAt, FirstKeywordFrom, FindKeyword, SameIgnoreCase, IsWhitespace, Utf8Len, Utf8Width, After;
    for i := 0 to |text|
      invariant byteIdx == Utf8Len(text[..i])
      invariant After(Out, text[..i]) == if inSingleQuote then InSingle else if inDoubleQuote then InDouble else Out
      invariant !(inSingleQuote && inDoubleQuote)
      invariant FindKeyword(text, kw) == FirstKeywordFrom(text, kw, i)
      invariant forall j | 0 <= j < i :: !KeywordAt(text, kw, j)
    {
      var c := text[i];
      AfterNext(Out, text, i);
      KeywordHere(text, kw, i);
      if c == '\'' && !inDoubleQuote {
        inSingleQuote := !inSingleQuote;
      } else if c == '"' && !inSingleQuote {
        inDoubleQuote := !inDoubleQuote;
      } else if !inSingleQuote && !inDoubleQuote && i + |kw| <= |text| {
        if SameIgnoreCase(text[i..i + |kw|], kw) {
          var prevOk := i == 0 || IsWhitespace(text[i - 1]) || text[i - 1] == ')';
          var nextIdx := i + |kw|;
          var nextOk := nextIdx == |text| || IsWhitespace(text[nextIdx]);
          if prevOk && nextOk {
            return Some(byteIdx);
          }
        }
      }
      WidthStep(text, i);
      byteIdx := byteIdx + Utf8Width(c);
    }
    r := None;
  }

  /** The two cuts the callers make at the returned byte offset, before the keyword and after its bytes,
      fall on character boundaries, and the three parts rebuild the text. */
  lemma KeywordCuts(text: string, kw: string, i: nat)
    requires kw != "" && AllAscii(kw) && KeywordAt(text, kw, i)
    ensures var b := Utf8Len(text[..i]);
            && ByteTake(text, b) == Some(text[..i])
            && ByteDrop(text, b + |kw|) == Some(text[i + |kw|..])
    ensures text == text[..i] + text[i..i + |kw|] + text[i + |kw|..]
    ensures SameIgnoreCase(text[i..i + |kw|], kw)
  {
    hide *;
    KeywordSpan(text, kw, i);
    SameAscii(text[i..i + |kw|], kw);
    CutBytes(text, i, |kw|);
  }

  lemma CutBytes(text: string, i: nat, n: nat)
    requires i + n <= |text| && AllAscii(text[i..i + n])
    ensures text == text[..i] + text[i..i + n] + text[i + n..]
    ensures ByteTake(text, Utf8Len(text[..i])) == Some(text[..i])
    ensures ByteDrop(text, Utf8Len(text[..i]) + n) == Some(text[i + n..])
  {
    hide *;
    var before, found, behind := text[..i], text[i..i + n], text[i + n..];
    CutParts(text, i, i + n);
    BytesOfCuts(before, found, behind);
    assert |found| == n;
  }

  lemma KeywordSpan(text: string, kw: string, i: nat)
    requires kw != "" && KeywordAt(text, kw, i)
    ensures i + |kw| <= |text| && SameIgnoreCase(text[i..i + |kw|], kw)
  {
  }

  lemma CutParts(text: string, i: nat, k: nat)
    requires i <= k <= |text|
    ensures text == text[..i] + text[i..k] + text[k..] == text[..i] + (text[i..k] + text[k..])
  {
  }

  lemma BytesOfCuts(before: string, found: string, behind: string)
    requires AllAscii(found)
    ensures ByteTake(before + (found + behind), Utf8Len(before)) == Some(before)
    ensures ByteDrop(before + found + behind, Utf8Len(before) + |found|) == Some(behind)
  {
    hide Utf8Len, ByteTake, ByteDrop, AllAscii;
    Utf8LenAscii(found);
    Utf8LenConcat(before, found);
    ByteCut(before, found + behind);
    ByteCut(before + found, behind);
  }

  lemma SameAscii(s: string, t: string)
    requires SameIgnoreCase(s, t) && AllAscii(t)
    ensures AllAscii(s)
  {
    forall k | 0 <= k < |s|
      ensures IsAscii(s[k])
    {
      assert EqIgnoreCase(s[k], t[k]) && IsAscii(t[k]);
    }
  }

  // ---------------------------------------------------------------- text without a keyword

  /** The keyword cannot start at character `i` of `s`, whatever follows `s`: a character of `s` differs. */
  predicate MismatchAt(s: string, kw: string, i: nat) {
    exists j :: 0 <= j < |kw| && i + j < |s| && !EqIgnoreCase(s[i + j], kw[j])
  }

  /** A piece of text that closes its quotes and at none of whose word starts, its own beginning counted
      as one, the keyword could begin. */
  predicate Quiet(s: string, kw: string) {
    && After(Out, s) == Out
    && forall i | 0 <= i < |s| && After(Out, s[..i]) == Out && StartsWord(s, i) :: MismatchAt(s, kw, i)
  }

  lemma MismatchGrows(s: string, kw: string, i: nat, before: string, after: string)
    requires MismatchAt(s, kw, i)
    ensures MismatchAt(before + s + after, kw, |before| + i)
  {
    var j :| 0 <= j < |kw| && i + j < |s| && !EqIgnoreCase(s[i + j], kw[j]);
    assert (before + s + after)[|before| + i + j] == s[i + j];
  }

  lemma QuietConcat(a: string, b: string, kw: string)
    requires Quiet(a, kw) && Quiet(b, kw)
    ensures Quiet(a + b, kw)
  {
    var s := a + b;
    AfterConcat(Out, a, b);
    forall i | 0 <= i < |s| && After(Out, s[..i]) == Out && StartsWord(s, i)
      ensures MismatchAt(s, kw, i)
    {
      if i < |a| {
        assert s[..i] == a[..i];
        assert StartsWord(a, i);
        MismatchGrows(a, kw, i, "", b);
        assert "" + a + b == s;
      } else {
        assert s[..i] == a + b[..i - |a|];
        AfterConcat(Out, a, b[..i - |a|]);
        assert StartsWord(b, i - |a|);
        MismatchGrows(b, kw, i - |a|, a, "");
        assert a + b + "" == s;
      }
    }
  }

  lemma QuietHasNoKeyword(s: string, kw: string)
    requires kw != "" && Quiet(s, kw)
    ensures FindKeyword(s, kw) == None
  {
    forall i | 0 <= i < |s|
      ensures !KeywordAt(s, kw, i)
    {
      QuietNotAt(s, "", kw, i);
      assert s + "" == s;
    }
  }

  lemma MismatchDiffers(text: string, kw: string, i: nat)
    requires MismatchAt(text, kw, i) && i + |kw| <= |text|
    ensures !SameIgnoreCase(text[i..i + |kw|], kw)
  {
    var j :| 0 <= j < |kw| && i + j < |text| && !EqIgnoreCase(text[i + j], kw[j]);
    assert text[i..i + |kw|][j] == text[i + j];
  }

  lemma QuietNotAt(s: string, rest: string, kw: string, i: nat)
    requires kw != "" && Quiet(s, kw) && i < |s|
    ensures !KeywordAt(s + rest, kw, i)
  {
    var text := s + rest;
    assert text[..i] == s[..i];
    if i + |kw| <= |text| && After(Out, text[..i]) == Out && StartsWord(text, i) {
      assert StartsWord(s, i);
      MismatchGrows(s, kw, i, "", rest);
      assert "" + s + rest == text;
      MismatchDiffers(text, kw, i);
    }
  }

  /** After quiet text that ends in whitespace, the keyword itself is the first occurrence. */
  lemma KeywordAfterQuiet(s: string, kw: string, rest: string)
    requires kw != "" && !IsQuote(kw[0]) && Quiet(s, kw) && s != "" && IsWhitespace(s[|s| - 1])
    requires rest == "" || IsWhitespace(rest[0])
    ensures FindKeyword(s + kw + rest, kw) == Some(|s|)
  {
    var text := s + kw + rest;
    assert text == s + (kw + rest);
    assert text[..|s|] == s && text[|s|..|s| + |kw|] == kw;
    assert KeywordAt(text, kw, |s|);
    forall i | 0 <= i < |s|
      ensures !KeywordAt(text, kw, i)
    {
      QuietNotAt(s, kw + rest, kw, i);
    }
    var r := FindKeyword(text, kw);
    assert r.Some?;
  }

  /** Quoted text without quotes inside is quiet. */
  lemma QuotedIsQuiet(s: string, kw: string)
    requires kw != "" && !IsQuote(kw[0]) && '\'' !in s
    ensures Quiet("'" + s + "'", kw)
    ensures After(Out, "'" + s + "'") == Out
  {
    var text := "'" + s + "'";
    forall i | 0 < i <= |s| + 1
      ensures After(Out, text[..i]) == InSingle
    {
      assert text[..i] == ['\''] + s[..i - 1];
      AfterConcat(Out, ['\''], s[..i - 1]);
      assert ['\''][1..] == "";
      assert forall k | 0 <= k < i - 1 :: s[k] in s;
      AfterInside(s[..i - 1]);
    }
    AfterNext(Out, text, |s| + 1);
    assert text[..|s| + 2] == text;
    assert !EqIgnoreCase(text[0 + 0], kw[0]);
    assert MismatchAt(text, kw, 0);
  }

  lemma {:induction false} AfterInside(s: string)
    requires '\'' !in s
    ensures After(InSingle, s) == InSingle
  {
    if s == "" {
    } else {
      assert s[0] in s;
      AfterInside(s[1..]);
    }
  }

  // ---------------------------------------------------------------- commas outside quotes

  /** The pieces still to come, when `current` has been collected and the quote state is `q`. */
  function SplitFrom(q: Quote, current: string, s: string): seq<string>
    decreases |s|
  {
    if s == "" then (if Trim(current) != "" then [Trim(current)] else [])
    else if s[0] == ',' && q == Out then [Trim(current)] + SplitFrom(Out, "", s[1..])
    else SplitFrom(Step(q, s[0]), current + [s[0]], s[1..])
  }

  function SplitCommas(text: string): seq<string> { SplitFrom(Out, "", text) }

  /** `split_comma_outside_quotes`. */
  method SplitCommaOutsideQuotes(text: string) returns (result: seq<string>)
    ensures result == SplitCommas(text)
  {
    result := [];
    var current := "";
    var inSingleQuote := false;
    var inDoubleQuote := false;
    for i := 0 to |text|
      invariant !(inSingleQuote && inDoubleQuote)
      invariant SplitCommas(text) ==
                result + SplitFrom(if inSingleQuote then InSingle else if inDoubleQuote then InDouble else Out, current, text[i..])
    {
      var c := text[i];
      assert text[i..][1..] == text[i + 1..];
      if c == '\'' && !inDoubleQuote {
        inSingleQuote := !inSingleQuote;
        current := current + [c];
      } else if c == '"' && !inSingleQuote {
        inDoubleQuote := !inDoubleQuote;
        current := current + [c];
      } else if c == ',' && !inSingleQuote && !inDoubleQuote {
        assert result + ([Trim(current)] + SplitFrom(Out, "", text[i + 1..]))
            == result + [Trim(current)] + SplitFrom(Out, "", text[i + 1..]);
        result := result + [Trim(current)];
        current := "";
      } else {
        current := current + [c];
      }
    }
    if Trim(current) != "" {
      result := result + [Trim(current)];
    }
  }

  /** No comma of `s` lies outside quotes when the scan enters it in state `q`. */
  predicate CommaFree(q: Quote, s: string)
    decreases |s|
  {
    s == "" || (!(s[0] == ',' && q == Out) && CommaFree(Step(q, s[0]), s[1..]))
  }

  lemma {:induction false} SplitSkips(q: Quote, current: string, s: string, rest: string)
    requires CommaFree(q, s)
    ensures SplitFrom(q, current, s + rest) == SplitFrom(After(q, s), current + s, rest)
    decreases |s|
  {
    if s == "" {
      assert s + rest == rest && current + s == current;
    } else {
      assert (s + rest)[1..] == s[1..] + rest;
      SplitSkips(Step(q, s[0]), current + [s[0]], s[1..], rest);
      assert current + [s[0]] + s[1..] == current + s;
    }
  }

  lemma {:induction false} CommaFreeConcat(q: Quote, a: string, b: string)
    requires CommaFree(q, a) && CommaFree(After(q, a), b)
    ensures CommaFree(q, a + b)
    decreases |a|
  {
    if a == "" {
      assert a + b == b;
    } else {
      assert (a + b)[1..] == a[1..] + b;
      CommaFreeConcat(Step(q, a[0]), a[1..], b);
    }
  }

  lemma {:induction false} InsideQuotesIsCommaFree(s: string)
    requires '\'' !in s
    ensures CommaFree(InSingle, s)
  {
    if s == "" {
    } else {
      assert s[0] in s;
      InsideQuotesIsCommaFree(s[1..]);
    }
  }
}
