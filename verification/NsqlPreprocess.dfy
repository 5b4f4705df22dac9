/** The three rewrites made to the WHERE text before it is parsed as SQL. They see the text only, so they
    also rewrite inside string literals. */
module NsqlPreprocess {
  import opened Wrappers
  import opened Text

  // ---------------------------------------------------------------- header['...'] to an identifier

  /** A match of `(?i)header\s*\[\s*[']([^']+)[']\s*\]` at the start: the key and what follows the match. */
  function HeaderMatch(s: string): (r: Option<(string, string)>)
    ensures r.Some? ==> |r.value.1| < |s|
  {
    if |s| < 6 || !SameIgnoreCase(s[..6], "header") then None
    else
      TrimStartFacts(s[6..]);
      var a := TrimStart(s[6..]);
      if a == "" || a[0] != '[' then None
      else
        TrimStartFacts(a[1..]);
        var b := TrimStart(a[1..]);
        if b == "" || b[0] != '\'' then None
        else
          var k := IndexOf(b[1..], '\'');
          if k == 0 || k == |b[1..]| then None
          else
            TrimStartFacts(b[1..][k + 1..]);
            var c := TrimStart(b[1..][k + 1..]);
            if c == "" || c[0] != ']' then None else Some((b[1..][..k], c[1..]))
  }

  function ReplaceHeaders(s: string): string
    decreases |s|
  {
    if s == "" then ""
    else
      match HeaderMatch(s)
      case Some((key, rest)) => "header__" + ReplaceChar(key, '-', '_') + ReplaceHeaders(rest)
      case None => [s[0]] + ReplaceHeaders(s[1..])
  }

  // ---------------------------------------------------------------- whole words

  /** Case-insensitive matching of the regex library: Unicode simple folding also sends the long s to S. */
  predicate RegexEq(c: char, k: char) {
    EqIgnoreCase(c, k) || (k == 'S' && c == '\U{17F}')
  }

  /** The keyword starts the text and a word boundary follows it. */
  predicate WordHere(u: Unicode, s: string, kw: string) {
    && |kw| <= |s|
    && (forall i | 0 <= i < |kw| :: RegexEq(s[i], kw[i]))
    && (|s| == |kw| || !u.word(s[|kw|]))
  }

  /** `\bKW\b` replaced everywhere; `inWord` tells whether a word character precedes the text. */
  function ReplaceWord(u: Unicode, inWord: bool, s: string, kw: string, replacement: string): string
    requires kw != ""
    decreases |s|
  {
    if s == "" then ""
    else if !inWord && WordHere(u, s, kw) then replacement + ReplaceWord(u, true, s[|kw|..], kw, replacement)
    else [s[0]] + ReplaceWord(u, u.word(s[0]), s[1..], kw, replacement)
  }

  const CONTAINS_WORD: string := "CONTAINS"
  const MATCHES_WORD: string := "MATCHES"

  /** What the two word rewrites make of a text. */
  function RewriteWords(u: Unicode, s: string): string {
    ReplaceWord(u, false, ReplaceWord(u, false, s, CONTAINS_WORD, "LIKE"), MATCHES_WORD, "~")
  }

  /** `preprocess_nsql_where`. */
  function Preprocess(u: Unicode, s: string): string { RewriteWords(u, ReplaceHeaders(s)) }

  // ---------------------------------------------------------------- which texts survive

  /** A whole-word occurrence of the keyword. */
  ghost predicate HasWord(u: Unicode, s: string, kw: string) {
    exists i :: 0 <= i < |s| && (i == 0 || !u.word(s[i - 1])) && WordHere(u, s[i..], kw)
  }

  /** As `HasWord`, when `inWord` tells about the character before. */
  ghost predicate HasWordFrom(u: Unicode, inWord: bool, s: string, kw: string) {
    exists i :: 0 <= i < |s| && (if i == 0 then !inWord else !u.word(s[i - 1])) && WordHere(u, s[i..], kw)
  }

  lemma HasWordTail(u: Unicode, inWord: bool, s: string, kw: string)
    requires s != ""
    ensures HasWordFrom(u, inWord, s, kw) <==> (!inWord && WordHere(u, s, kw)) || HasWordFrom(u, u.word(s[0]), s[1..], kw)
  {
    hide WordHere;
    assert s[0..] == s;
    if HasWordFrom(u, inWord, s, kw) && !(!inWord && WordHere(u, s, kw)) {
      var i :| 0 <= i < |s| && (if i == 0 then !inWord else !u.word(s[i - 1])) && WordHere(u, s[i..], kw);
      assert i > 0 && s[i..] == s[1..][i - 1..];
    }
    if HasWordFrom(u, u.word(s[0]), s[1..], kw) { HasWordBehind(u, inWord, s, kw); }
  }

  lemma HasWordBehind(u: Unicode, inWord: bool, s: string, kw: string)
    requires s != "" && HasWordFrom(u, u.word(s[0]), s[1..], kw)
    ensures HasWordFrom(u, inWord, s, kw)
  {
    hide WordHere;
    var i :| 0 <= i < |s[1..]| && (if i == 0 then !u.word(s[0]) else !u.word(s[1..][i - 1])) && WordHere(u, s[1..][i..], kw);
    assert s[1..][i..] == s[i + 1..];
    assert 0 <= i + 1 < |s| && !u.word(s[i + 1 - 1]);
  }

  /** Replacing by something shorter leaves exactly the texts without the word alone, and shortens the others. */
  lemma {:induction false} ReplaceKeepsIffAbsent(u: Unicode, inWord: bool, s: string, kw: string, replacement: string)
    requires kw != "" && |replacement| < |kw|
    ensures |ReplaceWord(u, inWord, s, kw, replacement)| <= |s|
    ensures if HasWordFrom(u, inWord, s, kw) then |ReplaceWord(u, inWord, s, kw, replacement)| < |s|
            else ReplaceWord(u, inWord, s, kw, replacement) == s
    decreases |s|
  {
    if s == "" {
    } else {
      hide HasWordFrom, ReplaceWord;
      HasWordTail(u, inWord, s, kw);
      ReplaceStep(u, inWord, s, kw, replacement);
      if !inWord && WordHere(u, s, kw) {
        ReplaceKeepsIffAbsent(u, true, s[|kw|..], kw, replacement);
      } else {
        hide WordHere;
        ReplaceKeepsIffAbsent(u, u.word(s[0]), s[1..], kw, replacement);
        assert [s[0]] + s[1..] == s;
      }
    }
  }

  /** A text survives the word rewrites exactly when it holds neither word. */
  lemma RewriteKeepsIffAbsent(u: Unicode, s: string)
    ensures RewriteWords(u, s) == s <==> !HasWord(u, s, CONTAINS_WORD) && !HasWord(u, s, MATCHES_WORD)
  {
    var t := ReplaceWord(u, false, s, CONTAINS_WORD, "LIKE");
    ReplaceKeepsIffAbsent(u, false, s, CONTAINS_WORD, "LIKE");
    ReplaceKeepsIffAbsent(u, false, t, MATCHES_WORD, "~");
    assert HasWord(u, s, CONTAINS_WORD) == HasWordFrom(u, false, s, CONTAINS_WORD);
    assert HasWord(u, s, MATCHES_WORD) == HasWordFrom(u, false, s, MATCHES_WORD);
  }

  lemma {:induction false} ReplaceAvoids(u: Unicode, inWord: bool, s: string, kw: string, replacement: string, c: char)
    requires kw != "" && c !in s && c !in replacement
    ensures c !in ReplaceWord(u, inWord, s, kw, replacement)
    decreases |s|
  {
    if s == "" {
    } else {
      assert s[0] in s && forall x | x in s[1..] :: x in s;
      if !inWord && WordHere(u, s, kw) {
        assert forall x | x in s[|kw|..] :: x in s;
        ReplaceAvoids(u, true, s[|kw|..], kw, replacement, c);
      } else {
        ReplaceAvoids(u, u.word(s[0]), s[1..], kw, replacement, c);
      }
    }
  }

  // ---------------------------------------------------------------- rewriting piece by piece

  /** Whether the last character of `s`, or else the one before it, is a word character. */
  predicate EndsInWord(u: Unicode, inWord: bool, s: string) {
    if s == "" then inWord else u.word(s[|s| - 1])
  }

  /** No word runs across the cut between the two texts. */
  predicate CutBetweenWords(u: Unicode, a: string, b: string) {
    a == "" || b == "" || !u.word(a[|a| - 1]) || !u.word(b[0])
  }

  lemma WordHereConcat(u: Unicode, a: string, b: string, kw: string)
    requires a != "" && kw != "" && CutBetweenWords(u, a, b) && WordChars(u, kw)
    ensures WordHere(u, a + b, kw) == WordHere(u, a, kw)
    ensures WordHere(u, a, kw) ==> a[|kw|..] + b == (a + b)[|kw|..]
  {
    var s := a + b;
    if b != "" { assert s[|a| - 1] == a[|a| - 1] && s[|a|] == b[0]; }
    if |kw| <= |a| {
      assert forall i | 0 <= i < |kw| :: s[i] == a[i];
    }
  }

  /** Every character the keyword can match is a word character. */
  ghost predicate WordChars(u: Unicode, kw: string) {
    forall c, i | 0 <= i < |kw| && RegexEq(c, kw[i]) :: u.word(c)
  }

  lemma {:induction false} ReplaceConcat(u: Unicode, inWord: bool, a: string, b: string, kw: string, replacement: string)
    requires kw != "" && CutBetweenWords(u, a, b) && WordChars(u, kw)
    ensures ReplaceWord(u, inWord, a + b, kw, replacement) ==
            ReplaceWord(u, inWord, a, kw, replacement) + ReplaceWord(u, EndsInWord(u, inWord, a), b, kw, replacement)
    decreases |a|
  {
    if a == "" {
      assert a + b == b;
      assert ReplaceWord(u, inWord, a, kw, replacement) == "";
    } else {
      WordHereConcat(u, a, b, kw);
      CutSuffixes(u, inWord, a, b, kw);
      hide ReplaceWord, WordHere, EndsInWord, WordChars, CutBetweenWords;
      ReplaceStep(u, inWord, a + b, kw, replacement);
      ReplaceStep(u, inWord, a, kw, replacement);
      var behind := ReplaceWord(u, EndsInWord(u, inWord, a), b, kw, replacement);
      if !inWord && WordHere(u, a, kw) {
        ReplaceConcat(u, true, a[|kw|..], b, kw, replacement);
        ConcatAssociates(replacement, ReplaceWord(u, true, a[|kw|..], kw, replacement), behind);
      } else {
        TailOfConcat(a, b);
        ReplaceConcat(u, u.word(a[0]), a[1..], b, kw, replacement);
        ConcatAssociates([a[0]], ReplaceWord(u, u.word(a[0]), a[1..], kw, replacement), behind);
      }
    }
  }

  lemma TailOfConcat(a: string, b: string)
    requires a != ""
    ensures (a + b)[0] == a[0] && (a + b)[1..] == a[1..] + b
  {
  }

  /** What is left of a text behind its first character, or behind a keyword at its start, is cut between
      words as the text is, and ends as it does. */
  lemma CutSuffixes(u: Unicode, inWord: bool, a: string, b: string, kw: string)
    requires kw != "" && a != "" && CutBetweenWords(u, a, b) && WordChars(u, kw)
    ensures CutBetweenWords(u, a[1..], b) && EndsInWord(u, u.word(a[0]), a[1..]) == EndsInWord(u, inWord, a)
    ensures WordHere(u, a, kw) ==>
              |kw| <= |a| && CutBetweenWords(u, a[|kw|..], b) && EndsInWord(u, true, a[|kw|..]) == EndsInWord(u, inWord, a)
  {
    if WordHere(u, a, kw) { WordEnds(u, inWord, a, kw); }
  }

  lemma ConcatAssociates(a: string, b: string, c: string)
    ensures a + (b + c) == a + b + c
  {
  }

  lemma ReplaceStep(u: Unicode, inWord: bool, s: string, kw: string, replacement: string)
    requires kw != "" && s != ""
    ensures ReplaceWord(u, inWord, s, kw, replacement) ==
            if !inWord && WordHere(u, s, kw) then replacement + ReplaceWord(u, true, s[|kw|..], kw, replacement)
            else [s[0]] + ReplaceWord(u, u.word(s[0]), s[1..], kw, replacement)
  {
  }

  lemma WordEnds(u: Unicode, inWord: bool, a: string, kw: string)
    requires kw != "" && WordHere(u, a, kw) && WordChars(u, kw)
    ensures EndsInWord(u, true, a[|kw|..]) == EndsInWord(u, inWord, a)
  {
    assert RegexEq(a[|kw| - 1], kw[|kw| - 1]);
  }

  /** A run of word characters is rewritten only when it is the word itself. */
  lemma {:induction false} ReplaceInRun(u: Unicode, inWord: bool, s: string, kw: string, replacement: string)
    requires kw != "" && (forall i | 0 <= i < |s| :: u.word(s[i]))
    ensures ReplaceWord(u, inWord, s, kw, replacement) ==
            if !inWord && |s| == |kw| && (forall i | 0 <= i < |kw| :: RegexEq(s[i], kw[i])) then replacement else s
    decreases |s|
  {
    if s == "" {
    } else {
      if !inWord && WordHere(u, s, kw) {
        assert s[|kw|..] == "";
      } else {
        ReplaceInRun(u, true, s[1..], kw, replacement);
        assert [s[0]] + s[1..] == s;
      }
    }
  }
}
