/** No text that went through the word rewrites holds CONTAINS or MATCHES as a word, and neither do the literals
    and names that are lexed from it. */
module NsqlWordFree {
  import opened Text
  import opened NsqlPreprocess
  import opened SqlSubset
  import opened NsqlPieces
  import NsqlReading

  // ---------------------------------------------------------------- the rewrites leave no word

  /** The keyword's matches consist of word characters. */
  ghost predicate Wordy(u: Unicode, kw: string) { kw != "" && WordChars(u, kw) }

  lemma WordHereChars(u: Unicode, s: string, kw: string, i: nat)
    requires WordHere(u, s, kw) && WordChars(u, kw) && i < |kw|
    ensures |kw| <= |s| && u.word(s[i])
  {
    assert RegexEq(s[i], kw[i]);
  }

  /** Where the rewrite first bites, a word begins. */
  lemma {:induction false} BiteStartsWord(u: Unicode, inWord: bool, s: string, kw: string, replacement: string) returns (i: nat)
    requires kw != "" && replacement != ""
    ensures var r := ReplaceWord(u, inWord, s, kw, replacement);
            r == s || (i < |r| && i < |s| && r[..i] == s[..i] && r[i] == replacement[0] && (if i == 0 then !inWord else !u.word(s[i - 1])))
    decreases |s|
  {
    i := 0;
    if s == "" {
    } else {
      var start := WordHere(u, s, kw);
      hide WordHere, ReplaceWord;
      ReplaceStep(u, inWord, s, kw, replacement);
      if !inWord && start {
        assert ReplaceWord(u, inWord, s, kw, replacement)[0] == replacement[0];
      } else {
        var j := BiteStartsWord(u, u.word(s[0]), s[1..], kw, replacement);
        var tail := ReplaceWord(u, u.word(s[0]), s[1..], kw, replacement);
        assert [s[0]] + s[1..] == s;
        if tail != s[1..] {
          i := j + 1;
          assert ([s[0]] + tail)[..i] == [s[0]] + tail[..j] && s[..i] == [s[0]] + s[1..][..j];
        }
      }
    }
  }

  /** A word that stands at the start of the rewritten text stood there before. */
  lemma WordWasThere(u: Unicode, inWord: bool, s: string, kw: string, replacement: string, other: string)
    requires kw != "" && replacement != "" && Wordy(u, other) && s != "" && !(!inWord && WordHere(u, s, kw))
    requires WordHere(u, ReplaceWord(u, inWord, s, kw, replacement), other)
    ensures WordHere(u, s, other)
  {
    var r := ReplaceWord(u, inWord, s, kw, replacement);
    var tail := ReplaceWord(u, u.word(s[0]), s[1..], kw, replacement);
    assert r == [s[0]] + tail;
    hide ReplaceWord, WordChars;
    var j := BiteStartsWord(u, u.word(s[0]), s[1..], kw, replacement);
    hide WordHere;
    assert s == [s[0]] + s[1..];
    if tail == s[1..] {
      assert r == s;
    } else {
      SharedHead(s[0], tail, s[1..], j);
      SameStart(u, r, s, j, other);
    }
  }

  lemma SharedHead(c: char, a: string, b: string, j: nat)
    requires j < |a| && j < |b| && a[..j] == b[..j]
    ensures var x, y := [c] + a, [c] + b; x[..j + 1] == y[..j + 1] && x[j] == y[j] && y[j] == if j == 0 then c else b[j - 1]
  {
    assert ([c] + a)[..j + 1] == [c] + a[..j];
    assert ([c] + b)[..j + 1] == [c] + b[..j];
    assert j > 0 ==> a[j - 1] == a[..j][j - 1] && b[j - 1] == b[..j][j - 1];
  }

  /** Two texts that agree up to a character that is in no word start with the same words. */
  lemma SameStart(u: Unicode, r: string, s: string, j: nat, word: string)
    requires j < |r| && j < |s| && r[..j + 1] == s[..j + 1] && !u.word(r[j]) && WordChars(u, word) && WordHere(u, r, word)
    ensures WordHere(u, s, word)
  {
    forall i | 0 <= i < |word|
      ensures u.word(r[i])
    {
      WordHereChars(u, r, word, i);
    }
    assert j >= |word|;
    assert forall k | 0 <= k <= |word| :: r[k] == r[..j + 1][k] && s[k] == s[..j + 1][k];
  }

  /** After its own rewrite the keyword stands nowhere as a word. */
  lemma {:induction false} RewriteLeavesNone(u: Unicode, inWord: bool, s: string, kw: string, tok: Token)
    requires u.Valid() && NsqlReading.IsRewrite(kw, tok)
    ensures !HasWordFrom(u, inWord, ReplaceWord(u, inWord, s, kw, PieceText(Tok(tok))), kw)
    decreases |s|
  {
    var t := PieceText(Tok(tok));
    var r := ReplaceWord(u, inWord, s, kw, t);
    if s == "" {
    } else {
      NsqlReading.RewriteIsWordy(u, kw, tok);
      if !inWord && WordHere(u, s, kw) {
        var rest := s[|kw|..];
        var tail := ReplaceWord(u, true, rest, kw, t);
        RewriteLeavesNone(u, true, rest, kw, tok);
        assert r == t + tail;
        hide ReplaceWord, WordChars;
        RestStartsNoWord(u, s, kw, t);
        NoneInReplacement(u, inWord, kw, tok, tail);
      } else {
        var tail := ReplaceWord(u, u.word(s[0]), s[1..], kw, t);
        RewriteLeavesNone(u, u.word(s[0]), s[1..], kw, tok);
        assert r == [s[0]] + tail;
        if !inWord && WordHere(u, r, kw) { WordWasThere(u, inWord, s, kw, t, kw); }
        hide ReplaceWord, WordChars, WordHere;
        assert r[1..] == tail;
        HasWordTail(u, inWord, r, kw);
      }
    }
  }

  lemma RestStartsNoWord(u: Unicode, s: string, kw: string, replacement: string)
    requires kw != "" && WordHere(u, s, kw)
    ensures |kw| <= |s|
    ensures var rest := s[|kw|..];
            var tail := ReplaceWord(u, true, rest, kw, replacement);
            tail == "" || !u.word(tail[0])
  {
    var rest := s[|kw|..];
    if rest != "" {
      assert rest[0] == s[|kw|];
      ReplaceStep(u, true, rest, kw, replacement);
    }
  }

  lemma NoneInReplacement(u: Unicode, inWord: bool, kw: string, tok: Token, tail: string)
    requires u.Valid() && NsqlReading.IsRewrite(kw, tok) && !HasWordFrom(u, true, tail, kw) && (tail == "" || !u.word(tail[0]))
    ensures !HasWordFrom(u, inWord, PieceText(Tok(tok)) + tail, kw)
  {
    NsqlReading.RewriteIsWordy(u, kw, tok);
    NoWordAtNonWord(u, tail, kw);
    if kw == CONTAINS_WORD {
      NoneInLike(u, inWord, tail);
    } else {
      assert ("~" + tail)[1..] == tail;
      HasWordTail(u, inWord, "~" + tail, kw);
      assert !RegexEq('~', MATCHES_WORD[0]);
    }
  }

  lemma NoneInLike(u: Unicode, inWord: bool, tail: string)
    requires u.Valid() && !HasWordFrom(u, true, tail, CONTAINS_WORD)
    ensures !HasWordFrom(u, inWord, "LIKE" + tail, CONTAINS_WORD)
  {
    hide HasWordFrom, WordHere;
    InsideWord(u, 'E', tail);
    InsideWord(u, 'K', "E" + tail);
    assert ['K'] + ("E" + tail) == "KE" + tail;
    InsideWord(u, 'I', "KE" + tail);
    assert ['I'] + ("KE" + tail) == "IKE" + tail;
    var r := "LIKE" + tail;
    assert r[0] == 'L' && r[1..] == "IKE" + tail;
    HasWordTail(u, inWord, r, CONTAINS_WORD);
    NotTheFirst(u, r);
  }

  lemma NotTheFirst(u: Unicode, s: string)
    requires s != "" && s[0] == 'L'
    ensures !WordHere(u, s, CONTAINS_WORD)
  {
    assert !RegexEq('L', CONTAINS_WORD[0]);
  }

  lemma InsideWord(u: Unicode, c: char, tail: string)
    requires u.Valid() && IsAsciiUpper(c) && !HasWordFrom(u, true, tail, CONTAINS_WORD)
    ensures !HasWordFrom(u, true, [c] + tail, CONTAINS_WORD)
  {
    hide HasWordFrom, WordHere;
    assert ([c] + tail)[1..] == tail && ([c] + tail)[0] == c;
    HasWordTail(u, true, [c] + tail, CONTAINS_WORD);
  }

  lemma NoWordAtNonWord(u: Unicode, s: string, kw: string)
    requires kw != "" && WordChars(u, kw) && (s == "" || !u.word(s[0]))
    ensures HasWordFrom(u, false, s, kw) == HasWordFrom(u, true, s, kw)
  {
    if s != "" {
      HasWordTail(u, false, s, kw);
      HasWordTail(u, true, s, kw);
      if WordHere(u, s, kw) { WordHereChars(u, s, kw, 0); }
    }
  }

  /** The second rewrite brings back no word of the first. */
  lemma {:induction false} MatchesRewriteAddsNone(u: Unicode, inWord: bool, s: string)
    requires u.Valid() && !HasWordFrom(u, inWord, s, CONTAINS_WORD)
    ensures !HasWordFrom(u, inWord, ReplaceWord(u, inWord, s, MATCHES_WORD, "~"), CONTAINS_WORD)
    decreases |s|
  {
    var r := ReplaceWord(u, inWord, s, MATCHES_WORD, "~");
    if s == "" {
    } else {
      NsqlReading.RewriteIsWordy(u, CONTAINS_WORD, Word("LIKE"));
      NsqlReading.RewriteIsWordy(u, MATCHES_WORD, Sym(Tilde));
      if !inWord && WordHere(u, s, MATCHES_WORD) {
        var rest := s[|MATCHES_WORD|..];
        var tail := ReplaceWord(u, true, rest, MATCHES_WORD, "~");
        assert r == "~" + tail && r[1..] == tail;
        hide ReplaceWord, WordChars;
        WordSkipped(u, inWord, s, CONTAINS_WORD, MATCHES_WORD);
        MatchesRewriteAddsNone(u, true, rest);
        RestStartsNoWord(u, s, MATCHES_WORD, "~");
        NoWordAtNonWord(u, tail, CONTAINS_WORD);
        HasWordTail(u, inWord, r, CONTAINS_WORD);
        assert !RegexEq('~', CONTAINS_WORD[0]) && !u.word('~');
      } else {
        var tail := ReplaceWord(u, u.word(s[0]), s[1..], MATCHES_WORD, "~");
        HasWordTail(u, inWord, s, CONTAINS_WORD);
        MatchesRewriteAddsNone(u, u.word(s[0]), s[1..]);
        assert r == [s[0]] + tail && r[1..] == tail;
        if !inWord && WordHere(u, r, CONTAINS_WORD) { WordWasThere(u, inWord, s, MATCHES_WORD, "~", CONTAINS_WORD); }
        hide ReplaceWord, WordChars, WordHere;
        HasWordTail(u, inWord, r, CONTAINS_WORD);
      }
    }
  }

  /** What stands behind a word at the start of the text, seen from inside that word. */
  lemma WordSkipped(u: Unicode, inWord: bool, s: string, kw: string, word: string)
    requires word != "" && kw != "" && WordHere(u, s, word) && WordChars(u, word) && !HasWordFrom(u, inWord, s, kw)
    ensures |word| <= |s| && !HasWordFrom(u, true, s[|word|..], kw)
  {
    WordHereChars(u, s, word, |word| - 1);
    var rest := s[|word|..];
    forall i | 0 < i < |rest| && !u.word(rest[i - 1])
      ensures !WordHere(u, rest[i..], kw)
    {
      assert rest[i..] == s[|word| + i..] && rest[i - 1] == s[|word| + i - 1];
    }
  }

  /** Neither word stands in the text, given whether a word character precedes it. */
  ghost predicate CleanFrom(u: Unicode, inWord: bool, s: string) {
    !HasWordFrom(u, inWord, s, CONTAINS_WORD) && !HasWordFrom(u, inWord, s, MATCHES_WORD)
  }

  lemma RewrittenIsClean(u: Unicode, s: string)
    requires u.Valid()
    ensures CleanFrom(u, false, RewriteWords(u, s))
  {
    hide ReplaceWord, HasWordFrom;
    RewriteLeavesNone(u, false, s, CONTAINS_WORD, Word("LIKE"));
    assert PieceText(Tok(Word("LIKE"))) == "LIKE" && PieceText(Tok(Sym(Tilde))) == "~";
    MatchesRewriteAddsNone(u, false, ReplaceWord(u, false, s, CONTAINS_WORD, "LIKE"));
    RewriteLeavesNone(u, false, ReplaceWord(u, false, s, CONTAINS_WORD, "LIKE"), MATCHES_WORD, Sym(Tilde));
  }

  // ---------------------------------------------------------------- lexing clean text

  lemma CleanTail(u: Unicode, inWord: bool, s: string)
    requires s != "" && CleanFrom(u, inWord, s)
    ensures CleanFrom(u, u.word(s[0]), s[1..])
  {
    hide WordHere, HasWordFrom;
    HasWordTail(u, inWord, s, CONTAINS_WORD);
    HasWordTail(u, inWord, s, MATCHES_WORD);
  }

  lemma {:induction false} CleanDrop(u: Unicode, inWord: bool, s: string, n: nat)
    requires 0 < n <= |s| && CleanFrom(u, inWord, s)
    ensures CleanFrom(u, u.word(s[n - 1]), s[n..])
    decreases n
  {
    hide CleanFrom;
    CleanTail(u, inWord, s);
    if n == 1 {
    } else {
      CleanDrop(u, u.word(s[0]), s[1..], n - 1);
      assert s[1..][n - 1..] == s[n..] && s[1..][n - 2] == s[n - 1];
    }
  }

  /** Up to its first quote the value is the text, and a quote follows it there. */
  lemma {:induction false} LexedValuePrefix(quote: char, s: string, k: nat)
    requires LexQuoted(quote, s).Some?
    requires k <= |LexQuoted(quote, s).value.0| && quote !in LexQuoted(quote, s).value.0[..k]
    ensures k < |s| && s[..k] == LexQuoted(quote, s).value.0[..k]
    ensures s[k] == if k < |LexQuoted(quote, s).value.0| then LexQuoted(quote, s).value.0[k] else quote
    decreases k
  {
    var v := LexQuoted(quote, s).value.0;
    if k == 0 {
    } else {
      assert v[..k][0] == v[0] && v[0] in v[..k];
      assert s[0] != quote && v == [s[0]] + LexQuoted(quote, s[1..]).value.0;
      var w := LexQuoted(quote, s[1..]).value.0;
      assert w[..k - 1] == v[..k][1..];
      assert forall c | c in w[..k - 1] :: c in v[..k];
      LexedValuePrefix(quote, s[1..], k - 1);
      assert s[..k] == [s[0]] + s[1..][..k - 1];
    }
  }

  lemma WordInValue(u: Unicode, quote: char, s: string, kw: string)
    requires !u.word(quote) && kw != "" && WordChars(u, kw) && LexQuoted(quote, s).Some? && WordHere(u, LexQuoted(quote, s).value.0, kw)
    ensures WordHere(u, s, kw)
  {
    var v := LexQuoted(quote, s).value.0;
    forall c | c in v[..|kw|]
      ensures c != quote
    {
      var i :| 0 <= i < |v[..|kw|]| && v[..|kw|][i] == c;
      WordHereChars(u, v, kw, i);
    }
    LexedValuePrefix(quote, s, |kw|);
    assert forall i | 0 <= i < |kw| :: s[i] == s[..|kw|][i] && v[i] == v[..|kw|][i];
  }

  lemma {:induction false} StringIsClean(u: Unicode, quote: char, inWord: bool, s: string, kw: string)
    requires !u.word(quote) && kw != "" && WordChars(u, kw) && LexQuoted(quote, s).Some? && !HasWordFrom(u, inWord, s, kw)
    ensures !HasWordFrom(u, inWord, LexQuoted(quote, s).value.0, kw)
    ensures !HasWordFrom(u, false, LexQuoted(quote, s).value.1, kw)
    decreases |s|
  {
    var v, after := LexQuoted(quote, s).value.0, LexQuoted(quote, s).value.1;
    HasWordTail(u, inWord, s, kw);
    if v != "" && WordHere(u, v, kw) { WordInValue(u, quote, s, kw); }
    if s[0] == quote && !(|s| > 1 && s[1] == quote) {
      assert v == "" && after == s[1..];
    } else {
      hide WordHere, WordChars;
      var rest := if s[0] == quote then s[2..] else s[1..];
      if s[0] == quote {
        assert s[1..][1..] == s[2..];
        HasWordTail(u, false, s[1..], kw);
      }
      StringIsClean(u, quote, u.word(s[0]), rest, kw);
      assert v[1..] == LexQuoted(quote, rest).value.0 && v[0] == s[0];
      HasWordTail(u, inWord, v, kw);
    }
  }

  /** The name that is lexed ends where its last word does, or the text does not lex. */
  lemma WordBehindName(u: Unicode, s: string)
    requires u.Valid() && s != "" && !IsIdentPart(u, s[0]) && Lex(u, s).Some?
    ensures !u.word(s[0])
  {
    if !IsAscii(s[0]) { NoSymbolThere(s); }
  }

  lemma NoSymbolThere(s: string)
    requires s != "" && !IsAscii(s[0])
    ensures LexSymbol(s).None?
  {
  }

  lemma {:induction false} IdentSpanEnds(u: Unicode, s: string)
    ensures var n := IdentSpan(u, s); n == |s| || !IsIdentPart(u, s[n])
  {
    if s == "" || !IsIdentPart(u, s[0]) {
    } else {
      IdentSpanEnds(u, s[1..]);
    }
  }

  /** A name in clean text that no word character precedes is clean. */
  lemma NameIsClean(u: Unicode, s: string, n: nat, kw: string)
    requires 0 < n <= |s| && kw != "" && !HasWordFrom(u, false, s, kw) && (n == |s| || !u.word(s[n]))
    ensures !HasWordFrom(u, false, s[..n], kw)
  {
    var w := s[..n];
    forall i | 0 <= i < |w| && (i == 0 || !u.word(w[i - 1]))
      ensures !WordHere(u, w[i..], kw)
    {
      assert i > 0 ==> s[i - 1] == w[i - 1];
      if WordHere(u, w[i..], kw) { HereInPrefix(u, s, n, i, kw); }
    }
  }

  lemma HereInPrefix(u: Unicode, s: string, n: nat, i: nat, kw: string)
    requires i < n <= |s| && (n == |s| || !u.word(s[n])) && WordHere(u, s[..n][i..], kw)
    ensures WordHere(u, s[i..], kw)
  {
    var w := s[..n];
    assert forall k | 0 <= k < |w[i..]| :: w[i..][k] == s[i..][k];
    if |w[i..]| == |kw| && n < |s| { assert s[i..][|kw|] == s[n]; }
  }

  /** Literals and delimited names are clean, and so are names that no number stands before; `first` tells whether that is known of
      the first token. */
  ghost predicate GoodTokens(u: Unicode, ts: seq<Token>, first: bool) {
    forall i {:trigger ts[i]} | 0 <= i < |ts| ::
      && (ts[i].Str? ==> CleanFrom(u, false, ts[i].value))
      && (ts[i].Delimited? ==> CleanFrom(u, false, ts[i].name))
      && (ts[i].Word? && (if i == 0 then first else !ts[i - 1].Number?) ==> CleanFrom(u, false, ts[i].text))
  }

  lemma GoodBefore(u: Unicode, t: Token, ts: seq<Token>, first: bool)
    requires GoodTokens(u, ts, !t.Number?) || (t.Number? && GoodTokens(u, ts, false))
    requires t.Str? ==> CleanFrom(u, false, t.value)
    requires t.Delimited? ==> CleanFrom(u, false, t.name)
    requires t.Word? && first ==> CleanFrom(u, false, t.text)
    ensures GoodTokens(u, [t] + ts, first)
  {
    hide CleanFrom;
    var all := [t] + ts;
    assert forall i | 0 < i < |all| :: all[i] == ts[i - 1];
  }

  /** A name may start here and go on from a word character before. */
  predicate MayContinue(u: Unicode, inWord: bool, s: string) { inWord && s != "" && IsIdentStart(u, s[0]) }

  lemma LexName(u: Unicode, inWord: bool, s: string)
    requires u.Valid() && s != "" && !IsWhitespace(s[0]) && IsIdentStart(u, s[0]) && Lex(u, s).Some? && CleanFrom(u, inWord, s)
    ensures var n := 1 + IdentSpan(u, s[1..]);
            && Lex(u, s[n..]).Some? && Lex(u, s).value == [Word(s[..n])] + Lex(u, s[n..]).value
            && (!inWord ==> CleanFrom(u, false, s[..n]))
            && CleanFrom(u, u.word(s[n - 1]), s[n..])
            && !MayContinue(u, u.word(s[n - 1]), s[n..])
  {
    var n := 1 + IdentSpan(u, s[1..]);
    IdentSpanEnds(u, s[1..]);
    assert n < |s| ==> s[n] == s[1..][n - 1];
    assert Lex(u, s) == Before(Word(s[..n]), Lex(u, s[n..]));
    if n < |s| { WordBehindName(u, s[n..]); }
    hide HasWordFrom;
    CleanDrop(u, inWord, s, n);
    if !inWord {
      NameIsClean(u, s, n, CONTAINS_WORD);
      NameIsClean(u, s, n, MATCHES_WORD);
    }
  }

  lemma WordyKeywords(u: Unicode)
    requires u.Valid()
    ensures WordChars(u, CONTAINS_WORD) && WordChars(u, MATCHES_WORD)
  {
    NsqlReading.RewriteIsWordy(u, CONTAINS_WORD, Word("LIKE"));
    NsqlReading.RewriteIsWordy(u, MATCHES_WORD, Sym(Tilde));
  }

  lemma LexLiteralClean(u: Unicode, quote: char, inWord: bool, s: string)
    requires u.Valid() && !u.word(quote) && s != "" && s[0] == quote && LexQuoted(quote, s[1..]).Some? && CleanFrom(u, inWord, s)
    ensures CleanFrom(u, false, LexQuoted(quote, s[1..]).value.0) && CleanFrom(u, false, LexQuoted(quote, s[1..]).value.1)
  {
    CleanTail(u, inWord, s);
    WordyKeywords(u);
    hide HasWordFrom, WordChars, LexQuoted;
    StringIsClean(u, quote, false, s[1..], CONTAINS_WORD);
    StringIsClean(u, quote, false, s[1..], MATCHES_WORD);
  }

  lemma QuotesEndWords(u: Unicode)
    requires u.Valid()
    ensures !u.word('\'') && !u.word('"') && !u.word('`') && !u.word('\n') && !u.word('/') && !u.word('-')
  {
  }

  /** Where the line ends, a word does. */
  lemma {:induction false} LineIsClean(u: Unicode, inWord: bool, s: string)
    requires u.Valid() && CleanFrom(u, inWord, s)
    ensures CleanFrom(u, false, AfterLine(s))
    decreases |s|
  {
    hide CleanFrom;
    if s == "" {
      NothingIsClean(u);
    } else {
      CleanTail(u, inWord, s);
      QuotesEndWords(u);
      if s[0] != '\n' { LineIsClean(u, u.word(s[0]), s[1..]); }
    }
  }

  lemma NothingIsClean(u: Unicode)
    ensures CleanFrom(u, false, "")
  {
  }

  lemma {:induction false} BlockIsClean(u: Unicode, inWord: bool, s: string)
    requires u.Valid() && CleanFrom(u, inWord, s) && AfterBlock(s).Some?
    ensures CleanFrom(u, false, AfterBlock(s).value)
    decreases |s|
  {
    hide CleanFrom;
    CleanTail(u, inWord, s);
    QuotesEndWords(u);
    if s[0] == '*' && s[1] == '/' {
      CleanDrop(u, inWord, s, 2);
    } else {
      BlockIsClean(u, u.word(s[0]), s[1..]);
    }
  }

  lemma LexUnfold(u: Unicode, s: string)
    requires s != "" && Lex(u, s).Some?
    ensures IsWhitespace(s[0]) ==> Lex(u, s) == Lex(u, s[1..])
    ensures !IsWhitespace(s[0]) && !IsIdentStart(u, s[0]) && IsDigit(s[0]) ==>
              var n := 1 + DigitSpan(s[1..]); Lex(u, s[n..]).Some? && Lex(u, s).value == [Number(s[..n])] + Lex(u, s[n..]).value
    ensures !IsWhitespace(s[0]) && !IsIdentStart(u, s[0]) && !IsDigit(s[0]) && (s[0] == '\'' || IsDelimiter(s[0])) ==>
              var r := LexQuoted(s[0], s[1..]);
              r.Some? && Lex(u, r.value.1).Some? &&
              Lex(u, s).value == [if s[0] == '\'' then Str(r.value.0) else Delimited(r.value.0)] + Lex(u, r.value.1).value
  {
    hide LexQuoted, LexSymbol, DigitSpan, IdentSpan, AfterLine, AfterBlock;
  }

  lemma LexUnfoldSymbol(u: Unicode, s: string)
    requires s != "" && Lex(u, s).Some? && !IsWhitespace(s[0]) && !IsIdentStart(u, s[0]) && !IsDigit(s[0])
    requires s[0] != '\'' && !IsDelimiter(s[0])
    ensures StartsLineComment(s) ==> Lex(u, s) == Lex(u, AfterLine(s[2..]))
    ensures StartsBlockComment(s) ==> AfterBlock(s[2..]).Some? && Lex(u, s) == Lex(u, AfterBlock(s[2..]).value)
    ensures !StartsLineComment(s) && !StartsBlockComment(s) ==>
              LexSymbol(s).Some? && Lex(u, s[LexSymbol(s).value.1..]).Some? &&
              Lex(u, s).value == [Sym(LexSymbol(s).value.0)] + Lex(u, s[LexSymbol(s).value.1..]).value
  {
    hide LexQuoted, LexSymbol, DigitSpan, IdentSpan, AfterLine, AfterBlock;
  }

  /** The tokens of clean text are good. */
  lemma {:induction false} LexedIsGood(u: Unicode, inWord: bool, s: string)
    requires u.Valid() && CleanFrom(u, inWord, s) && Lex(u, s).Some?
    ensures GoodTokens(u, Lex(u, s).value, !MayContinue(u, inWord, s))
    decreases |s|, 1
  {
    if s == "" {
    } else {
      LexUnfold(u, s);
      hide Lex, CleanFrom, GoodTokens, LexQuoted, LexSymbol, IdentSpan, DigitSpan;
      if IsWhitespace(s[0]) {
        CleanTail(u, inWord, s);
        LexedIsGood(u, u.word(s[0]), s[1..]);
        GoodAnyway(u, Lex(u, s).value, !MayContinue(u, inWord, s));
      } else if IsIdentStart(u, s[0]) {
        LexName(u, inWord, s);
        var n := 1 + IdentSpan(u, s[1..]);
        LexedIsGood(u, u.word(s[n - 1]), s[n..]);
        GoodBefore(u, Word(s[..n]), Lex(u, s[n..]).value, !MayContinue(u, inWord, s));
      } else if IsDigit(s[0]) {
        var n := 1 + DigitSpan(s[1..]);
        CleanDrop(u, inWord, s, n);
        LexedIsGood(u, u.word(s[n - 1]), s[n..]);
        GoodWeaker(u, Lex(u, s[n..]).value, !MayContinue(u, u.word(s[n - 1]), s[n..]));
        GoodBefore(u, Number(s[..n]), Lex(u, s[n..]).value, !MayContinue(u, inWord, s));
      } else if s[0] == '\'' || IsDelimiter(s[0]) {
        QuotesEndWords(u);
        LexLiteralClean(u, s[0], inWord, s);
        var (value, after) := LexQuoted(s[0], s[1..]).value;
        LexedIsGood(u, false, after);
        GoodBefore(u, if s[0] == '\'' then Str(value) else Delimited(value), Lex(u, after).value, !MayContinue(u, inWord, s));
      } else {
        SymbolsAreGood(u, inWord, s);
      }
    }
  }

  lemma {:induction false} SymbolsAreGood(u: Unicode, inWord: bool, s: string)
    requires u.Valid() && CleanFrom(u, inWord, s) && Lex(u, s).Some? && s != ""
    requires !IsWhitespace(s[0]) && !IsIdentStart(u, s[0]) && !IsDigit(s[0]) && s[0] != '\'' && !IsDelimiter(s[0])
    ensures GoodTokens(u, Lex(u, s).value, !MayContinue(u, inWord, s))
    decreases |s|, 0
  {
    LexUnfoldSymbol(u, s);
    hide Lex, CleanFrom, GoodTokens, LexSymbol, AfterLine, AfterBlock;
    if StartsLineComment(s) || StartsBlockComment(s) {
      CleanDrop(u, inWord, s, 2);
      if StartsLineComment(s) { LineIsClean(u, u.word(s[1]), s[2..]); } else { BlockIsClean(u, u.word(s[1]), s[2..]); }
      LexedIsGood(u, false, if StartsLineComment(s) then AfterLine(s[2..]) else AfterBlock(s[2..]).value);
      GoodAnyway(u, Lex(u, s).value, !MayContinue(u, inWord, s));
    } else {
      var (symbol, n) := LexSymbol(s).value;
      SymbolEndsWord(u, s);
      CleanDrop(u, inWord, s, n);
      LexedIsGood(u, false, s[n..]);
      GoodBefore(u, Sym(symbol), Lex(u, s[n..]).value, !MayContinue(u, inWord, s));
    }
  }

  lemma SymbolEndsWord(u: Unicode, s: string)
    requires u.Valid() && s != "" && LexSymbol(s).Some?
    ensures !u.word(s[LexSymbol(s).value.1 - 1])
  {
  }

  lemma GoodAnyway(u: Unicode, ts: seq<Token>, first: bool)
    requires GoodTokens(u, ts, true)
    ensures GoodTokens(u, ts, first)
  {
    hide CleanFrom;
  }

  lemma GoodWeaker(u: Unicode, ts: seq<Token>, first: bool)
    requires GoodTokens(u, ts, first)
    ensures GoodTokens(u, ts, false)
  {
    hide CleanFrom;
  }
}
