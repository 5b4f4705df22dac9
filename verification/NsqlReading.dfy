/** How the word rewrites and the lexer read well-spaced pieces. */
module NsqlReading {
  import opened Wrappers
  import opened Text
  import Decimal
  import opened NsqlPreprocess
  import opened SqlSubset
  import opened NsqlPieces

  // ---------------------------------------------------------------- the word rewrites

  /** A keyword the rewrites look for and what each puts in its place. */
  predicate IsRewrite(kw: string, tok: Token) {
    (kw == CONTAINS_WORD && tok == Word("LIKE")) || (kw == MATCHES_WORD && tok == Sym(Tilde))
  }

  function RewritePiece(u: Unicode, p: Piece, kw: string, tok: Token): Piece
    requires kw != ""
  {
    match p
    case Tok(Word(w)) => if w == kw then Tok(tok) else p
    case Tok(Str(s)) => Tok(Str(ReplaceWord(u, false, s, kw, PieceText(Tok(tok)))))
    case _ => p
  }

  function RewritePieces(u: Unicode, ps: seq<Piece>, kw: string, tok: Token): (r: seq<Piece>)
    requires kw != ""
    ensures |r| == |ps|
  {
    if ps == [] then [] else [RewritePiece(u, ps[0], kw, tok)] + RewritePieces(u, ps[1..], kw, tok)
  }

  lemma RewriteIsWordy(u: Unicode, kw: string, tok: Token)
    requires u.Valid() && IsRewrite(kw, tok)
    ensures WordChars(u, kw)
  {
    assert forall i | 0 <= i < |CONTAINS_WORD| :: IsAsciiUpper(CONTAINS_WORD[i]);
    assert forall i | 0 <= i < |MATCHES_WORD| :: IsAsciiUpper(MATCHES_WORD[i]);
    forall c, i | 0 <= i < |kw| && RegexEq(c, kw[i])
      ensures u.word(c)
    {
      if c != '\U{17F}' {
        assert IsAscii(c) && IsAsciiLetter(c);
      }
    }
  }

  /** Among the printed words only the keyword itself matches. */
  lemma OnlyKeywordMatches(w: string, kw: string, tok: Token)
    requires w in VOCABULARY && IsRewrite(kw, tok)
    ensures |w| == |kw| && (forall i | 0 <= i < |kw| :: RegexEq(w[i], kw[i])) <==> w == kw
  {
    if |w| == |kw| && w != kw {
      if w == "account" || w == "subject" {
        assert !RegexEq(w[0], MATCHES_WORD[0]);
      }
    }
  }

  lemma {:induction false} NoMatchUnchanged(u: Unicode, inWord: bool, s: string, kw: string, replacement: string)
    requires kw != "" && forall i | 0 <= i < |s| :: !RegexEq(s[i], kw[0])
    ensures ReplaceWord(u, inWord, s, kw, replacement) == s
    decreases |s|
  {
    if s == "" {
    } else {
      NoMatchUnchanged(u, u.word(s[0]), s[1..], kw, replacement);
      assert [s[0]] + s[1..] == s;
    }
  }

  lemma RewriteLiteral(u: Unicode, s: string, kw: string, tok: Token)
    requires u.Valid() && IsRewrite(kw, tok)
    ensures ReplaceWord(u, false, "'" + s + "'", kw, PieceText(Tok(tok))) ==
            "'" + ReplaceWord(u, false, s, kw, PieceText(Tok(tok))) + "'"
    ensures ReplaceWord(u, true, "'" + s + "'", kw, PieceText(Tok(tok))) ==
            "'" + ReplaceWord(u, false, s, kw, PieceText(Tok(tok))) + "'"
  {
    hide ReplaceWord, WordChars;
    var t := PieceText(Tok(tok));
    RewriteIsWordy(u, kw, tok);
    assert !u.word('\'') && !RegexEq('\'', kw[0]);
    assert "'" + s + "'" == "'" + (s + "'");
    ReplaceConcat(u, false, "'", s + "'", kw, t);
    ReplaceConcat(u, true, "'", s + "'", kw, t);
    ReplaceConcat(u, false, s, "'", kw, t);
    NoMatchUnchanged(u, false, "'", kw, t);
    NoMatchUnchanged(u, true, "'", kw, t);
    NoMatchUnchanged(u, EndsInWord(u, false, s), "'", kw, t);
    ConcatAssociates("'", ReplaceWord(u, false, s, kw, t), "'");
  }

  lemma PieceRewritten(u: Unicode, inWord: bool, p: Piece, kw: string, tok: Token)
    requires u.Valid() && KnownPiece(p) && IsRewrite(kw, tok)
    requires inWord ==> Closes(Some(p))
    ensures ReplaceWord(u, inWord, PieceText(p), kw, PieceText(Tok(tok))) == PieceText(RewritePiece(u, p, kw, tok))
  {
    hide ReplaceWord, VOCABULARY, SymbolText;
    var t := PieceText(Tok(tok));
    match p {
      case Tok(Word(w)) =>
        WordShape(w);
        ReplaceInRun(u, inWord, w, kw, t);
        OnlyKeywordMatches(w, kw, tok);
      case Tok(Number(d)) =>
        assert forall i | 0 <= i < |d| :: IsDigit(d[i]) && !RegexEq(d[i], kw[0]);
        NoMatchUnchanged(u, inWord, d, kw, t);
      case Tok(Str(s)) =>
        RewriteLiteral(u, s, kw, tok);
      case Tok(Sym(s)) =>
        SymbolShape(s);
        NoMatchUnchanged(u, inWord, SymbolText(s), kw, t);
      case Space =>
        NoMatchUnchanged(u, inWord, " ", kw, t);
    }
  }

  /** After a piece that ends in a word character no word goes on. */
  lemma CutBehindPiece(u: Unicode, p: Piece, rest: seq<Piece>)
    requires u.Valid() && KnownPiece(p) && Follows(p, Head(rest)) && WellSpaced(rest)
    ensures CutBetweenWords(u, PieceText(p), Flatten(rest))
    ensures forall inWord :: EndsInWord(u, inWord, PieceText(p)) ==> Closes(Head(rest))
  {
    hide VOCABULARY;
    match p {
      case Tok(Word(w)) => WordShape(w); ClosingText(rest);
      case Tok(Number(d)) => ClosingText(rest);
      case Tok(Str(s)) => assert !u.word('\'');
      case Tok(Sym(s)) => SymbolShape(s);
      case Space => assert !u.word(' ');
    }
    if p.Tok? && (p.token.Word? || p.token.Number?) {
      assert Flatten(rest) == "" || !u.word(Flatten(rest)[0]);
    }
  }

  /** The text behind a piece that closes. */
  lemma ClosingText(rest: seq<Piece>)
    requires Closes(Head(rest))
    ensures Flatten(rest) == "" || Flatten(rest)[0] == ' ' || Flatten(rest)[0] == ')' || Flatten(rest)[0] == ','
  {
  }

  lemma {:induction false} PiecesRewritten(u: Unicode, inWord: bool, ps: seq<Piece>, kw: string, tok: Token)
    requires u.Valid() && WellSpaced(ps) && IsRewrite(kw, tok)
    requires inWord ==> Closes(Head(ps))
    ensures ReplaceWord(u, inWord, Flatten(ps), kw, PieceText(Tok(tok))) == Flatten(RewritePieces(u, ps, kw, tok))
    decreases |ps|
  {
    var t := PieceText(Tok(tok));
    if ps == [] {
      assert ReplaceWord(u, inWord, "", kw, t) == "";
    } else {
      hide ReplaceWord, WordChars, PieceText, RewritePiece, KnownPiece, Follows, EndsInWord, CutBetweenWords;
      RewriteIsWordy(u, kw, tok);
      CutBehindPiece(u, ps[0], ps[1..]);
      PieceRewritten(u, inWord, ps[0], kw, tok);
      ReplaceConcat(u, inWord, PieceText(ps[0]), Flatten(ps[1..]), kw, t);
      PiecesRewritten(u, EndsInWord(u, inWord, PieceText(ps[0])), ps[1..], kw, tok);
      assert RewritePieces(u, ps, kw, tok)[1..] == RewritePieces(u, ps[1..], kw, tok);
    }
  }

  lemma {:induction false} RewrittenWellSpaced(u: Unicode, ps: seq<Piece>, kw: string, tok: Token)
    requires WellSpaced(ps) && IsRewrite(kw, tok)
    ensures WellSpaced(RewritePieces(u, ps, kw, tok))
  {
    if ps == [] {
    } else {
      hide ReplaceWord;
      var r := RewritePieces(u, ps, kw, tok);
      RewrittenWellSpaced(u, ps[1..], kw, tok);
      assert r[1..] == RewritePieces(u, ps[1..], kw, tok);
      if ps[0].Tok? && ps[0].token.Str? {
        ReplaceAvoids(u, false, ps[0].token.value, kw, PieceText(Tok(tok)), '\'');
      }
      assert "LIKE" in VOCABULARY by { assert VOCABULARY[15] == "LIKE"; }
      FollowsRewritten(u, ps[0], Head(ps[1..]), kw, tok);
    }
  }

  lemma FollowsRewritten(u: Unicode, p: Piece, next: Option<Piece>, kw: string, tok: Token)
    requires Follows(p, next) && IsRewrite(kw, tok)
    ensures Follows(RewritePiece(u, p, kw, tok), if next.Some? then Some(RewritePiece(u, next.value, kw, tok)) else None)
  {
    hide ReplaceWord;
  }

  // ---------------------------------------------------------------- the lexer

  /** What the text behind a token must start with for the token to end there. */
  predicate EndsToken(t: Token, rest: string) {
    match t
    case Sym(LParen) => true
    case Sym(RParen) => true
    case Sym(Comma) => true
    case Sym(Minus) => rest != "" && IsDigit(rest[0])
    case Sym(_) => rest != "" && rest[0] == ' '
    case _ => rest == "" || rest[0] == ' ' || rest[0] == ')' || rest[0] == ','
  }

  lemma {:induction false} IdentSpanExact(u: Unicode, w: string, rest: string)
    requires forall i | 0 <= i < |w| :: IsIdentPart(u, w[i])
    requires rest == "" || !IsIdentPart(u, rest[0])
    ensures IdentSpan(u, w + rest) == |w|
  {
    if w == "" {
      assert w + rest == rest;
    } else {
      assert (w + rest)[1..] == w[1..] + rest;
      IdentSpanExact(u, w[1..], rest);
    }
  }

  lemma {:induction false} DigitSpanExact(d: string, rest: string)
    requires Decimal.AllDigits(d) && (rest == "" || !IsDigit(rest[0]))
    ensures DigitSpan(d + rest) == |d|
  {
    if d == "" {
      assert d + rest == rest;
    } else {
      assert (d + rest)[1..] == d[1..] + rest;
      DigitSpanExact(d[1..], rest);
    }
  }

  lemma {:induction false} LexStringExact(s: string, rest: string)
    requires '\'' !in s && (rest == "" || rest[0] != '\'')
    ensures LexQuoted('\'', s + "'" + rest) == Some((s, rest))
  {
    var text := s + "'" + rest;
    if s == "" {
      assert text == "'" + rest && text[1..] == rest;
      assert |text| > 1 ==> text[1] == rest[0];
    } else {
      assert s[0] in s && text[0] == s[0] && [s[0]] + s[1..] == s;
      assert text[1..] == s[1..] + "'" + rest;
      assert forall c | c in s[1..] :: c in s;
      LexStringExact(s[1..], rest);
    }
  }

  lemma LexWord(u: Unicode, w: string, rest: string)
    requires u.Valid() && w in VOCABULARY && EndsToken(Word(w), rest)
    ensures Lex(u, w + rest) == Before(Word(w), Lex(u, rest))
  {
    hide VOCABULARY;
    WordShape(w);
    var s := w + rest;
    assert s[0] == w[0] && s[1..] == w[1..] + rest;
    assert forall i | 0 <= i < |w[1..]| :: w[1..][i] == w[i + 1];
    IdentSpanExact(u, w[1..], rest);
    assert s[..|w|] == w && s[|w|..] == rest;
  }

  lemma LexNumber(u: Unicode, d: string, rest: string)
    requires u.Valid() && d != "" && Decimal.AllDigits(d) && EndsToken(Number(d), rest)
    ensures Lex(u, d + rest) == Before(Number(d), Lex(u, rest))
  {
    var s := d + rest;
    assert IsDigit(d[0]) && s[0] == d[0] && s[1..] == d[1..] + rest;
    DigitSpanExact(d[1..], rest);
    assert s[..|d|] == d && s[|d|..] == rest;
  }

  lemma LexLiteral(u: Unicode, v: string, rest: string)
    requires u.Valid() && '\'' !in v && EndsToken(Str(v), rest)
    ensures Lex(u, "'" + v + "'" + rest) == Before(Str(v), Lex(u, rest))
  {
    var s := "'" + v + "'" + rest;
    assert s == "'" + (v + "'" + rest);
    assert s[0] == '\'' && s[1..] == v + "'" + rest;
    LexStringExact(v, rest);
  }

  lemma SymbolRead(sym: Symbol, rest: string)
    requires EndsToken(Sym(sym), rest)
    ensures LexSymbol(SymbolText(sym) + rest) == Some((sym, |SymbolText(sym)|))
  {
    var s := SymbolText(sym) + rest;
    match sym {
      case NotEqSign => assert "!=" <= s;
      case GtEqSign => assert s[0] == '>' && ">=" <= s;
      case LtEqSign => assert s[0] == '<' && s[1] == '=' && "<=" <= s;
      case LParen => assert s[0] == '(';
      case RParen => assert s[0] == ')';
      case Comma => assert s[0] == ',';
      case _ => assert s[0] == SymbolText(sym)[0] && s[1] == rest[0];
    }
  }

  lemma LexSym(u: Unicode, sym: Symbol, rest: string)
    requires u.Valid() && EndsToken(Sym(sym), rest)
    ensures Lex(u, SymbolText(sym) + rest) == Before(Sym(sym), Lex(u, rest))
  {
    hide LexSymbol;
    var s := SymbolText(sym) + rest;
    SymbolShape(sym);
    SymbolRead(sym, rest);
    assert s[0] == SymbolText(sym)[0] && s[|SymbolText(sym)|..] == rest;
    SymbolIsNoQuote(sym);
    SymbolIsNoComment(s);
  }

  lemma SymbolIsNoComment(s: string)
    requires LexSymbol(s).Some?
    ensures !StartsLineComment(s)
  {
    assert StartsLineComment(s) ==> "--" <= s;
  }

  lemma SymbolIsNoQuote(sym: Symbol)
    ensures var c := SymbolText(sym)[0]; c != '$' && c != '\'' && c != '/' && !IsDelimiter(c)
  {
  }

  lemma LexPiece(u: Unicode, p: Piece, rest: string)
    requires u.Valid() && KnownPiece(p) && (p.Tok? ==> EndsToken(p.token, rest))
    ensures Lex(u, PieceText(p) + rest) == if p.Space? then Lex(u, rest) else Before(p.token, Lex(u, rest))
  {
    hide Lex, EndsToken;
    match p {
      case Space =>
        LexSpace(u, rest);
      case Tok(Word(w)) => LexWord(u, w, rest);
      case Tok(Number(d)) => LexNumber(u, d, rest);
      case Tok(Str(v)) => LexLiteral(u, v, rest);
      case Tok(Sym(sym)) => LexSym(u, sym, rest);
    }
  }

  lemma LexSpace(u: Unicode, rest: string)
    ensures Lex(u, " " + rest) == Lex(u, rest)
  {
    assert (" " + rest)[1..] == rest;
  }

  lemma FollowsEndsToken(t: Token, rest: seq<Piece>)
    requires Follows(Tok(t), Head(rest)) && WellSpaced(rest)
    ensures EndsToken(t, Flatten(rest))
  {
    if Closes(Head(rest)) { ClosingText(rest); }
    if rest != [] && rest[0].Tok? && rest[0].token.Number? {
      assert IsDigit(rest[0].token.digits[0]);
    }
  }

  /** The lexer reads the tokens back and drops the spaces. */
  lemma {:induction false} LexPieces(u: Unicode, ps: seq<Piece>)
    requires u.Valid() && WellSpaced(ps)
    ensures Lex(u, Flatten(ps)) == Some(TokensOf(ps))
  {
    if ps == [] {
      assert Lex(u, "") == Some([]);
    } else {
      hide Lex, PieceText, KnownPiece, Follows, EndsToken;
      LexPieces(u, ps[1..]);
      if ps[0].Tok? { FollowsEndsToken(ps[0].token, ps[1..]); }
      LexPiece(u, ps[0], Flatten(ps[1..]));
      assert [] + TokensOf(ps[1..]) == TokensOf(ps[1..]);
    }
  }

  // ---------------------------------------------------------------- text in front of anything

  /** Well-spaced pieces that end in a space or an opening parenthesis. */
  predicate OpenEnded(ps: seq<Piece>) {
    ps != [] && WellSpaced(ps) && (ps[|ps| - 1] == Space || ps[|ps| - 1] == Tok(Sym(LParen)))
  }

  function AllBefore(ts: seq<Token>, r: Option<seq<Token>>): Option<seq<Token>> {
    match r
    case None => None
    case Some(more) => Some(ts + more)
  }

  lemma BeforeAll(t: Token, ts: seq<Token>, r: Option<seq<Token>>)
    ensures Before(t, AllBefore(ts, r)) == AllBefore([t] + ts, r)
  {
    if r.Some? { assert [t] + (ts + r.value) == [t] + ts + r.value; }
  }

  lemma AllBeforeNothing(r: Option<seq<Token>>)
    ensures AllBefore([], r) == r
  {
    if r.Some? { assert [] + r.value == r.value; }
  }

  lemma EndsTokenOpen(t: Token, a: string, b: string)
    requires a != "" && EndsToken(t, a)
    ensures EndsToken(t, a + b)
  {
  }

  lemma PieceNonEmpty(p: Piece)
    requires KnownPiece(p)
    ensures PieceText(p) != ""
  {
    hide VOCABULARY, SymbolText;
    match p {
      case Tok(Word(w)) => WordShape(w);
      case Tok(Sym(s)) => SymbolShape(s);
      case _ =>
    }
  }

  lemma FlattenNonEmpty(ps: seq<Piece>)
    requires WellSpaced(ps) && ps != []
    ensures Flatten(ps) != ""
  {
    hide KnownPiece, PieceText;
    PieceNonEmpty(ps[0]);
  }

  lemma OpenEndedTail(ps: seq<Piece>)
    requires OpenEnded(ps)
    ensures KnownPiece(ps[0]) && (|ps| == 1 ==> ps[0] == Space || ps[0] == Tok(Sym(LParen)))
    ensures |ps| > 1 ==> OpenEnded(ps[1..]) && WellSpaced(ps[1..]) && Follows(ps[0], Head(ps[1..]))
  {
    hide KnownPiece, Follows;
  }

  lemma FirstPieceEnds(ps: seq<Piece>, rest: string)
    requires OpenEnded(ps) && ps[0].Tok?
    ensures EndsToken(ps[0].token, Flatten(ps[1..]) + rest)
  {
    OpenEndedTail(ps);
    if |ps| == 1 {
      assert ps[0] == Tok(Sym(LParen));
    } else {
      hide EndsToken, Flatten, WellSpaced, Follows, KnownPiece, OpenEnded;
      FollowsEndsToken(ps[0].token, ps[1..]);
      FlattenNonEmpty(ps[1..]);
      EndsTokenOpen(ps[0].token, Flatten(ps[1..]), rest);
    }
  }

  /** They are lexed whatever follows. */
  lemma {:induction false} LexFront(u: Unicode, ps: seq<Piece>, rest: string)
    requires u.Valid() && OpenEnded(ps)
    ensures Lex(u, Flatten(ps) + rest) == AllBefore(TokensOf(ps), Lex(u, rest))
    decreases |ps|
  {
    OpenEndedTail(ps);
    if ps[0].Tok? { FirstPieceEnds(ps, rest); }
    hide *;
    FlattenFirst(ps);
    var more := Flatten(ps[1..]) + rest;
    ConcatAssociates(PieceText(ps[0]), Flatten(ps[1..]), rest);
    LexPiece(u, ps[0], more);
    if |ps| == 1 {
      NothingFlat(rest);
      AllBeforeNothing(Lex(u, rest));
      if ps[0].Tok? { BeforeAll(ps[0].token, [], Lex(u, rest)); }
    } else {
      LexFront(u, ps[1..], rest);
      if ps[0].Tok? { BeforeAll(ps[0].token, TokensOf(ps[1..]), Lex(u, rest)); }
    }
  }

  lemma NothingFlat(rest: string)
    ensures Flatten([]) + rest == rest && TokensOf([]) == []
  {
    assert Flatten([]) == "";
  }

  lemma FlattenFirst(ps: seq<Piece>)
    requires ps != []
    ensures Flatten(ps) == PieceText(ps[0]) + Flatten(ps[1..])
    ensures TokensOf(ps) == if ps[0].Space? then TokensOf(ps[1..]) else [ps[0].token] + TokensOf(ps[1..])
    ensures |ps| == 1 ==> ps[1..] == []
  {
    hide PieceText;
    assert ps[0].Space? ==> TokensOf(ps) == [] + TokensOf(ps[1..]);
  }

  lemma TokensBehind(ts: seq<Token>, r: Option<seq<Token>>)
    requires AllBefore(ts, r).Some?
    ensures r.Some? && AllBefore(ts, r).value == ts + r.value
  {
  }

  lemma QuoteIsNoMatch(u: Unicode, kw: string, tok: Token)
    requires u.Valid() && IsRewrite(kw, tok)
    ensures !RegexEq('\'', kw[0]) && !u.word('\'') && kw != ""
  {
  }

  /** A rewrite of such text with a literal behind it. */
  lemma RewriteFront(u: Unicode, ps: seq<Piece>, s: string, kw: string, tok: Token)
    requires u.Valid() && WellSpaced(ps) && IsRewrite(kw, tok)
    ensures ReplaceWord(u, false, Flatten(ps) + ("'" + s), kw, PieceText(Tok(tok))) ==
            Flatten(RewritePieces(u, ps, kw, tok)) + ("'" + ReplaceWord(u, false, s, kw, PieceText(Tok(tok))))
  {
    var t := PieceText(Tok(tok));
    RewriteIsWordy(u, kw, tok);
    QuoteIsNoMatch(u, kw, tok);
    assert CutBetweenWords(u, Flatten(ps), "'" + s);
    hide ReplaceWord, WordChars, RegexEq, Flatten, WellSpaced;
    PiecesRewritten(u, false, ps, kw, tok);
    ReplaceConcat(u, false, Flatten(ps), "'" + s, kw, t);
    ReplaceStep(u, EndsInWord(u, false, Flatten(ps)), "'" + s, kw, t);
    assert ("'" + s)[0] == '\'' && ("'" + s)[1..] == s && !WordHere(u, "'" + s, kw) by { NoWordAtQuote(u, s, kw); }
  }

  lemma NoWordAtQuote(u: Unicode, s: string, kw: string)
    requires kw != "" && !RegexEq('\'', kw[0])
    ensures ("'" + s)[0] == '\'' && ("'" + s)[1..] == s && !WordHere(u, "'" + s, kw)
  {
    hide RegexEq;
    if |kw| <= |"'" + s| { assert ("'" + s)[0] == '\''; }
  }
}
