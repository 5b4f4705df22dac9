/** A rule for one subject that is read back as a rule for nearly every message: its literal holds a single quote,
    a condition of its own, and the start of a comment. */
module NsqlWidened {
  import opened Wrappers
  import opened Text
  import Decimal
  import opened NsqlAst
  import NsqlScanner
  import NsqlActions
  import opened NsqlPreprocess
  import opened SqlSubset
  import NsqlConvert
  import opened NsqlRule
  import opened NsqlPieces
  import opened NsqlReading
  import opened NsqlPrinted
  import opened NsqlReparse
  import opened NsqlReread
  import NsqlCut
  import NsqlFront
  import NsqlQuoted
  import NsqlLost

  const BEHIND: string := " OR size > 0 --"

  const SUBJECT: string := "x" + "'" + BEHIND

  /** What is printed. */
  const PRINTED: ConditionLeaf := ConditionLeaf(Subject, Equals, String(SUBJECT))

  /** What is read: the two operands of an OR, and a comment. */
  const FIRST_READ: ConditionLeaf := ConditionLeaf(Subject, Equals, String("x\\"))
  const SECOND_READ: ConditionLeaf := ConditionLeaf(Size, GreaterThan, FilterValue.Number(0))

  const BODY: seq<Piece> :=
    LeafPieces(FIRST_READ, true) + [Space, WordPiece("OR"), Space] + (LeafPieces(SECOND_READ, true) + [Space])

  const STATEMENT: seq<Piece> := STATEMENT_HEAD + ([Space] + BODY)

  const COMMENT: string := "--'"

  // ---------------------------------------------------------------- the text

  lemma ReadLeavesPlain()
    ensures UnquotedLeaf(FIRST_READ) && UnquotedLeaf(SECOND_READ)
  {
  }

  lemma BetweenOpen(next: Option<Piece>)
    ensures WellSpacedOpen([Space, WordPiece("OR"), Space], next)
  {
    FixedWord("OR", Some(Space));
    hide WellSpacedOpen, VOCABULARY;
    NsqlFront.OpenFront(Space, Some(WordPiece("OR")));
    NsqlFront.OpenFront(Space, next);
    OpenTriple(Space, WordPiece("OR"), Space, next);
  }

  /** Two leaves with OR between them and a space behind. */
  lemma OperandsOpen(first: ConditionLeaf, second: ConditionLeaf)
    requires UnquotedLeaf(first) && UnquotedLeaf(second)
    ensures WellSpacedOpen(LeafPieces(first, true) + ([Space, WordPiece("OR"), Space] + (LeafPieces(second, true) + [Space])), None)
  {
    hide LeafPieces, WellSpacedOpen, KnownPiece, Follows, UnquotedLeaf;
    var between, more := [Space, WordPiece("OR"), Space], LeafPieces(second, true) + [Space];
    LeafOpen(second, true, Some(Space));
    NsqlFront.OpenFront(Space, None);
    OpenConcat(LeafPieces(second, true), [Space], None);
    BetweenOpen(Head(more));
    OpenConcat(between, more, None);
    LeafOpen(first, true, Some(Space));
    OpenConcat(LeafPieces(first, true), between + more, None);
  }

  lemma BodyOpen()
    ensures BODY != [] && WellSpacedOpen(BODY, None) && BODY[|BODY| - 1] == Space
  {
    ReadLeavesPlain();
    OperandsOpen(FIRST_READ, SECOND_READ);
    hide LeafPieces, WellSpacedOpen, UnquotedLeaf, FIRST_READ, SECOND_READ;
    Regroup(LeafPieces(FIRST_READ, true), [Space, WordPiece("OR"), Space], LeafPieces(SECOND_READ, true) + [Space]);
  }

  lemma Regroup(a: seq<Piece>, b: seq<Piece>, c: seq<Piece>)
    ensures a + b + c == a + (b + c)
  {
  }

  lemma StatementOpen()
    ensures OpenEnded(STATEMENT)
  {
    BodyOpen();
    hide BODY, STATEMENT_HEAD, WellSpacedOpen, WellSpaced, KnownPiece, Follows;
    HeadOpen(Some(Space));
    NsqlFront.OpenFront(Space, Head(BODY));
    OpenConcat([Space], BODY, None);
    OpenConcat(STATEMENT_HEAD, [Space] + BODY, None);
    OpenIsClosed(STATEMENT);
  }

  lemma FirstReadText()
    ensures Flatten(LeafPieces(FIRST_READ, true)) == "subject = 'x\\'"
  {
    assert LeafPieces(FIRST_READ, true) == LeafPieces(FIRST_READ, false);
    LeafSpelled(FIRST_READ);
    assert EscapeQuotes("x\\"[1..]) == "\\" by { assert "x\\"[1..] == "\\" && "\\"[1..] == ""; }
    assert EscapeQuotes("x\\") == "x\\";
  }

  lemma SecondReadText()
    ensures Flatten(LeafPieces(SECOND_READ, true)) == "size > 0"
  {
    assert LeafPieces(SECOND_READ, true) == LeafPieces(SECOND_READ, false);
    LeafSpelled(SECOND_READ);
    assert Decimal.NatToString(0) == "0";
  }

  lemma BodyText()
    ensures Flatten(BODY) == "subject = 'x\\'" + (" OR " + "size > 0 ")
  {
    hide Flatten, LeafPieces;
    FirstReadText();
    SecondReadText();
    var between := [Space, WordPiece("OR"), Space];
    FlattenConcat(LeafPieces(FIRST_READ, true) + between, LeafPieces(SECOND_READ, true) + [Space]);
    FlattenConcat(LeafPieces(FIRST_READ, true), between);
    FlattenConcat(LeafPieces(SECOND_READ, true), [Space]);
    NsqlFront.BetweenSpaces("OR");
    FlattenOne(Space);
    OrSpelled();
    ConcatAssociates("subject = 'x\\'", " OR ", "size > 0 ");
  }

  lemma OrSpelled()
    ensures " " + "OR" + " " == " OR " && "size > 0" + " " == "size > 0 "
    ensures BEHIND + "'" == " OR " + "size > 0 " + COMMENT
    ensures '\'' !in BEHIND && '\'' !in "x"
  {
  }

  lemma SubjectEscaped()
    ensures Quoted(SUBJECT) == "'" + ("x" + "\\'" + BEHIND) + "'"
  {
    OrSpelled();
    hide BEHIND;
    NsqlLost.EscapedUpTo("x", BEHIND);
    EscapeQuoteFree(BEHIND);
  }

  lemma LiteralRegrouped(behind: string)
    ensures "subject" + " " + "=" + " " + ("'" + ("x" + "\\'" + behind) + "'") == "subject = 'x\\'" + (behind + "'")
  {
    assert "subject" + " " + "=" + " " == "subject = ";
    assert "'" + ("x" + "\\'" + behind) + "'" == "'x\\'" + (behind + "'");
    assert "subject = " + "'x\\'" == "subject = 'x\\'";
    ConcatAssociates("subject = ", "'x\\'", behind + "'");
  }

  lemma LeafPrinted()
    ensures LeafText(PRINTED) == Flatten(BODY) + COMMENT
  {
    SubjectEscaped();
    assert LeafText(PRINTED) == "subject" + " " + "=" + " " + Quoted(SUBJECT);
    BodyText();
    OrSpelled();
    hide *;
    LiteralRegrouped(BEHIND);
    ConcatAssociates("subject = 'x\\'", " OR " + "size > 0 ", COMMENT);
  }

  /** The printed rule. */
  lemma PrintedText()
    ensures RuleText(Leaf(PRINTED), []) == Flatten(STATEMENT) + COMMENT
    ensures STATEMENT_TEXT <= Flatten(STATEMENT) + COMMENT
  {
    NsqlActions.NoActions();
    LeafPrinted();
    hide Flatten, STATEMENT_HEAD, BODY, LeafText, COMMENT, STATEMENT_TEXT, SELECT_PREFIX, PRINTED;
    HeadSpelled();
    FlattenConcat(STATEMENT_HEAD, [Space] + BODY);
    FlattenConcat([Space], BODY);
    FlattenOne(Space);
    PrefixIsStatement();
    TextRegrouped(STATEMENT_TEXT, Flatten(BODY), COMMENT);
  }

  lemma TextRegrouped(a: string, b: string, c: string)
    ensures a + " " + (b + c) == (a + (" " + b)) + c && a <= (a + (" " + b)) + c
  {
  }

  // ---------------------------------------------------------------- the scanners find no keyword

  lemma NoKeyword(kw: string)
    requires kw == "ACTION" || kw == "ON ACCOUNT"
    ensures NsqlScanner.FindKeyword(Flatten(STATEMENT) + COMMENT, kw) == None
  {
    StatementOpen();
    assert |COMMENT| == 3 && |kw| >= 6;
    hide STATEMENT, Flatten, WellSpaced, KnownPiece, COMMENT, NsqlScanner.Quiet, NsqlScanner.FirstKeywordFrom;
    WellSpacedKnown(STATEMENT);
    PiecesAreQuiet(STATEMENT, kw);
    var head := Flatten(STATEMENT);
    forall i | 0 <= i < |head + COMMENT|
      ensures !NsqlScanner.KeywordAt(head + COMMENT, kw, i)
    {
      if i < |head| { NsqlScanner.QuietNotAt(head, COMMENT, kw, i); } else { KeywordTooLong(head + COMMENT, kw, i); }
    }
  }

  lemma KeywordTooLong(s: string, kw: string, i: nat)
    requires kw != "" && i + |kw| > |s|
    ensures !NsqlScanner.KeywordAt(s, kw, i)
  {
  }

  lemma PrintedTrimmed()
    ensures var s := Flatten(STATEMENT) + COMMENT; Trim(s) == s && s != ""
  {
    PrintedText();
    hide Flatten, STATEMENT, Trim;
    var s := Flatten(STATEMENT) + COMMENT;
    assert s[0] == STATEMENT_TEXT[0] == 'S' && s[|s| - 1] == COMMENT[2] == '\'';
    TrimIdentity(s);
  }

  lemma PrintedRead(u: Unicode)
    requires u.Valid()
    ensures var s := Flatten(STATEMENT) + COMMENT;
            ExtractOnAccount(s) == Ok(("*", s)) && SplitWhereAndActions(u, s) == Ok((s, []))
  {
    PrintedTrimmed();
    TrimNothing();
    NoKeyword(ACTION);
    NoKeyword(ON_ACCOUNT);
    hide Trim, NsqlScanner.FindKeyword, Flatten, STATEMENT, COMMENT;
  }

  // ---------------------------------------------------------------- the rewrites change nothing

  lemma NoHeader()
    ensures ReplaceHeaders(Flatten(STATEMENT) + COMMENT) == Flatten(STATEMENT) + COMMENT
  {
    StatementOpen();
    hide *;
    var s := Flatten(STATEMENT) + COMMENT;
    var p := NsqlLost.FirstMatch(s);
    NsqlLost.OpenEndedSpaced(STATEMENT);
    if p < |Flatten(STATEMENT)| {
      var m, a := NsqlLost.LocateMatch(STATEMENT, COMMENT, p);
      NotLocated(p, m, a);
    } else if p < |s| {
      ShortIsNone(s, p);
    }
    NsqlLost.ReplacedFrom(s, p);
    NothingReplaced(s);
  }

  lemma NothingReplaced(s: string)
    ensures s[..|s|] + ReplaceHeaders(s[|s|..]) == s
  {
  }

  lemma ShortIsNone(s: string, p: nat)
    requires |Flatten(STATEMENT)| <= p < |s| && s == Flatten(STATEMENT) + COMMENT
    ensures HeaderMatch(s[p..]).None?
  {
    hide Flatten, STATEMENT;
    assert |s[p..]| <= 3;
  }

  lemma NotLocated(p: nat, m: nat, a: nat)
    ensures !NsqlLost.Located(STATEMENT, COMMENT, p, m, a)
  {
    hide Flatten;
    if NsqlFront.StrPiece(STATEMENT, m) { assert STATEMENT[m].token.value == "x\\"; }
  }

  lemma CommentKept(u: Unicode, kw: string, tok: Token)
    requires u.Valid() && IsRewrite(kw, tok)
    ensures ReplaceWord(u, false, COMMENT, kw, PieceText(Tok(tok))) == COMMENT && kw != ""
    ensures forall s :: CutBetweenWords(u, s, COMMENT)
    ensures forall inWord :: ReplaceWord(u, inWord, COMMENT, kw, PieceText(Tok(tok))) == COMMENT
  {
    forall inWord
      ensures ReplaceWord(u, inWord, COMMENT, kw, PieceText(Tok(tok))) == COMMENT
    {
      NoMatchUnchanged(u, inWord, COMMENT, kw, PieceText(Tok(tok)));
    }
  }

  lemma StatementKept(u: Unicode, kw: string, tok: Token)
    requires u.Valid() && IsRewrite(kw, tok)
    ensures ReplaceWord(u, false, Flatten(STATEMENT) + COMMENT, kw, PieceText(Tok(tok))) == Flatten(STATEMENT) + COMMENT
  {
    StatementOpen();
    RewriteIsWordy(u, kw, tok);
    CommentKept(u, kw, tok);
    hide *;
    NsqlLost.OpenEndedSpaced(STATEMENT);
    var t := PieceText(Tok(tok));
    ReplaceConcat(u, false, Flatten(STATEMENT), COMMENT, kw, t);
    PiecesRewritten(u, false, STATEMENT, kw, tok);
    StatementPiecesKept(u, kw, tok);
  }

  lemma {:induction false} PiecesKept(u: Unicode, ps: seq<Piece>, kw: string, tok: Token)
    requires kw != "" && forall i | 0 <= i < |ps| :: RewritePiece(u, ps[i], kw, tok) == ps[i]
    ensures RewritePieces(u, ps, kw, tok) == ps
  {
    hide RewritePiece;
    if ps == [] {
    } else {
      assert forall i | 0 <= i < |ps[1..]| :: ps[1..][i] == ps[i + 1];
      PiecesKept(u, ps[1..], kw, tok);
      assert ps == [ps[0]] + ps[1..];
    }
  }

  lemma StatementPiecesKept(u: Unicode, kw: string, tok: Token)
    requires u.Valid() && IsRewrite(kw, tok)
    ensures RewritePieces(u, STATEMENT, kw, tok) == STATEMENT
  {
    LiteralKept(u, kw, tok);
    assert kw[0] == 'C' || kw[0] == 'M';
    forall i | 0 <= i < |STATEMENT|
      ensures RewritePiece(u, STATEMENT[i], kw, tok) == STATEMENT[i]
    {
      PieceKept(u, i, kw, tok);
    }
    hide RewritePiece, STATEMENT;
    PiecesKept(u, STATEMENT, kw, tok);
  }

  lemma LiteralKept(u: Unicode, kw: string, tok: Token)
    requires u.Valid() && IsRewrite(kw, tok)
    ensures kw != "" && ReplaceWord(u, false, "x\\", kw, PieceText(Tok(tok))) == "x\\"
  {
    NoMatchUnchanged(u, false, "x\\", kw, PieceText(Tok(tok)));
  }

  lemma PieceKept(u: Unicode, i: nat, kw: string, tok: Token)
    requires i < |STATEMENT| && kw != "" && (kw[0] == 'C' || kw[0] == 'M')
    requires ReplaceWord(u, false, "x\\", kw, PieceText(Tok(tok))) == "x\\"
    ensures RewritePiece(u, STATEMENT[i], kw, tok) == STATEMENT[i]
  {
    hide ReplaceWord;
    var p := STATEMENT[i];
    assert p.Tok? && p.token.Word? ==> p.token.text != "" && p.token.text[0] != 'C' && p.token.text[0] != 'M';
    assert p.Tok? && p.token.Str? ==> p.token.value == "x\\";
  }

  lemma PrintedPreprocessed(u: Unicode)
    requires u.Valid()
    ensures var s := Flatten(STATEMENT) + COMMENT; Preprocess(u, s) == s && FullStatement(u, s) == s
  {
    RewriteTexts();
    hide *;
    var s := Flatten(STATEMENT) + COMMENT;
    NoHeader();
    StatementKept(u, CONTAINS_WORD, Word("LIKE"));
    StatementKept(u, MATCHES_WORD, Sym(Tilde));
    PreprocessKeeps(u, s);
    PrintedText();
    PrefixSplit(STATEMENT_TEXT, s);
    SelectStartsUpper(u, s[|STATEMENT_TEXT|..]);
  }

  lemma RewriteTexts()
    ensures PieceText(Tok(Word("LIKE"))) == "LIKE" && PieceText(Tok(Sym(Tilde))) == "~"
    ensures IsRewrite(CONTAINS_WORD, Word("LIKE")) && IsRewrite(MATCHES_WORD, Sym(Tilde)) && CONTAINS_WORD != "" && MATCHES_WORD != ""
  {
  }

  lemma PreprocessKeeps(u: Unicode, s: string)
    requires ReplaceHeaders(s) == s
    requires CONTAINS_WORD != "" && ReplaceWord(u, false, s, CONTAINS_WORD, "LIKE") == s
    requires MATCHES_WORD != "" && ReplaceWord(u, false, s, MATCHES_WORD, "~") == s
    ensures Preprocess(u, s) == s
  {
    hide ReplaceHeaders, ReplaceWord;
  }

  lemma PrefixSplit(a: string, s: string)
    requires a <= s
    ensures s == a + s[|a|..]
  {
  }

  // ---------------------------------------------------------------- reading it

  lemma CommentLexed(u: Unicode)
    requires u.Valid()
    ensures Lex(u, COMMENT) == Some([])
  {
    assert COMMENT[2..] == "'" && "'"[1..] == "";
    assert AfterLine("'") == AfterLine("") == "";
    assert StartsLineComment(COMMENT) && Lex(u, "") == Some([]);
  }

  function ReadTokens(): seq<Token> { LeafTokens(FIRST_READ) + ([Word("OR")] + LeafTokens(SECOND_READ)) }

  lemma BodyTokens()
    ensures TokensOf(BODY) == ReadTokens()
  {
    hide TokensOf, Flatten, LeafPieces, LeafTokens;
    var between := [Space, WordPiece("OR"), Space];
    FlattenConcat(LeafPieces(FIRST_READ, true) + between, LeafPieces(SECOND_READ, true) + [Space]);
    FlattenConcat(LeafPieces(FIRST_READ, true), between);
    FlattenConcat(LeafPieces(SECOND_READ, true), [Space]);
    LeafAsTokens(FIRST_READ);
    LeafAsTokens(SECOND_READ);
    FlattenConcat([Space], [WordPiece("OR"), Space]);
    assert [Space] + [WordPiece("OR"), Space] == between;
    TwoAsTokens(WordPiece("OR"), Space);
    FlattenOne(WordPiece("OR"));
    FlattenOne(Space);
    assert [] + ([Word("OR")] + []) == [Word("OR")];
    TokensJoined(LeafTokens(FIRST_READ), [Word("OR")], LeafTokens(SECOND_READ));
  }

  lemma TokensJoined(a: seq<Token>, b: seq<Token>, c: seq<Token>)
    ensures a + b + (c + []) == a + (b + c)
  {
  }

  lemma StatementTokens()
    ensures TokensOf(STATEMENT) == NsqlQuoted.SELECT_TOKENS + ReadTokens()
  {
    HeadSpelled();
    BodyTokens();
    hide Flatten, TokensOf, STATEMENT_HEAD, BODY, ReadTokens;
    FlattenConcat(STATEMENT_HEAD, [Space] + BODY);
    FlattenConcat([Space], BODY);
    FlattenOne(Space);
    assert [] + ReadTokens() == ReadTokens();
  }

  lemma PrintedLexed(u: Unicode)
    requires u.Valid()
    ensures Lex(u, Flatten(STATEMENT) + COMMENT) == Some(NsqlQuoted.SELECT_TOKENS + ReadTokens())
  {
    StatementOpen();
    CommentLexed(u);
    StatementTokens();
    hide Lex, Flatten, TokensOf, STATEMENT, COMMENT, OpenEnded, ReadTokens, NsqlQuoted.SELECT_TOKENS;
    LexFront(u, STATEMENT, COMMENT);
    assert NsqlQuoted.SELECT_TOKENS + ReadTokens() + [] == NsqlQuoted.SELECT_TOKENS + ReadTokens();
  }

  lemma BothReadable()
    ensures ReadableLeaf(FIRST_READ) && ReadableLeaf(SECOND_READ) && LeafReadsBack(FIRST_READ) && LeafReadsBack(SECOND_READ)
    ensures !FIRST_READ.field.Header? && !SECOND_READ.field.Header?
  {
  }

  lemma TokensParsed()
    ensures ReadableLeaf(FIRST_READ) && ReadableLeaf(SECOND_READ)
    ensures ParseSub(0, ReadTokens()) == Some((Binary(OrOp, LeafExpr(FIRST_READ), LeafExpr(SECOND_READ)), []))
  {
    BothReadable();
    var second := LeafTokens(SECOND_READ);
    var back := [Word("OR")] + second;
    NsqlCut.WordBinds(OrOp, "OR", second);
    assert OR_PRECEDENCE <= NOT_PRECEDENCE && OR_PRECEDENCE < LIKE_PRECEDENCE;
    assert NsqlCut.WordPrecedence(OrOp) == OR_PRECEDENCE && Precedence([]) == 0;
    hide *;
    ParseLeaf(0, FIRST_READ, back);
    NsqlCut.ClimbOn(OrOp, "OR", LeafExpr(FIRST_READ), second);
    ParseLeaf(OR_PRECEDENCE, SECOND_READ, []);
    assert second + [] == second;
    ClimbStops(OR_PRECEDENCE, LeafExpr(SECOND_READ), []);
    ClimbStops(0, Binary(OrOp, LeafExpr(FIRST_READ), LeafExpr(SECOND_READ)), []);
  }

  lemma PrintedConverts(u: Unicode)
    requires u.Valid() && ReadableLeaf(FIRST_READ) && ReadableLeaf(SECOND_READ)
    ensures NsqlConvert.ConvertExpr(u, Binary(OrOp, LeafExpr(FIRST_READ), LeafExpr(SECOND_READ)), 1) ==
            Ok(Or([Leaf(FIRST_READ), Leaf(SECOND_READ)]))
  {
    BothReadable();
    hide LeafExpr, NsqlConvert.ConvertCondition, LeafReadsBack, FIRST_READ, SECOND_READ, Unicode.Valid;
    LeafConverts(u, FIRST_READ);
    LeafConverts(u, SECOND_READ);
  }

  lemma PrintedConditions(u: Unicode)
    requires u.Valid()
    ensures ParseConditions(u, Flatten(STATEMENT) + COMMENT) == Ok(Or([Leaf(FIRST_READ), Leaf(SECOND_READ)]))
  {
    hide *;
    PrintedTrimmed();
    PrintedPreprocessed(u);
    PrintedLexed(u);
    TokensParsed();
    SelectReads(ReadTokens());
    PrintedConverts(u);
    ConditionsUnfold(u, Flatten(STATEMENT) + COMMENT);
  }

  lemma SelectReads(ts: seq<Token>)
    requires ts != [] && ParseSub(0, ts).Some? && ParseSub(0, ts).value.1 == []
    ensures ParseSelect(NsqlQuoted.SELECT_TOKENS + ts) == Some(ParseSub(0, ts).value.0)
  {
    hide ParseSub, SameIgnoreCase;
    SelectWords();
    var all := NsqlQuoted.SELECT_TOKENS + ts;
    assert all[5..] == ts && forall i | 0 <= i < 5 :: all[i] == NsqlQuoted.SELECT_TOKENS[i];
  }

  /** The rule is read back, as another one. */
  lemma WidenedRule(u: Unicode)
    requires u.Valid()
    ensures ParseRule(u, RuleText(Leaf(PRINTED), [])) == Ok(ParsedRule("*", Or([Leaf(FIRST_READ), Leaf(SECOND_READ)]), []))
  {
    PrintedText();
    PrintedRead(u);
    PrintedConditions(u);
    DepthOfRead();
    hide ExtractOnAccount, SplitWhereAndActions, ParseConditions, Flatten, STATEMENT, COMMENT, RuleText, Depth;
  }

  lemma DepthOfRead()
    ensures Depth(Or([Leaf(FIRST_READ), Leaf(SECOND_READ)])) <= NsqlConvert.MAX_AST_DEPTH
  {
    NsqlConvert.DepthOfPair(Leaf(FIRST_READ), Leaf(SECOND_READ));
  }
}
