/** A parsed rule that its own printed form does not give back: a list outside IN that lost an element. */
module NsqlDropped {
  import opened Wrappers
  import opened Text
  import opened NsqlAst
  import NsqlScanner
  import NsqlPreprocess
  import opened SqlSubset
  import NsqlConvert
  import opened NsqlRule
  import opened NsqlPieces
  import NsqlReading
  import opened NsqlPrinted
  import NsqlReparse
  import opened NsqlReread
  import NsqlRoundTrip
  import NsqlStable

  const BODY: seq<Piece> :=
    [WordPiece("subject"), Space, SymPiece(EqSign), Space, SymPiece(LParen), Tok(Str("a")), SymPiece(Comma), Space, Tok(Token.Number("5")), SymPiece(RParen)]

  /** What is known of a piece list; `u` matters for the rewrites only. */
  predicate Quiescent(u: Unicode, ps: seq<Piece>) {
    WellSpacedOpen(ps, None) && HeaderFree(ps) && RewriteBoth(u, ps) == ps
  }

  lemma {:induction false} KeptPieces(u: Unicode, ps: seq<Piece>)
    requires forall i | 0 <= i < |ps| :: KnownPiece(ps[i]) && RewrittenPiece(u, ps[i]) == ps[i]
    requires forall i | 0 <= i < |ps| :: Follows(ps[i], Head(ps[i + 1..]))
    requires HeaderFree(ps)
    ensures Quiescent(u, ps)
  {
    if ps == [] {
    } else {
      hide KnownPiece, Follows, EndsLikeHeader, RewriteBoth, RewrittenPiece;
      var rest := ps[1..];
      forall i | 0 <= i < |rest|
        ensures Follows(rest[i], Head(rest[i + 1..]))
      {
        assert rest[i] == ps[i + 1] && rest[i + 1..] == ps[i + 2..];
      }
      assert Follows(ps[0], Head(ps[0 + 1..]));
      KeptPieces(u, rest);
      RewriteBothConcat(u, [ps[0]], rest);
      RewriteBothOne(u, ps[0]);
      assert [ps[0]] + rest == ps;
    }
  }

  lemma PiecesPlain(u: Unicode)
    requires u.Valid()
    ensures forall p | p in BODY :: KnownPiece(p) && RewrittenPiece(u, p) == p
    ensures !EndsLikeHeader("a")
  {
    NsqlReading.NoMatchUnchanged(u, false, "a", NsqlPreprocess.CONTAINS_WORD, "LIKE");
    NsqlReading.NoMatchUnchanged(u, false, "a", NsqlPreprocess.MATCHES_WORD, "~");
    assert "subject" == VOCABULARY[4];
    assert NsqlPreprocess.CONTAINS_WORD[0] == 'C' && NsqlPreprocess.MATCHES_WORD[0] == 'M';
  }

  lemma BodyFollows()
    ensures forall k | 0 <= k < |BODY| :: Follows(BODY[k], Head(BODY[k + 1..]))
  {
  }

  lemma BodyHeaderFree()
    requires !EndsLikeHeader("a")
    ensures HeaderFree(BODY)
  {
    hide EndsLikeHeader;
  }

  lemma BodyQuiescent(u: Unicode)
    requires u.Valid()
    ensures Quiescent(u, BODY)
  {
    hide *;
    PiecesPlain(u);
    BodyFollows();
    BodyHeaderFree();
    assert forall i | 0 <= i < |BODY| :: BODY[i] in BODY;
    KeptPieces(u, BODY);
  }

  lemma Unroll(ps: seq<Piece>, k: nat)
    requires k < |ps|
    ensures Flatten(ps[k..]) == PieceText(ps[k]) + Flatten(ps[k + 1..])
    ensures TokensOf(ps[k..]) == (if ps[k].Space? then [] else [ps[k].token]) + TokensOf(ps[k + 1..])
  {
    hide PieceText;
    assert ps[k..][1..] == ps[k + 1..];
  }

  const BODY_TOKENS: seq<Token> :=
    [Word("subject"), Sym(EqSign), Sym(LParen), Str("a"), Sym(Comma), Token.Number("5"), Sym(RParen)]

  lemma BodySpelled()
    ensures Flatten(BODY) == "subject = ('a', 5)" && TokensOf(BODY) == BODY_TOKENS
  {
    hide Flatten, TokensOf;
    assert BODY[0..] == BODY;
    Unroll(BODY, 0); Unroll(BODY, 1); Unroll(BODY, 2); Unroll(BODY, 3); Unroll(BODY, 4);
    assert Flatten(BODY) == "subject" + (" " + ("=" + (" " + ("(" + Flatten(BODY[5..])))));
    assert TokensOf(BODY) == [Word("subject"), Sym(EqSign), Sym(LParen)] + TokensOf(BODY[5..]);
    BackSpelled();
  }

  lemma BackSpelled()
    ensures Flatten(BODY[5..]) == "'a', 5)"
    ensures TokensOf(BODY[5..]) == [Str("a"), Sym(Comma), Token.Number("5"), Sym(RParen)]
  {
    Unroll(BODY, 5); Unroll(BODY, 6); Unroll(BODY, 7);
    LastSpelled();
    hide Flatten, TokensOf;
    assert Flatten(BODY[5..]) == "'a'" + ("," + (" " + "5)"));
  }

  lemma LastSpelled()
    ensures Flatten(BODY[8..]) == "5)" && TokensOf(BODY[8..]) == [Token.Number("5"), Sym(RParen)]
  {
    Unroll(BODY, 8); Unroll(BODY, 9);
    assert BODY[10..] == [] && Flatten([]) == "" && TokensOf([]) == [];
    hide Flatten, TokensOf;
    assert Flatten(BODY[8..]) == "5" + (")" + "");
  }

  // ---------------------------------------------------------------- reading it

  const TUPLE: Expr := TupleOf([StringLit("a"), NumberLit("5")])

  /** An element and what stands behind it. */
  lemma ListUnfold(t: Token, e: Expr, rest: seq<Token>)
    requires ParsePrefix([t] + rest) == Some((e, rest)) && rest != [] && Precedence(rest) == 0
    ensures rest[0] != Sym(Comma) ==> ParseList([t] + rest) == Some(([e], rest))
    ensures rest[0] == Sym(Comma) && ParseList(rest[1..]).Some? ==>
              ParseList([t] + rest) == Some(([e] + ParseList(rest[1..]).value.0, ParseList(rest[1..]).value.1))
  {
    NsqlReparse.ClimbStops(0, e, rest);
    SubUnfold(0, [t] + rest);
    hide ParsePrefix, Climb, Precedence, ParseSub;
  }

  lemma ListParses()
    ensures ParseList([Str("a"), Sym(Comma), Token.Number("5"), Sym(RParen)]) == Some(([StringLit("a"), NumberLit("5")], [Sym(RParen)]))
  {
    var last, back := [Sym(RParen)], [Token.Number("5"), Sym(RParen)];
    var rest := [Sym(Comma)] + back;
    assert back == [Token.Number("5")] + last && [Str("a")] + rest == [Str("a"), Sym(Comma), Token.Number("5"), Sym(RParen)];
    assert rest[1..] == back;
    NsqlReparse.EndsBindNothing(last);
    NsqlReparse.EndsBindNothing(rest);
    PrefixLiteral(Token.Number("5"), last);
    PrefixLiteral(Str("a"), rest);
    hide ParsePrefix, ParseList, Precedence;
    ListUnfold(Token.Number("5"), NumberLit("5"), last);
    ListUnfold(Str("a"), StringLit("a"), rest);
    assert [StringLit("a")] + [NumberLit("5")] == [StringLit("a"), NumberLit("5")];
  }

  lemma PrefixLiteral(t: Token, rest: seq<Token>)
    requires t.Str? || t.Number?
    ensures ParsePrefix([t] + rest) == Some((if t.Str? then StringLit(t.value) else NumberLit(t.digits), rest))
  {
    assert ([t] + rest)[1..] == rest;
  }

  lemma TupleParses()
    ensures ParseSub(COMPARE_PRECEDENCE, BODY_TOKENS[2..]) == Some((TUPLE, []))
  {
    var ts := BODY_TOKENS[2..];
    assert ts[1..] == [Str("a"), Sym(Comma), Token.Number("5"), Sym(RParen)];
    ListParses();
    hide ParseList, ParseSub, Precedence;
    assert ParsePrefix(ts) == Some((TUPLE, []));
    NsqlReparse.EndsBindNothing([]);
    NsqlReparse.ClimbStops(COMPARE_PRECEDENCE, TUPLE, []);
    hide ParsePrefix, Climb;
    SubUnfold(COMPARE_PRECEDENCE, ts);
  }

  lemma SubUnfold(min: nat, ts: seq<Token>)
    ensures ParseSub(min, ts) == match ParsePrefix(ts) case None => None case Some((e, rest)) => Climb(min, e, rest)
  {
  }

  lemma BodyParses()
    ensures ParseSub(0, BODY_TOKENS) == Some((Binary(EqOp, Identifier("subject"), TUPLE), []))
  {
    var more := BODY_TOKENS[1..];
    assert BODY_TOKENS == [Word(FieldText(Subject))] + more;
    NsqlReparse.ParseFieldWord(Subject, more);
    TupleParses();
    assert more[1..] == BODY_TOKENS[2..];
    assert Precedence(more) == COMPARE_PRECEDENCE;
    assert ParseInfix(Identifier("subject"), COMPARE_PRECEDENCE, more) == Some((Binary(EqOp, Identifier("subject"), TUPLE), []));
    NsqlReparse.EndsBindNothing([]);
    NsqlReparse.ClimbStops(0, Binary(EqOp, Identifier("subject"), TUPLE), []);
    hide ParsePrefix, ParseInfix, Precedence, BODY_TOKENS;
    SubUnfold(0, BODY_TOKENS);
  }

  // ---------------------------------------------------------------- the whole rule

  const STATEMENT: seq<Piece> := STATEMENT_HEAD + ([Space] + BODY)

  const EXAMPLE: string := "SELECT * FROM emails WHERE subject = ('a', 5)"

  lemma HeadHasNoLiterals()
    ensures HeaderFree(STATEMENT_HEAD + [Space])
  {
    hide EndsLikeHeader;
  }

  lemma StatementQuiescent(u: Unicode)
    requires u.Valid()
    ensures WellSpaced(STATEMENT) && HeaderFree(STATEMENT) && RewriteBoth(u, STATEMENT) == STATEMENT
  {
    BodyQuiescent(u);
    assert BODY != [] && Closes(Some(Space)) && KnownPiece(Space) && Follows(Space, Head(BODY)) && RewrittenPiece(u, Space) == Space;
    assert STATEMENT == STATEMENT_HEAD + [Space] + BODY;
    hide WellSpacedOpen, WellSpaced, STATEMENT_HEAD, HeaderFree, RewriteBoth, BODY, EndsLikeHeader, RewrittenPiece, STATEMENT, Follows, KnownPiece, Closes;
    HeadOpen(Some(Space));
    OpenSingle(Space, Head(BODY));
    OpenConcat([Space], BODY, None);
    assert Head([Space] + BODY) == Some(Space);
    OpenConcat(STATEMENT_HEAD, [Space] + BODY, None);
    assert STATEMENT_HEAD + ([Space] + BODY) == STATEMENT_HEAD + [Space] + BODY;
    OpenIsClosed(STATEMENT);
    HeadHasNoLiterals();
    HeaderFreeConcat(STATEMENT_HEAD + [Space], BODY);
    HeadRewritten(u);
    RewriteBothOne(u, Space);
    RewriteBothConcat(u, STATEMENT_HEAD + [Space], BODY);
    RewriteBothConcat(u, STATEMENT_HEAD, [Space]);
  }

  lemma ExampleShape()
    ensures EXAMPLE == STATEMENT_TEXT + (" " + "subject = ('a', 5)")
    ensures STATEMENT_TEXT <= EXAMPLE && Trimmed(EXAMPLE) && EXAMPLE != ""
  {
  }

  lemma StatementSpelledOut()
    ensures Flatten(STATEMENT) == EXAMPLE
    ensures TokensOf(STATEMENT) == [Word("SELECT"), Sym(Star), Word("FROM"), Word("emails"), Word("WHERE")] + BODY_TOKENS
  {
    ExampleShape();
    assert PieceText(Space) == " " && STATEMENT == STATEMENT_HEAD + ([Space] + BODY);
    hide *;
    HeadSpelled();
    BodySpelled();
    FlattenConcat(STATEMENT_HEAD, [Space] + BODY);
    FlattenConcat([Space], BODY);
    FlattenOne(Space);
    assert [] + BODY_TOKENS == BODY_TOKENS;
  }

  lemma StatementSelects(front: seq<Token>)
    requires front == [Word("SELECT"), Sym(Star), Word("FROM"), Word("emails"), Word("WHERE")]
    ensures ParseSelect(front + BODY_TOKENS) == Some(Binary(EqOp, Identifier("subject"), TUPLE))
  {
    hide ParseSub, SameIgnoreCase, TUPLE;
    SelectWords();
    BodyParses();
    var ts := front + BODY_TOKENS;
    assert ts[5..] == BODY_TOKENS && forall i | 0 <= i < 5 :: ts[i] == front[i];
  }

  lemma TupleConverts(u: Unicode)
    requires u.Valid()
    ensures NsqlConvert.ConvertExpr(u, Binary(EqOp, Identifier("subject"), TUPLE), 1) ==
            Ok(Leaf(ConditionLeaf(Subject, Equals, List(["a"]))))
  {
    FieldReadsBack(u, Subject);
    assert FieldText(Subject) == "subject";
    hide NsqlConvert.ExtractField;
    var es := [StringLit("a"), NumberLit("5")];
    assert es[1..] == [NumberLit("5")] && es[1..][1..] == [];
    assert NsqlConvert.TupleStrings(es[1..]) == [] && NsqlConvert.TupleStrings(es) == ["a"];
  }

  lemma ExamplePreprocessed(u: Unicode)
    requires u.Valid()
    ensures NsqlPreprocess.Preprocess(u, EXAMPLE) == EXAMPLE && FullStatement(u, EXAMPLE) == EXAMPLE
    ensures Lex(u, EXAMPLE) == Some(TokensOf(STATEMENT))
  {
    ExampleShape();
    hide *;
    StatementQuiescent(u);
    StatementSpelledOut();
    HeadersSkipPieces(STATEMENT);
    BothRewritesOfPieces(u, STATEMENT);
    PreprocessSteps(u, EXAMPLE);
    SelectStartsUpper(u, " " + "subject = ('a', 5)");
    NsqlReading.LexPieces(u, STATEMENT);
  }

  lemma PreprocessSteps(u: Unicode, s: string)
    ensures NsqlPreprocess.Preprocess(u, s) == NsqlPreprocess.RewriteWords(u, NsqlPreprocess.ReplaceHeaders(s))
  {
  }

  lemma ExampleParses(u: Unicode)
    requires u.Valid()
    ensures ParseConditions(u, EXAMPLE) == Ok(Leaf(ConditionLeaf(Subject, Equals, List(["a"]))))
  {
    ExampleShape();
    TrimIdentity(EXAMPLE);
    hide *;
    ExamplePreprocessed(u);
    StatementSpelledOut();
    StatementSelects([Word("SELECT"), Sym(Star), Word("FROM"), Word("emails"), Word("WHERE")]);
    TupleConverts(u);
    ConditionsUnfold(u, EXAMPLE);
  }

  lemma ExampleIsQuiet(u: Unicode)
    requires u.Valid()
    ensures NsqlScanner.FindKeyword(EXAMPLE, ACTION) == None && NsqlScanner.FindKeyword(EXAMPLE, ON_ACCOUNT) == None
  {
    hide *;
    StatementQuiescent(u);
    StatementSpelledOut();
    WellSpacedKnown(STATEMENT);
    KeywordsNonEmpty();
    PiecesAreQuiet(STATEMENT, ACTION);
    PiecesAreQuiet(STATEMENT, ON_ACCOUNT);
    NsqlScanner.QuietHasNoKeyword(EXAMPLE, ACTION);
    NsqlScanner.QuietHasNoKeyword(EXAMPLE, ON_ACCOUNT);
  }

  lemma KeywordsNonEmpty()
    ensures ACTION == "ACTION" && ON_ACCOUNT == "ON ACCOUNT" && ACTION != "" && ON_ACCOUNT != ""
  {
  }

  lemma ExampleHasNoKeywords(u: Unicode)
    requires u.Valid()
    ensures ExtractOnAccount(EXAMPLE) == Ok(("*", EXAMPLE)) && SplitWhereAndActions(u, EXAMPLE) == Ok((EXAMPLE, []))
  {
    ExampleShape();
    TrimIdentity(EXAMPLE);
    TrimNothing();
    hide Trim, Trimmed, NsqlScanner.FindKeyword, EXAMPLE, Unicode.Valid;
    ExampleIsQuiet(u);
  }

  /** The parser drops the number from the list, and the list of one left behind prints as parentheses around a
      string: this rule parses, and what it parses to does not come back. */
  lemma DroppedElementIsUnstable(u: Unicode)
    requires u.Valid()
    ensures ParseRule(u, EXAMPLE) == Ok(ParsedRule("*", Leaf(ConditionLeaf(Subject, Equals, List(["a"]))), []))
    ensures !NsqlRoundTrip.RoundTripInvariant(u, Leaf(ConditionLeaf(Subject, Equals, List(["a"]))), [])
  {
    hide ParseConditions, ExtractOnAccount, SplitWhereAndActions, EXAMPLE, NsqlRoundTrip.RoundTripInvariant, Unicode.Valid;
    ExampleHasNoKeywords(u);
    ExampleParses(u);
    NsqlStable.ParsedRuleIsStable(u, EXAMPLE);
  }
}
