/** What every parsed rule is like, whatever text it came from, and when such a rule survives being printed and
    parsed again. */
module NsqlStable {
  import opened Wrappers
  import opened Text
  import opened NsqlAst
  import opened NsqlScanner
  import opened NsqlActions
  import NsqlPreprocess
  import opened SqlSubset
  import opened NsqlConvert
  import opened NsqlRule
  import opened NsqlPieces
  import NsqlReading
  import opened NsqlPrinted
  import NsqlReparse
  import opened NsqlReread
  import opened NsqlRoundTrip
  import NsqlCut
  import NsqlFront
  import opened NsqlQuoted
  import NsqlLost
  import NsqlExact
  import opened NsqlWordFree

  // ---------------------------------------------------------------- parsed expressions

  /** Names and literals hold no rewritten word, a tuple has two elements or more, and no IN list is empty. */
  ghost predicate Built(u: Unicode, e: Expr) {
    match e
    case Identifier(name) => CleanFrom(u, false, name)
    case StringLit(s) => CleanFrom(u, false, s)
    case NumberLit(_) => true
    case BoolLit(_) => true
    case Nested(inner) => Built(u, inner)
    case TupleOf(es) => |es| >= 2 && forall i | 0 <= i < |es| :: Built(u, es[i])
    case UnaryNot(inner) => Built(u, inner)
    case UnaryMinus(inner) => Built(u, inner)
    case Binary(_, l, r) => Built(u, l) && Built(u, r)
    case Like(l, _, r) => Built(u, l) && Built(u, r)
    case InList(l, _, es) => Built(u, l) && es != [] && forall i | 0 <= i < |es| :: Built(u, es[i])
  }

  lemma GoodBehind(u: Unicode, ts: seq<Token>, first: bool, k: nat)
    requires GoodTokens(u, ts, first) && 0 < k <= |ts|
    ensures GoodTokens(u, ts[k..], !ts[k - 1].Number?) && GoodTokens(u, ts[k..], false)
  {
    hide CleanFrom;
    assert forall i | 0 <= i < |ts[k..]| :: ts[k..][i] == ts[k + i];
  }

  lemma GoodFirst(u: Unicode, ts: seq<Token>)
    requires ts != [] && GoodTokens(u, ts, true)
    ensures ts[0].Word? ==> CleanFrom(u, false, ts[0].text)
    ensures ts[0].Str? ==> CleanFrom(u, false, ts[0].value)
    ensures ts[0].Delimited? ==> CleanFrom(u, false, ts[0].name)
  {
    hide CleanFrom;
  }

  lemma {:induction false} SubBuilt(u: Unicode, min: nat, ts: seq<Token>)
    requires GoodTokens(u, ts, true) && ParseSub(min, ts).Some?
    ensures Built(u, ParseSub(min, ts).value.0) && GoodTokens(u, ParseSub(min, ts).value.1, false)
    decreases |ts|, 3
  {
    hide ParsePrefix, Climb, Built, GoodTokens;
    PrefixBuilt(u, ts);
    var (e, rest) := ParsePrefix(ts).value;
    ClimbBuilt(u, min, e, rest);
  }

  lemma {:induction false} PrefixBuilt(u: Unicode, ts: seq<Token>)
    requires GoodTokens(u, ts, true) && ParsePrefix(ts).Some?
    ensures Built(u, ParsePrefix(ts).value.0) && GoodTokens(u, ParsePrefix(ts).value.1, false)
    decreases |ts|, 2
  {
    hide ParseSub, ParseList, SameIgnoreCase, CleanFrom;
    GoodBehind(u, ts, true, 1);
    match ts[0] {
      case Word(w) =>
        GoodFirst(u, ts);
        if SameIgnoreCase(w, "NOT") { SubBuilt(u, NOT_PRECEDENCE, ts[1..]); }
      case Sym(LParen) =>
        ListBuilt(u, ts[1..]);
        var (es, rest) := ParseList(ts[1..]).value;
        GoodBehind(u, rest, false, 1);
      case Sym(Minus) =>
        SubBuilt(u, MINUS_PRECEDENCE, ts[1..]);
      case Delimited(_) =>
        GoodFirst(u, ts);
      case _ =>
    }
  }

  lemma {:induction false} ListBuilt(u: Unicode, ts: seq<Token>)
    requires GoodTokens(u, ts, true) && ParseList(ts).Some?
    ensures forall i | 0 <= i < |ParseList(ts).value.0| :: Built(u, ParseList(ts).value.0[i])
    ensures GoodTokens(u, ParseList(ts).value.1, false)
    decreases |ts|, 4
  {
    hide ParseSub, Built, GoodTokens;
    SubBuilt(u, 0, ts);
    var (e, rest) := ParseSub(0, ts).value;
    if rest != [] && rest[0] == Sym(Comma) {
      GoodBehind(u, rest, false, 1);
      ListBuilt(u, rest[1..]);
    }
  }

  lemma {:induction false} ClimbBuilt(u: Unicode, min: nat, left: Expr, ts: seq<Token>)
    requires Built(u, left) && GoodTokens(u, ts, false) && Climb(min, left, ts).Some?
    ensures Built(u, Climb(min, left, ts).value.0) && GoodTokens(u, Climb(min, left, ts).value.1, false)
    decreases |ts|, 1
  {
    hide ParseInfix, Precedence, Built, GoodTokens;
    var p := Precedence(ts);
    if p <= min {
    } else {
      NsqlCut.PrecedenceNeedsToken(ts);
      InfixBuilt(u, left, p, ts);
      var (e, rest) := ParseInfix(left, p, ts).value;
      ClimbBuilt(u, min, e, rest);
    }
  }

  /** What stands where an operator is taken is no number. */
  lemma OperatorIsNoNumber(ts: seq<Token>)
    requires Precedence(ts) > 0
    ensures ts != [] && !ts[0].Number?
  {
  }

  lemma {:induction false} InfixBuilt(u: Unicode, left: Expr, p: nat, ts: seq<Token>)
    requires Built(u, left) && GoodTokens(u, ts, false)
    requires ts != [] && p == Precedence(ts) && p > 0 && ParseInfix(left, p, ts).Some?
    ensures Built(u, ParseInfix(left, p, ts).value.0) && GoodTokens(u, ParseInfix(left, p, ts).value.1, false)
    decreases |ts|, 0
  {
    OperatorIsNoNumber(ts);
    GoodBehind(u, ts, false, 1);
    hide ParseSub, ParseLike, ParseIn, Precedence, SameIgnoreCase, GoodTokens, CleanFrom;
    if IsWord(ts[0], "LIKE") {
      LikeBuilt(u, left, false, ts[1..]);
    } else if IsWord(ts[0], "IN") {
      InBuilt(u, left, false, ts[1..]);
    } else if IsWord(ts[0], "NOT") && |ts| > 1 {
      NegatedOperator(p, ts);
      GoodBehind(u, ts, false, 2);
      if IsWord(ts[1], "LIKE") { LikeBuilt(u, left, true, ts[2..]); } else { InBuilt(u, left, true, ts[2..]); }
    } else {
      SubBuilt(u, p, ts[1..]);
    }
  }

  lemma NegatedOperator(p: nat, ts: seq<Token>)
    requires |ts| > 1 && IsWord(ts[0], "NOT") && p == Precedence(ts) && p > 0
    ensures !ts[1].Number?
  {
    NsqlReparse.OperatorWords();
    NsqlReparse.ConnectiveWords();
    SameNot(ts[0].text);
  }

  lemma SameNot(w: string)
    requires SameIgnoreCase(w, "NOT")
    ensures !SameIgnoreCase(w, "AND") && !SameIgnoreCase(w, "OR") && !SameIgnoreCase(w, "LIKE") && !SameIgnoreCase(w, "IN")
  {
    assert EqIgnoreCase(w[0], "NOT"[0]) && !EqIgnoreCase(w[0], "AND"[0]);
  }

  lemma {:induction false} LikeBuilt(u: Unicode, left: Expr, negated: bool, ts: seq<Token>)
    requires Built(u, left) && GoodTokens(u, ts, true) && ParseLike(left, negated, ts).Some?
    ensures Built(u, ParseLike(left, negated, ts).value.0) && GoodTokens(u, ParseLike(left, negated, ts).value.1, false)
    decreases |ts|, 4
  {
    hide ParseSub, GoodTokens, CleanFrom;
    SubBuilt(u, LIKE_PRECEDENCE, ts);
  }

  lemma {:induction false} InBuilt(u: Unicode, left: Expr, negated: bool, ts: seq<Token>)
    requires Built(u, left) && GoodTokens(u, ts, true) && ParseIn(left, negated, ts).Some?
    ensures Built(u, ParseIn(left, negated, ts).value.0) && GoodTokens(u, ParseIn(left, negated, ts).value.1, false)
    decreases |ts|, 5
  {
    hide ParseList, GoodTokens, CleanFrom;
    GoodBehind(u, ts, true, 1);
    ListBuilt(u, ts[1..]);
    var (es, rest) := ParseList(ts[1..]).value;
    GoodBehind(u, rest, false, 1);
  }

  // ---------------------------------------------------------------- parsed trees

  /** A number is not negative, and IN has a non-empty list. */
  predicate SettledLeaf(leaf: ConditionLeaf) {
    && (leaf.value.Number? ==> leaf.value.number >= 0)
    && (IsMembership(leaf.operator) ==> leaf.value.List? && leaf.value.items != [])
  }

  predicate Settled(node: ConditionNode) {
    match node
    case Leaf(leaf) => SettledLeaf(leaf)
    case And(children) => |children| == 2 && Settled(children[0]) && Settled(children[1])
    case Or(children) => |children| == 2 && Settled(children[0]) && Settled(children[1])
    case Not(inner) => Settled(inner)
  }

  lemma {:induction false} TupleStringsClean(u: Unicode, es: seq<Expr>)
    requires forall i | 0 <= i < |es| :: Built(u, es[i])
    ensures forall s | s in TupleStrings(es) :: CleanFrom(u, false, s)
  {
    hide CleanFrom;
    if es == [] {
    } else {
      TupleStringsClean(u, es[1..]);
    }
  }

  lemma {:induction false} ListItemsClean(u: Unicode, es: seq<Expr>)
    requires (forall i | 0 <= i < |es| :: Built(u, es[i])) && ListItems(es).Ok?
    ensures |ListItems(es).value| == |es| && forall s | s in ListItems(es).value :: CleanFrom(u, false, s)
    decreases |es|
  {
    hide CleanFrom;
    if es == [] {
    } else {
      ListItemsClean(u, es[..|es| - 1]);
    }
  }

  ghost predicate CleanValue(u: Unicode, value: FilterValue) {
    && (value.String? ==> CleanFrom(u, false, value.text))
    && (value.List? ==> forall s | s in value.items :: CleanFrom(u, false, s))
  }

  lemma ValueSettled(u: Unicode, e: Expr)
    requires Built(u, e) && ExtractValue(u, e).Ok?
    ensures CleanValue(u, ExtractValue(u, e).value) && (ExtractValue(u, e).value.Number? ==> ExtractValue(u, e).value.number >= 0)
  {
    hide CleanFrom, TupleStrings;
    if e.TupleOf? { TupleStringsClean(u, e.elements); }
  }

  lemma ConditionSettled(u: Unicode, e: Expr)
    requires Built(u, e) && !IsConnective(e) && ConvertCondition(u, e).Ok?
    ensures ConvertCondition(u, e).value.Leaf?
    ensures SettledLeaf(ConvertCondition(u, e).value.leaf) && CleanValue(u, ConvertCondition(u, e).value.leaf.value)
  {
    hide CleanFrom, ExtractField, ExtractValue, ListItems, ParseField, CleanValue;
    match e {
      case Binary(op, l, r) => ValueSettled(u, r);
      case Like(l, negated, r) => ValueSettled(u, r);
      case InList(l, negated, es) =>
        ListItemsClean(u, es);
        ItemsClean(u, ListItems(es));
      case _ => FlagClean(u);
    }
  }

  lemma ItemsClean(u: Unicode, r: Result<seq<string>, ParseError>)
    requires r.Ok? && forall s | s in r.value :: CleanFrom(u, false, s)
    ensures CleanValue(u, List(r.value))
  {
  }

  lemma FlagClean(u: Unicode)
    ensures CleanValue(u, Boolean(true))
  {
  }

  lemma CleanLeafKeywordFree(u: Unicode, leaf: ConditionLeaf)
    requires CleanValue(u, leaf.value)
    ensures KeywordFree(u, Leaf(leaf))
  {
    hide NsqlPreprocess.WordHere;
    if leaf.value.String? {
      CleanIsKeywordFree(u, leaf.value.text);
    } else if leaf.value.List? {
      forall i | 0 <= i < |leaf.value.items|
        ensures KeywordFreeText(u, leaf.value.items[i])
      {
        assert leaf.value.items[i] in leaf.value.items;
        CleanIsKeywordFree(u, leaf.value.items[i]);
      }
    }
  }

  lemma CleanIsKeywordFree(u: Unicode, s: string)
    requires CleanFrom(u, false, s)
    ensures KeywordFreeText(u, s)
  {
    hide NsqlPreprocess.WordHere;
  }

  lemma {:induction false} StripSettled(u: Unicode, e: Expr)
    requires Built(u, e) && Convertible(u, e)
    ensures Settled(Strip(u, e)) && PairsOnly(Strip(u, e)) && KeywordFree(u, Strip(u, e))
    decreases e
  {
    if !IsConnective(e) {
      hide SettledLeaf, CleanValue, ConvertCondition, CleanFrom;
      ConditionSettled(u, e);
      CleanLeafKeywordFree(u, ConvertCondition(u, e).value.leaf);
    } else {
      hide CleanFrom, ConvertCondition;
      match e {
        case Nested(inner) => StripSettled(u, inner);
        case UnaryNot(inner) => StripSettled(u, inner);
        case Binary(op, l, r) =>
          StripSettled(u, l);
          StripSettled(u, r);
          PairKeywordFree(u, Strip(u, l), Strip(u, r));
      }
    }
  }

  lemma PairKeywordFree(u: Unicode, a: ConditionNode, b: ConditionNode)
    requires KeywordFree(u, a) && KeywordFree(u, b)
    ensures KeywordFree(u, And([a, b])) && KeywordFree(u, Or([a, b]))
  {
    assert AllKeywordFree(u, []);
    AllKeywordFreeStep(u, b, []);
    AllKeywordFreeStep(u, a, [b]);
    assert [b] + [] == [b] && [a] + [b] == [a, b];
    hide AllKeywordFree, KeywordFree;
    KeywordFreeUnfold(u, [a, b]);
  }

  lemma AllKeywordFreeStep(u: Unicode, a: ConditionNode, nodes: seq<ConditionNode>)
    requires KeywordFree(u, a) && AllKeywordFree(u, nodes)
    ensures AllKeywordFree(u, [a] + nodes)
  {
    hide KeywordFree;
    assert ([a] + nodes)[1..] == nodes;
  }

  lemma KeywordFreeUnfold(u: Unicode, nodes: seq<ConditionNode>)
    ensures KeywordFree(u, And(nodes)) == AllKeywordFree(u, nodes) == KeywordFree(u, Or(nodes))
  {
  }

  // ---------------------------------------------------------------- the statement

  /** The two openings the parser puts in front of conditions. */
  function OpeningPieces(whole: bool): seq<Piece> { if whole then STATEMENT_HEAD + [Space] else STATEMENT_HEAD[..8] }

  lemma OpeningSpelled(whole: bool)
    ensures Flatten(OpeningPieces(whole)) == if whole then SELECT_PREFIX else "SELECT * FROM emails "
    ensures TokensOf(OpeningPieces(whole)) == if whole then SELECT_TOKENS else SELECT_TOKENS[..4]
  {
    hide Flatten, TokensOf, STATEMENT_HEAD, STATEMENT_TEXT, SELECT_PREFIX, SELECT_TOKENS;
    HeadSpelled();
    PrefixIsStatement();
    SelectTokens();
    if whole {
      FlattenConcat(STATEMENT_HEAD, [Space]);
      FlattenOne(Space);
      assert SELECT_TOKENS + [] == SELECT_TOKENS;
    } else {
      HeadCut();
      FlattenConcat(STATEMENT_HEAD[..8], [WordPiece("WHERE")]);
      FlattenOne(WordPiece("WHERE"));
      CutWhere(Flatten(STATEMENT_HEAD[..8]), TokensOf(STATEMENT_HEAD[..8]));
    }
  }

  lemma SelectTokens()
    ensures SELECT_TOKENS == [Word("SELECT"), Sym(Star), Word("FROM"), Word("emails"), Word("WHERE")]
  {
  }

  lemma HeadCut()
    ensures |STATEMENT_HEAD| == 9 && STATEMENT_HEAD == STATEMENT_HEAD[..8] + [WordPiece("WHERE")] && STATEMENT_HEAD[7] == Space
  {
  }

  lemma CutWhere(text: string, ts: seq<Token>)
    requires text + "WHERE" == STATEMENT_TEXT && ts + [Word("WHERE")] == SELECT_TOKENS
    ensures text == "SELECT * FROM emails " && ts == SELECT_TOKENS[..4]
  {
    assert "SELECT * FROM emails " + "WHERE" == STATEMENT_TEXT;
    assert STATEMENT_TEXT[..|text|] == text && STATEMENT_TEXT[..|"SELECT * FROM emails "|] == "SELECT * FROM emails ";
    assert (ts + [Word("WHERE")])[..4] == ts;
  }

  lemma OpeningOpen(whole: bool)
    ensures NsqlReading.OpenEnded(OpeningPieces(whole))
  {
    hide WellSpaced, WellSpacedOpen, STATEMENT_HEAD, KnownPiece, Follows;
    HeadOpen(Some(Space));
    NsqlFront.OpenFront(Space, None);
    OpenConcat(STATEMENT_HEAD, [Space], None);
    OpenIsClosed(STATEMENT_HEAD + [Space]);
    if !whole {
      HeadCut();
      CutSpaced(STATEMENT_HEAD + [Space], 8);
      assert (STATEMENT_HEAD + [Space])[..8] == STATEMENT_HEAD[..8];
    }
  }

  /** Well-spaced text may end at any space. */
  lemma {:induction false} CutSpaced(ps: seq<Piece>, n: nat)
    requires WellSpaced(ps) && 0 < n <= |ps| && ps[n - 1] == Space
    ensures WellSpaced(ps[..n])
    decreases n
  {
    if n == 1 {
      assert ps[..1] == [ps[0]] && [ps[0]][1..] == [];
    } else {
      hide KnownPiece, Follows;
      CutSpaced(ps[1..], n - 1);
      assert ps[..n][1..] == ps[1..][..n - 1] && Head(ps[..n][1..]) == Head(ps[1..]);
    }
  }

  /** What stands behind WHERE in a statement made from clean text is good. */
  lemma StatementIsGood(u: Unicode, text: string)
    requires u.Valid() && CleanFrom(u, false, text) && Lex(u, FullStatement(u, text)).Some?
    ensures var ts := Lex(u, FullStatement(u, text)).value; |ts| > 5 && IsWord(ts[4], "WHERE") ==> GoodTokens(u, ts[5..], true)
  {
    var full := FullStatement(u, text);
    var ts := Lex(u, full).value;
    assert full == text || full == "SELECT * FROM emails " + text || full == SELECT_PREFIX + text;
    hide *;
    if |ts| > 5 && IsWord(ts[4], "WHERE") {
      WhereIsWord(ts[4]);
      if full == text {
        LexedIsGood(u, false, text);
        NotInside(u, text);
        GoodBehind(u, ts, true, 5);
      } else {
        var whole := full == SELECT_PREFIX + text;
        OpeningSpelled(whole);
        OpeningOpen(whole);
        NsqlReading.LexFront(u, OpeningPieces(whole), text);
        NsqlReading.TokensBehind(TokensOf(OpeningPieces(whole)), Lex(u, text));
        LexedIsGood(u, false, text);
        NotInside(u, text);
        FrontLength();
        BehindFront(u, TokensOf(OpeningPieces(whole)), Lex(u, text).value);
      }
    }
  }

  lemma BehindFront(u: Unicode, front: seq<Token>, rest: seq<Token>)
    requires |front| == 5 || |front| == 4
    requires |front + rest| > 5 && (front + rest)[4].Word? && GoodTokens(u, rest, true)
    ensures GoodTokens(u, (front + rest)[5..], true)
  {
    hide GoodTokens;
    var ts := front + rest;
    if |front| == 5 {
      assert ts[5..] == rest;
    } else {
      assert ts[4] == rest[0] && ts[5..] == rest[1..];
      GoodBehind(u, rest, true, 1);
    }
  }

  lemma WhereIsWord(t: Token)
    requires IsWord(t, "WHERE")
    ensures t.Word?
  {
  }

  lemma NotInside(u: Unicode, text: string)
    ensures !MayContinue(u, false, text)
  {
  }

  lemma FrontLength()
    ensures |SELECT_TOKENS| == 5 && |SELECT_TOKENS[..4]| == 4
  {
  }

  lemma SelectParts(ts: seq<Token>)
    requires ParseSelect(ts).Some?
    ensures |ts| > 5 && IsWord(ts[4], "WHERE") && ParseSub(0, ts[5..]).Some? && ParseSub(0, ts[5..]).value.0 == ParseSelect(ts).value
  {
    hide ParseSub, SameIgnoreCase;
  }

  /** Conditions that parse are settled pairs without rewritten words, at most ten deep. */
  lemma ParsedConditionsShape(u: Unicode, text: string)
    requires u.Valid() && ParseConditions(u, text).Ok?
    ensures var node := ParseConditions(u, text).value;
            Settled(node) && PairsOnly(node) && KeywordFree(u, node) && Depth(node) <= MAX_AST_DEPTH
  {
    ParsedConditionsWithinDepth(u, text);
    var clean := NsqlPreprocess.Preprocess(u, Trim(text));
    var ts := Lex(u, FullStatement(u, clean)).value;
    var e := ParseSelect(ts).value;
    assert ParseConditions(u, text) == ConvertExpr(u, e, 1);
    assert clean == NsqlPreprocess.RewriteWords(u, NsqlPreprocess.ReplaceHeaders(Trim(text)));
    hide *;
    RewrittenIsClean(u, NsqlPreprocess.ReplaceHeaders(Trim(text)));
    StatementIsGood(u, clean);
    SelectParts(ts);
    SubBuilt(u, 0, ts[5..]);
    DepthDiscipline(u, e, 1);
    StripSettled(u, e);
  }

  // ---------------------------------------------------------------- parsed actions

  /** A target the parser lets through. */
  predicate ParsedTarget(action: RuleAction) {
    HasTarget(action) ==> action.target != "" && action.target[0] != '"' && action.target[|action.target| - 1] != '"'
  }

  lemma {:induction false} TrimCharStartFacts(s: string, c: char)
    ensures TrimCharStart(s, c) == "" || TrimCharStart(s, c)[0] != c
  {
    if s == "" || s[0] != c {
    } else {
      TrimCharStartFacts(s[1..], c);
    }
  }

  lemma {:induction false} TrimCharEndFacts(s: string, c: char)
    ensures TrimCharEnd(s, c) <= s
    ensures TrimCharEnd(s, c) == "" || TrimCharEnd(s, c)[|TrimCharEnd(s, c)| - 1] != c
  {
    if s == "" || s[|s| - 1] != c {
    } else {
      TrimCharEndFacts(s[..|s| - 1], c);
    }
  }

  lemma TargetParsed(chunk: string, width: nat)
    requires TargetOf(chunk, width).Ok?
    ensures var t := TargetOf(chunk, width).value; t != "" && t[0] != '"' && t[|t| - 1] != '"'
  {
    hide Trim, TrimCharStart, TrimCharEnd, ByteDrop;
    var x := TrimChar(Trim(ByteDrop(chunk, width).value), '\'');
    TrimCharStartFacts(x, '"');
    TrimCharEndFacts(TrimCharStart(x, '"'), '"');
  }

  lemma ActionParsed(u: Unicode, chunk: string)
    requires ParseAction(u, chunk).Ok?
    ensures ParsedTarget(ParseAction(u, chunk).value)
  {
    hide TargetOf, Unicode.Upper;
    if TargetOf(chunk, 7).Ok? { TargetParsed(chunk, 7); }
    if TargetOf(chunk, 10).Ok? { TargetParsed(chunk, 10); }
    if TargetOf(chunk, 12).Ok? { TargetParsed(chunk, 12); }
  }

  lemma {:induction false} ChunksParsed(u: Unicode, chunks: seq<string>)
    requires ParseChunks(u, chunks).Ok?
    ensures forall a | a in ParseChunks(u, chunks).value :: ParsedTarget(a)
  {
    hide ParseAction, Trim, ParsedTarget;
    if chunks == [] {
    } else if Trim(chunks[0]) == "" {
      ChunksParsed(u, chunks[1..]);
    } else {
      ActionParsed(u, Trim(chunks[0]));
      ChunksParsed(u, chunks[1..]);
    }
  }

  // ---------------------------------------------------------------- parsed rules

  /** Every parsed rule, whatever its text: pairs at most ten deep, no negative number and no empty IN list, no
      rewritten word in a literal, and no target that is empty or starts or ends with a double quote. */
  lemma ParsedRuleShape(u: Unicode, text: string)
    requires u.Valid() && ParseRule(u, text).Ok?
    ensures var r := ParseRule(u, text).value;
            && PairsOnly(r.conditions) && Depth(r.conditions) <= MAX_AST_DEPTH
            && Settled(r.conditions) && KeywordFree(u, r.conditions)
            && forall a | a in r.actions :: ParsedTarget(a)
  {
    var body := ExtractOnAccount(text).value.1;
    var (where, actions) := SplitWhereAndActions(u, body).value;
    assert ParseConditions(u, where).Ok? && ParseConditions(u, where).value == ParseRule(u, text).value.conditions;
    assert actions == ParseRule(u, text).value.actions;
    SplitActionsParsed(u, body);
    hide *;
    ParsedConditionsShape(u, where);
  }

  lemma SplitActionsParsed(u: Unicode, body: string)
    requires SplitWhereAndActions(u, body).Ok?
    ensures forall a | a in SplitWhereAndActions(u, body).value.1 :: ParsedTarget(a)
  {
    hide ParseChunks, Trim, CutAt, SplitFrom, ParsedTarget;
    var cut := CutAt(Trim(body), ACTION);
    var clause := if cut.Some? then cut.value.1 else "";
    if Trim(clause) != "" { ChunksParsed(u, SplitCommas(clause)); }
  }

  /** Lists outside IN have two items or more. */
  predicate TuplesWide(node: ConditionNode) {
    match node
    case Leaf(leaf) => leaf.value.List? && !IsMembership(leaf.operator) ==> |leaf.value.items| >= 2
    case And(children) => forall i | 0 <= i < |children| :: TuplesWide(children[i])
    case Or(children) => forall i | 0 <= i < |children| :: TuplesWide(children[i])
    case Not(inner) => TuplesWide(inner)
  }

  lemma {:induction false} SettledReadsBack(node: ConditionNode)
    requires Settled(node)
    ensures ReadsBack(node) <==> TuplesWide(node)
    decreases node
  {
    match node {
      case Leaf(_) =>
      case Not(inner) => SettledReadsBack(inner);
      case _ =>
        var children := node.children;
        SettledReadsBack(children[0]);
        SettledReadsBack(children[1]);
        PairReadsBack(children);
    }
  }

  lemma PairReadsBack(children: seq<ConditionNode>)
    requires |children| == 2
    ensures AllReadBack(children) <==> ReadsBack(children[0]) && ReadsBack(children[1])
  {
    hide ReadsBack;
    var rest := children[1..];
    assert rest[0] == children[1] && rest[1..] == [];
    assert AllReadBack(rest[1..]);
    assert AllReadBack(rest) <==> ReadsBack(rest[0]);
  }

  /** The target neither starts nor ends with a single quote. */
  predicate NoQuoteAtEnds(action: RuleAction) {
    HasTarget(action) && action.target != "" ==> action.target[0] != '\'' && action.target[|action.target| - 1] != '\''
  }

  lemma ParsedPlain(action: RuleAction)
    requires ParsedTarget(action)
    ensures PlainAction(action) <==> NoQuoteAtEnds(action)
  {
  }

  /** A parsed rule without header conditions comes back from its printed form exactly when no literal holds a
      single quote, no header pattern stands in it, every list outside IN kept two items, no account clause and no
      separator is found in a target, and none starts or ends with a single quote. */
  lemma ParsedRuleRoundTrips(u: Unicode, text: string)
    requires u.Valid() && ParseRule(u, text).Ok?
    requires var r := ParseRule(u, text).value;
             && HeaderFreeNode(r.conditions)
             && ((Unquoted(r.conditions) && NoHeaderPattern(r.conditions)) || NsqlLost.TuplesPlain(r.conditions))
    ensures var r := ParseRule(u, text).value;
            RoundTripInvariant(u, r.conditions, r.actions) <==>
              && Unquoted(r.conditions) && NoHeaderPattern(r.conditions) && TuplesWide(r.conditions)
              && NoAccountClause(r.conditions, r.actions) && Separable(r.actions)
              && forall a | a in r.actions :: NoQuoteAtEnds(a)
  {
    var r := ParseRule(u, text).value;
    hide ParseRule, RoundTripInvariant, Unquoted, TuplesWide, Separable, HeaderFreeNode, NoHeaderPattern, NoAccountClause, PlainAction,
         NoQuoteAtEnds, ParsedTarget, ReadsBack, Settled, PairsOnly, KeywordFree, Depth, Unicode.Valid, NsqlLost.TuplesPlain;
    ParsedRuleShape(u, text);
    SettledReadsBack(r.conditions);
    forall a | a in r.actions
      ensures PlainAction(a) <==> NoQuoteAtEnds(a)
    {
      ParsedPlain(a);
    }
    NsqlExact.RuleRoundTrips(u, r.conditions, r.actions);
  }

  /** Where neither literals nor targets hold single quotes, printing and parsing a parsed rule is lossless
      exactly when every list outside IN kept two items: the parser drops what is no string from such a list,
      and a list of one then reads as parentheses. */
  lemma ParsedRuleIsStable(u: Unicode, text: string)
    requires u.Valid() && ParseRule(u, text).Ok?
    requires var r := ParseRule(u, text).value;
             Unquoted(r.conditions) && NoOpenHeader(r.conditions) && forall a | a in r.actions :: QuoteFree(a)
    ensures var r := ParseRule(u, text).value;
            RoundTripInvariant(u, r.conditions, r.actions) <==> TuplesWide(r.conditions)
  {
    var r := ParseRule(u, text).value;
    hide ParseRule, RoundTripInvariant, Unquoted, TuplesWide, NoOpenHeader, ReadsBack, Settled, PairsOnly, KeywordFree, Depth, Unicode.Valid;
    ParsedRuleShape(u, text);
    SettledReadsBack(r.conditions);
    forall a | a in r.actions
      ensures PlainAction(a)
    {
      QuoteFreePlain(a);
    }
    PlainRuleRoundTrips(u, r.conditions, r.actions);
  }

  lemma QuoteFreePlain(action: RuleAction)
    requires ParsedTarget(action) && QuoteFree(action)
    ensures PlainAction(action)
  {
    if HasTarget(action) {
      assert action.target[0] in action.target && action.target[|action.target| - 1] in action.target;
    }
  }
}
