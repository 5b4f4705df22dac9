/** Printing a rule and parsing the text again. */
module NsqlRoundTrip {
  import opened Wrappers
  import opened Text
  import opened NsqlAst
  import opened NsqlScanner
  import opened NsqlActions
  import NsqlPreprocess
  import NsqlConvert
  import opened NsqlRule
  import SqlSubset
  import opened NsqlPieces
  import opened NsqlPrinted
  import opened NsqlReread

  // ---------------------------------------------------------------- where the keywords stand

  /** No word of the text starts with an `o`. */
  lemma NoWordStartsWithO(s: string)
    requires forall i | 0 <= i < |s| :: !IsQuote(s[i]) && (StartsWord(s, i) ==> !EqIgnoreCase(s[i], 'o'))
    ensures Quiet(s, ON_ACCOUNT)
  {
    AfterPlain(s);
    forall i | 0 <= i < |s| && StartsWord(s, i)
      ensures MismatchAt(s, ON_ACCOUNT, i)
    {
      assert !EqIgnoreCase(s[i + 0], ON_ACCOUNT[0]);
    }
  }

  lemma KeywordIsQuiet(action: RuleAction)
    ensures Quiet(Keyword(action), ON_ACCOUNT)
  {
    hide Quiet;
    NoWordStartsWithO(Keyword(action));
  }

  lemma SeparatorsAreQuiet()
    ensures Quiet(" ", ON_ACCOUNT) && Quiet(", ", ON_ACCOUNT) && Quiet(ACTION, ON_ACCOUNT)
  {
    hide Quiet;
    NoWordStartsWithO(" ");
    NoWordStartsWithO(", ");
    NoWordStartsWithO(ACTION);
  }

  lemma ActionTextIsQuiet(action: RuleAction)
    requires QuoteFree(action)
    ensures Quiet(ActionText(action), ON_ACCOUNT)
  {
    hide Quiet, Keyword, ActionText;
    ActionTextShape(action);
    KeywordIsQuiet(action);
    if HasTarget(action) {
      var quoted := "'" + action.target + "'";
      assert ActionText(action) == Keyword(action) + (" " + quoted);
      SeparatorsAreQuiet();
      QuotedIsQuiet(action.target, ON_ACCOUNT);
      QuietConcat(" ", quoted, ON_ACCOUNT);
      QuietConcat(Keyword(action), " " + quoted, ON_ACCOUNT);
    } else {
      assert Keyword(action) + "" == Keyword(action);
    }
  }

  /** A clause whose targets hold no single quotes holds no ON ACCOUNT outside them. */
  lemma {:induction false} ClauseIsQuiet(actions: seq<RuleAction>)
    requires forall a | a in actions :: QuoteFree(a)
    ensures Quiet(ActionsClause(actions), ON_ACCOUNT)
    decreases |actions|
  {
    if actions == [] {
      NoActions();
    } else {
      hide Quiet, ActionText, ActionsClause, ClauseTail;
      ClauseShape(actions);
      ActionTextIsQuiet(actions[0]);
      assert forall a | a in actions[1..] :: a in actions;
      ClauseIsQuiet(actions[1..]);
      TailIsQuiet(actions[1..]);
      QuietConcat(ActionText(actions[0]), ClauseTail(actions[1..]), ON_ACCOUNT);
    }
  }

  lemma TailIsQuiet(actions: seq<RuleAction>)
    requires Quiet(ActionsClause(actions), ON_ACCOUNT)
    ensures Quiet(ClauseTail(actions), ON_ACCOUNT)
  {
    hide Quiet, ActionsClause;
    if actions == [] {
      NoActions();
    } else {
      SeparatorsAreQuiet();
      QuietConcat(", ", ActionsClause(actions), ON_ACCOUNT);
    }
  }

  /** A printed clause neither starts nor ends with whitespace. */
  lemma {:induction false} ClauseTrimmed(actions: seq<RuleAction>)
    requires actions != []
    ensures ActionsClause(actions) != "" && Trimmed(ActionsClause(actions))
    decreases |actions|
  {
    ClauseShape(actions);
    ActionTextTrimmed(actions[0]);
    if |actions| == 1 {
      hide ActionText, ActionsClause;
      assert ActionText(actions[0]) + "" == ActionText(actions[0]);
    } else {
      ClauseTrimmed(actions[1..]);
      hide ActionText, ActionsClause;
      TrimmedEnds(ActionText(actions[0]), ", ", ActionsClause(actions[1..]));
    }
  }

  lemma TrimmedEnds(a: string, sep: string, b: string)
    requires a != "" && b != "" && Trimmed(a) && Trimmed(b)
    ensures a + (sep + b) != "" && Trimmed(a + (sep + b))
  {
    var s := a + (sep + b);
    assert s[0] == a[0] && s[|s| - 1] == b[|b| - 1];
  }

  function ConditionsPart(conditions: ConditionNode): string { SELECT_PREFIX + NodeText(conditions) }

  /** The printed conditions hold neither keyword outside literals, with or without a space behind them. */
  lemma ConditionsAreQuiet(conditions: ConditionNode, kw: string)
    requires Unquoted(conditions) && (kw == ACTION || kw == ON_ACCOUNT)
    ensures Quiet(ConditionsPart(conditions), kw) && Quiet(ConditionsPart(conditions) + " ", kw)
    ensures Quiet(Flatten(StatementPieces(conditions, false)), kw)
  {
    hide Quiet, Flatten, StatementPieces, NodePieces, NodeText, WellSpaced, KnownPiece;
    var ps := StatementPieces(conditions, false);
    StatementWellSpaced(conditions, false);
    WellSpacedKnown(ps);
    PiecesAreQuiet(ps, kw);
    StatementSpelled(conditions);
    SpaceIsQuiet(kw);
    QuietConcat(Flatten(ps), " ", kw);
    if NodePieces(conditions, false) == [] {
      assert ConditionsPart(conditions) == Flatten(ps) + " ";
    } else {
      assert ConditionsPart(conditions) == Flatten(ps) + "" == Flatten(ps);
    }
    QuietConcat(ConditionsPart(conditions), " ", kw);
  }

  lemma SpaceIsQuiet(kw: string)
    requires kw == ACTION || kw == ON_ACCOUNT
    ensures Quiet(" ", kw)
  {
    PieceIsQuiet(Space, kw);
  }

  // ---------------------------------------------------------------- a rule without actions

  lemma BareRule(u: Unicode, conditions: ConditionNode)
    requires u.Valid() && Unquoted(conditions)
    ensures var statement := Flatten(StatementPieces(conditions, false));
            && ExtractOnAccount(ConditionsPart(conditions)) == Ok(("*", statement))
            && SplitWhereAndActions(u, statement) == Ok((statement, []))
  {
    hide Trim, Trimmed, StatementPieces, Flatten, FindKeyword, Quiet, NodeText;
    var statement := Flatten(StatementPieces(conditions, false));
    StatementTrims(conditions);
    StatementTrimmed(conditions);
    TrimIdentity(statement);
    ConditionsAreQuiet(conditions, ON_ACCOUNT);
    QuietHasNoKeyword(statement, ON_ACCOUNT);
    ConditionsAreQuiet(conditions, ACTION);
    QuietHasNoKeyword(statement, ACTION);
    TrimNothing();
  }

  // ---------------------------------------------------------------- a rule with actions

  /** The text of a rule with actions, cut at the keyword. */
  lemma RuleTextParts(conditions: ConditionNode, actions: seq<RuleAction>)
    requires ActionsClause(actions) != ""
    ensures RuleText(conditions, actions) == (ConditionsPart(conditions) + " ") + ACTION + (" " + ActionsClause(actions))
  {
    hide NodeText, ActionsClause;
    var c, clause := ConditionsPart(conditions), ActionsClause(actions);
    assert " ACTION " == " " + ACTION + " ";
    assert c + " ACTION " + clause == (c + " ") + ACTION + (" " + clause);
  }

  lemma RuleTextIsTrimmed(conditions: ConditionNode, clause: string)
    requires clause != "" && Trimmed(clause)
    ensures Trimmed((ConditionsPart(conditions) + " ") + ACTION + (" " + clause))
  {
    hide NodeText;
    var text := (ConditionsPart(conditions) + " ") + ACTION + (" " + clause);
    assert text[0] == SELECT_PREFIX[0] && text[|text| - 1] == clause[|clause| - 1];
  }

  lemma CutAtAction(before: string, clause: string)
    requires Quiet(before, ACTION) && before != "" && before[|before| - 1] == ' '
    ensures CutAt(before + ACTION + (" " + clause), ACTION) == Some((before, " " + clause))
  {
    hide Quiet, FindKeyword;
    KeywordAfterQuiet(before, ACTION, " " + clause);
    var text := before + ACTION + (" " + clause);
    assert text[..|before|] == before && text[|before| + |ACTION|..] == " " + clause;
  }

  /** No ON ACCOUNT stands outside quotes in the printed rule. */
  predicate NoAccountClause(conditions: ConditionNode, actions: seq<RuleAction>) {
    FindKeyword(Trim(RuleText(conditions, actions)), ON_ACCOUNT).None?
  }

  lemma FullRule(u: Unicode, conditions: ConditionNode, actions: seq<RuleAction>)
    requires u.Valid() && Unquoted(conditions) && actions != [] && NoAccountClause(conditions, actions)
    ensures var text := RuleText(conditions, actions);
            var statement := Flatten(StatementPieces(conditions, false));
            var parsed := ParseActionsText(u, ActionsClause(actions));
            && ExtractOnAccount(text) == Ok(("*", text))
            && SplitWhereAndActions(u, text) == if parsed.Err? then Err(parsed.error) else Ok((statement, parsed.value))
  {
    hide Trim, Trimmed, StatementPieces, Flatten, FindKeyword, Quiet, NodeText, ParseActionsText, ActionsClause, RuleText;
    var text, clause, before := RuleText(conditions, actions), ActionsClause(actions), ConditionsPart(conditions) + " ";
    ClauseTrimmed(actions);
    RuleTextParts(conditions, actions);
    RuleTextIsTrimmed(conditions, clause);
    TrimIdentity(text);
    ConditionsAreQuiet(conditions, ACTION);
    CutAtAction(before, clause);
    PaddedTrim(" ", clause);
    LeadingBlank(u, clause);
    StatementTrims(conditions);
  }

  /** Without single quotes in literals and targets there never is one. */
  lemma QuoteFreeNoAccountClause(conditions: ConditionNode, actions: seq<RuleAction>)
    requires Unquoted(conditions) && forall a | a in actions :: QuoteFree(a)
    ensures NoAccountClause(conditions, actions)
  {
    hide Trim, Trimmed, StatementPieces, Flatten, FindKeyword, Quiet, NodeText, ActionsClause, RuleText;
    ConditionsAreQuiet(conditions, ON_ACCOUNT);
    if actions == [] {
      NoActionsNoClause(conditions);
      StatementTrims(conditions);
      QuietHasNoKeyword(Flatten(StatementPieces(conditions, false)), ON_ACCOUNT);
    } else {
      var text, clause, before := RuleText(conditions, actions), ActionsClause(actions), ConditionsPart(conditions) + " ";
      ClauseTrimmed(actions);
      RuleTextParts(conditions, actions);
      RuleTextIsTrimmed(conditions, clause);
      TrimIdentity(text);
      ClauseIsQuiet(actions);
      SeparatorsAreQuiet();
      QuietConcat(before, ACTION, ON_ACCOUNT);
      QuietConcat(" ", clause, ON_ACCOUNT);
      QuietConcat(before + ACTION, " " + clause, ON_ACCOUNT);
      QuietHasNoKeyword(text, ON_ACCOUNT);
    }
  }

  lemma NoActionsNoClause(conditions: ConditionNode)
    ensures RuleText(conditions, []) == ConditionsPart(conditions)
  {
    assert ActionTexts([]) == [];
  }

  /** What a printed rule parses to, and when it parses at all: the account is always the wildcard, the
      conditions come back nested to the left and with the two keywords rewritten inside literals, the
      actions as the clause alone reads. */
  lemma RuleRereads(u: Unicode, conditions: ConditionNode, actions: seq<RuleAction>)
    requires u.Valid() && Unquoted(conditions) && NoHeaderPattern(conditions) && NoAccountClause(conditions, actions)
    ensures var r := ParseRule(u, RuleText(conditions, actions));
            var reread := LeftNested(RewriteNode(u, conditions));
            var parsed := ParseActionsText(u, ActionsClause(actions));
            && (r.Ok? <==> ReadsBack(conditions) && Depth(reread) <= NsqlConvert.MAX_AST_DEPTH && parsed.Ok?)
            && (r.Ok? ==> r.value == ParsedRule("*", reread, parsed.value))
  {
    hide RuleText, ExtractOnAccount, SplitWhereAndActions, ParseConditions, StatementPieces, Flatten, ReadsBack, LeftNested,
         RewriteNode, Depth, ParseActionsText, NoHeaderPattern, ActionsClause, Unicode.Valid, Unquoted, NoAccountClause;
    if actions == [] {
      NoActionsNoClause(conditions);
      BareRule(u, conditions);
      NothingToParse(u);
    } else {
      FullRule(u, conditions, actions);
    }
    ParseStatement(u, conditions);
  }

  lemma NothingToParse(u: Unicode)
    ensures ParseActionsText(u, ActionsClause([])) == Ok([])
  {
    NoActions();
    assert SplitCommas("") == [];
  }

  // ---------------------------------------------------------------- which rules come back unchanged

  /** Every AND and OR has exactly two operands, as the parser builds them. */
  predicate PairsOnly(node: ConditionNode) {
    match node
    case Leaf(_) => true
    case And(children) => |children| == 2 && PairsOnly(children[0]) && PairsOnly(children[1])
    case Or(children) => |children| == 2 && PairsOnly(children[0]) && PairsOnly(children[1])
    case Not(inner) => PairsOnly(inner)
  }

  ghost predicate KeywordFreeText(u: Unicode, s: string) {
    !NsqlPreprocess.HasWord(u, s, NsqlPreprocess.CONTAINS_WORD) && !NsqlPreprocess.HasWord(u, s, NsqlPreprocess.MATCHES_WORD)
  }

  /** No literal holds CONTAINS or MATCHES as a whole word. */
  ghost predicate KeywordFree(u: Unicode, node: ConditionNode) {
    match node
    case Leaf(leaf) =>
      && (leaf.value.String? ==> KeywordFreeText(u, leaf.value.text))
      && (leaf.value.List? ==> forall i | 0 <= i < |leaf.value.items| :: KeywordFreeText(u, leaf.value.items[i]))
    case And(children) => AllKeywordFree(u, children)
    case Or(children) => AllKeywordFree(u, children)
    case Not(inner) => KeywordFree(u, inner)
  }

  ghost predicate AllKeywordFree(u: Unicode, nodes: seq<ConditionNode>) {
    nodes == [] || (KeywordFree(u, nodes[0]) && AllKeywordFree(u, nodes[1..]))
  }

  lemma LeafKeptIffKeywordFree(u: Unicode, leaf: ConditionLeaf)
    ensures RewriteLeaf(u, leaf) == leaf <==> KeywordFree(u, Leaf(leaf))
  {
    hide NsqlPreprocess.RewriteWords, KeywordFreeText;
    match leaf.value {
      case String(s) =>
        TextKeptIffKeywordFree(u, s);
      case List(items) =>
        forall i | 0 <= i < |items|
          ensures RewriteItems(u, items)[i] == items[i] <==> KeywordFreeText(u, items[i])
        {
          TextKeptIffKeywordFree(u, items[i]);
        }
        assert RewriteItems(u, items) == items <==> forall i | 0 <= i < |items| :: RewriteItems(u, items)[i] == items[i];
      case _ =>
    }
  }

  lemma TextKeptIffKeywordFree(u: Unicode, s: string)
    ensures NsqlPreprocess.RewriteWords(u, s) == s <==> KeywordFreeText(u, s)
  {
    NsqlPreprocess.RewriteKeepsIffAbsent(u, s);
  }

  lemma {:induction false} NodeKeptIffKeywordFree(u: Unicode, node: ConditionNode)
    ensures RewriteNode(u, node) == node <==> KeywordFree(u, node)
    decreases node
  {
    match node {
      case Leaf(leaf) => LeafKeptIffKeywordFree(u, leaf);
      case And(children) => NodesKeptIffKeywordFree(u, children);
      case Or(children) => NodesKeptIffKeywordFree(u, children);
      case Not(inner) => NodeKeptIffKeywordFree(u, inner);
    }
  }

  lemma {:induction false} NodesKeptIffKeywordFree(u: Unicode, nodes: seq<ConditionNode>)
    ensures RewriteNodes(u, nodes) == nodes <==> AllKeywordFree(u, nodes)
    decreases nodes
  {
    if nodes == [] {
    } else {
      NodeKeptIffKeywordFree(u, nodes[0]);
      NodesKeptIffKeywordFree(u, nodes[1..]);
      var r := RewriteNodes(u, nodes);
      assert r[0] == RewriteNode(u, nodes[0]) && r[1..] == RewriteNodes(u, nodes[1..]);
      assert nodes == [nodes[0]] + nodes[1..];
    }
  }

  /** Only pairs come back, and pairs come back as they are. */
  lemma {:induction false} LeftNestedIsPairs(node: ConditionNode)
    requires ReadsBack(node)
    ensures PairsOnly(LeftNested(node))
    ensures PairsOnly(node) ==> LeftNested(node) == node
    decreases node, 1
  {
    match node {
      case Leaf(_) =>
      case And(children) => ChildrenArePairs(SqlSubset.AndOp, children);
      case Or(children) => ChildrenArePairs(SqlSubset.OrOp, children);
      case Not(inner) => LeftNestedIsPairs(inner);
    }
  }

  lemma {:induction false} ChildrenArePairs(op: SqlSubset.BinaryOp, children: seq<ConditionNode>)
    requires children != [] && AllReadBack(children) && (op == SqlSubset.AndOp || op == SqlSubset.OrOp)
    ensures PairsOnly(FoldNodes(op, LeftNested(children[0]), children[1..]))
    ensures |children| == 2 && PairsOnly(children[0]) && PairsOnly(children[1]) ==>
              FoldNodes(op, LeftNested(children[0]), children[1..]) == Pair(op, children[0], children[1]) &&
              children == [children[0], children[1]]
    decreases children, 0
  {
    LeftNestedIsPairs(children[0]);
    FoldIsPairs(op, LeftNested(children[0]), children[1..]);
    if |children| == 2 {
      LeftNestedIsPairs(children[1]);
      assert children[1..][1..] == [];
    }
  }

  lemma {:induction false} FoldIsPairs(op: SqlSubset.BinaryOp, left: ConditionNode, nodes: seq<ConditionNode>)
    requires PairsOnly(left) && AllReadBack(nodes) && (op == SqlSubset.AndOp || op == SqlSubset.OrOp)
    ensures PairsOnly(FoldNodes(op, left, nodes))
    decreases nodes
  {
    if nodes == [] {
    } else {
      LeftNestedIsPairs(nodes[0]);
      FoldIsPairs(op, Pair(op, left, LeftNested(nodes[0])), nodes[1..]);
    }
  }

  lemma {:induction false} RewriteKeepsPairs(u: Unicode, node: ConditionNode)
    ensures PairsOnly(RewriteNode(u, node)) == PairsOnly(node)
    decreases node
  {
    match node {
      case Leaf(_) =>
      case Not(inner) => RewriteKeepsPairs(u, inner);
      case _ =>
        var children := node.children;
        if |children| == 2 {
          RewriteKeepsPairs(u, children[0]);
          RewriteKeepsPairs(u, children[1]);
          assert RewriteNodes(u, children) == [RewriteNode(u, children[0]), RewriteNode(u, children[1])] by {
            assert children[1..][0] == children[1] && children[1..][1..] == [];
            assert RewriteNodes(u, children[1..]) == [RewriteNode(u, children[1])];
          }
        }
    }
  }

  /** `verify_roundtrip_invariant`. */
  predicate RoundTripInvariant(u: Unicode, conditions: ConditionNode, actions: seq<RuleAction>) {
    var r := ParseRule(u, RuleText(conditions, actions));
    r.Ok? && r.value.conditions == conditions && r.value.actions == actions
  }

  // ---------------------------------------------------------------- exactly

  /** Without quotes and header patterns in the literals, and without an account clause among the targets: the
      printed rule gives back its conditions and actions exactly when no literal holds one of the rewritten
      words, every AND and OR is a pair, the tree is at most ten deep, every leaf reads back, the clause falls
      apart at its separators alone, and no target is empty or starts or ends with a quote. */
  lemma UndisturbedRoundTrips(u: Unicode, conditions: ConditionNode, actions: seq<RuleAction>)
    requires u.Valid() && Unquoted(conditions) && NoHeaderPattern(conditions) && NoAccountClause(conditions, actions)
    ensures RoundTripInvariant(u, conditions, actions) <==>
            && KeywordFree(u, conditions)
            && PairsOnly(conditions) && Depth(conditions) <= NsqlConvert.MAX_AST_DEPTH && ReadsBack(conditions)
            && Separable(actions) && forall a | a in actions :: PlainAction(a)
  {
    hide ParseRule, RuleText, Unquoted, PairsOnly, Depth, ReadsBack, KeywordFree, LeftNested, RewriteNode, PlainAction, Unicode.Valid,
         Separable, ParseActionsText, ActionsClause, NoHeaderPattern, NoAccountClause, RereadAll, FindKeyword, HeaderFreeNode;
    RuleRereads(u, conditions, actions);
    ActionsRoundTrip(u, actions);
    NodeKeptIffKeywordFree(u, conditions);
    RewriteKeepsPairs(u, conditions);
    UnquotedIsHeaderFree(conditions);
    RewriteKeepsShape(u, conditions);
    if ReadsBack(conditions) { LeftNestedIsPairs(RewriteNode(u, conditions)); }
  }

  /** When neither literals nor targets hold single quotes and no literal ends like an open header, the
      printed text is under control and the condition speaks of the rule alone. */
  lemma PlainRuleRoundTrips(u: Unicode, conditions: ConditionNode, actions: seq<RuleAction>)
    requires u.Valid() && Unquoted(conditions) && NoOpenHeader(conditions) && forall a | a in actions :: QuoteFree(a)
    ensures RoundTripInvariant(u, conditions, actions) <==>
            && KeywordFree(u, conditions)
            && PairsOnly(conditions) && Depth(conditions) <= NsqlConvert.MAX_AST_DEPTH && ReadsBack(conditions)
            && forall a | a in actions :: PlainAction(a)
  {
    hide RoundTripInvariant, Unquoted, NoOpenHeader, PairsOnly, Depth, ReadsBack, KeywordFree, PlainAction, Unicode.Valid, QuoteFree,
         NoHeaderPattern, NoAccountClause, Separable;
    ClosedLiteralsNoPattern(conditions);
    QuoteFreeNoAccountClause(conditions, actions);
    QuoteFreeSeparable(actions);
    UndisturbedRoundTrips(u, conditions, actions);
  }
}
