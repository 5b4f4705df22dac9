/** What printing and re-reading a rule does to the messages it fires on. */
module FilterMeaning {
  import opened Text
  import opened NsqlAst
  import NsqlActions
  import opened NsqlPreprocess
  import NsqlConvert
  import NsqlRule
  import opened SqlSubset
  import NsqlPieces
  import NsqlPrinted
  import opened NsqlReread
  import opened NsqlRoundTrip
  import NsqlWidened
  import opened FilterEval

  // ---------------------------------------------------------------- evaluation

  lemma EvalPair(lib: Libraries, op: BinaryOp, a: ConditionNode, b: ConditionNode, email: Email, cache: Cache)
    requires op == AndOp || op == OrOp
    ensures Eval(lib, Pair(op, a, b), email, cache) ==
            if op == AndOp then Eval(lib, a, email, cache) && Eval(lib, b, email, cache)
            else Eval(lib, a, email, cache) || Eval(lib, b, email, cache)
  {
    hide EvalLeaf;
    var children := [a, b];
    assert Pair(op, a, b) == if op == AndOp then And(children) else Or(children);
    assert children[0] == a && children[1] == b;
  }

  ghost predicate AllHold(lib: Libraries, nodes: seq<ConditionNode>, email: Email, cache: Cache) {
    forall i | 0 <= i < |nodes| :: Eval(lib, nodes[i], email, cache)
  }

  ghost predicate SomeHolds(lib: Libraries, nodes: seq<ConditionNode>, email: Email, cache: Cache) {
    exists i | 0 <= i < |nodes| :: Eval(lib, nodes[i], email, cache)
  }

  lemma HeadAndTail(lib: Libraries, nodes: seq<ConditionNode>, email: Email, cache: Cache)
    requires nodes != []
    ensures AllHold(lib, nodes, email, cache) <==> Eval(lib, nodes[0], email, cache) && AllHold(lib, nodes[1..], email, cache)
    ensures SomeHolds(lib, nodes, email, cache) <==> Eval(lib, nodes[0], email, cache) || SomeHolds(lib, nodes[1..], email, cache)
  {
    hide Eval;
    assert forall i | 1 <= i < |nodes| :: nodes[i] == nodes[1..][i - 1];
  }

  lemma {:induction false} FoldKeepsMeaning(lib: Libraries, op: BinaryOp, left: ConditionNode, nodes: seq<ConditionNode>, email: Email, cache: Cache)
    requires op == AndOp || op == OrOp
    ensures Eval(lib, FoldNodes(op, left, nodes), email, cache) ==
            if op == AndOp then Eval(lib, left, email, cache) && AllHold(lib, nodes, email, cache)
            else Eval(lib, left, email, cache) || SomeHolds(lib, nodes, email, cache)
    decreases nodes
  {
    if nodes == [] {
    } else {
      hide Eval, AllHold, SomeHolds, Pair, LeftNested;
      NestingKeepsMeaning(lib, nodes[0], email, cache);
      EvalPair(lib, op, left, LeftNested(nodes[0]), email, cache);
      FoldKeepsMeaning(lib, op, Pair(op, left, LeftNested(nodes[0])), nodes[1..], email, cache);
      HeadAndTail(lib, nodes, email, cache);
    }
  }

  /** Nesting connectives to the left changes the tree but not what it says about any message. */
  lemma {:induction false} NestingKeepsMeaning(lib: Libraries, node: ConditionNode, email: Email, cache: Cache)
    ensures Eval(lib, LeftNested(node), email, cache) == Eval(lib, node, email, cache)
    decreases node
  {
    match node {
      case Leaf(_) =>
      case Not(inner) => NestingKeepsMeaning(lib, inner, email, cache);
      case And(children) =>
        assert Eval(lib, node, email, cache) == AllHold(lib, children, email, cache);
        if children != [] { ConnectiveKeepsMeaning(lib, AndOp, children, email, cache); }
      case Or(children) =>
        assert Eval(lib, node, email, cache) == SomeHolds(lib, children, email, cache);
        if children != [] { ConnectiveKeepsMeaning(lib, OrOp, children, email, cache); }
    }
  }

  lemma {:induction false} ConnectiveKeepsMeaning(lib: Libraries, op: BinaryOp, children: seq<ConditionNode>, email: Email, cache: Cache)
    requires children != [] && (op == AndOp || op == OrOp)
    ensures Eval(lib, FoldNodes(op, LeftNested(children[0]), children[1..]), email, cache) ==
            if op == AndOp then AllHold(lib, children, email, cache) else SomeHolds(lib, children, email, cache)
    decreases children
  {
    hide Eval, AllHold, SomeHolds, LeftNested;
    NestingKeepsMeaning(lib, children[0], email, cache);
    FoldKeepsMeaning(lib, op, LeftNested(children[0]), children[1..], email, cache);
    HeadAndTail(lib, children, email, cache);
  }

  // ---------------------------------------------------------------- patterns

  lemma {:induction false} PatternsFromFront(nodes: seq<ConditionNode>)
    requires nodes != []
    ensures PatternsOf(nodes) == Patterns(nodes[0]) + PatternsOf(nodes[1..])
    decreases |nodes|
  {
    if |nodes| == 1 {
      assert nodes[..0] == [] && nodes[1..] == [];
    } else {
      var front, last := nodes[..|nodes| - 1], nodes[|nodes| - 1];
      PatternsFromFront(front);
      assert nodes[1..][..|nodes| - 2] == front[1..];
      assert PatternsOf(nodes) == Patterns(nodes[0]) + PatternsOf(front[1..]) + Patterns(last);
    }
  }

  lemma PatternsOfPair(op: BinaryOp, a: ConditionNode, b: ConditionNode)
    ensures Patterns(Pair(op, a, b)) == Patterns(a) + Patterns(b)
  {
    assert [a, b][..1] == [a] && [a][..0] == [];
    assert PatternsOf([a]) == PatternsOf([]) + Patterns(a) == Patterns(a);
  }

  lemma {:induction false} FoldKeepsPatterns(op: BinaryOp, left: ConditionNode, nodes: seq<ConditionNode>)
    ensures Patterns(FoldNodes(op, left, nodes)) == Patterns(left) + PatternsOf(nodes)
    decreases nodes
  {
    if nodes == [] {
      assert PatternsOf(nodes) == [];
    } else {
      hide Patterns, Pair, LeftNested;
      NestingKeepsPatterns(nodes[0]);
      PatternsOfPair(op, left, LeftNested(nodes[0]));
      FoldKeepsPatterns(op, Pair(op, left, LeftNested(nodes[0])), nodes[1..]);
      PatternsFromFront(nodes);
      assert Patterns(left) + Patterns(nodes[0]) + PatternsOf(nodes[1..]) == Patterns(left) + (Patterns(nodes[0]) + PatternsOf(nodes[1..]));
    }
  }

  lemma {:induction false} NestingKeepsPatterns(node: ConditionNode)
    ensures Patterns(LeftNested(node)) == Patterns(node)
    decreases node
  {
    match node {
      case Leaf(_) =>
      case Not(inner) => NestingKeepsPatterns(inner);
      case And(children) =>
        if children != [] {
          NestingKeepsPatterns(children[0]);
          FoldKeepsPatterns(AndOp, LeftNested(children[0]), children[1..]);
          PatternsFromFront(children);
        }
      case Or(children) =>
        if children != [] {
          NestingKeepsPatterns(children[0]);
          FoldKeepsPatterns(OrOp, LeftNested(children[0]), children[1..]);
          PatternsFromFront(children);
        }
    }
  }

  // ---------------------------------------------------------------- re-read rules

  /** A printed rule with connectives of any width parses exactly when its nested form is shallow enough, its
      leaves read back and its actions do; what comes back compiles the same patterns and, on every message,
      says the same. */
  lemma RereadRuleKeepsMeaning(u: Unicode, lib: Libraries, conditions: ConditionNode, actions: seq<RuleAction>, email: Email)
    requires u.Valid() && NsqlPrinted.Unquoted(conditions) && NoHeaderPattern(conditions)
    requires NoAccountClause(conditions, actions) && KeywordFree(u, conditions)
    ensures var r := NsqlRule.ParseRule(u, RuleText(conditions, actions));
            && (r.Ok? <==>
                  && ReadsBack(conditions)
                  && Depth(LeftNested(conditions)) <= NsqlConvert.MAX_AST_DEPTH
                  && NsqlActions.ParseActionsText(u, ActionsClause(actions)).Ok?)
            && (r.Ok? ==>
                  && Patterns(r.value.conditions) == Patterns(conditions)
                  && EvalFresh(lib, r.value.conditions, email) == EvalFresh(lib, conditions, email))
  {
    hide NsqlRule.ParseRule, RuleText, NsqlPrinted.Unquoted, Depth, ReadsBack, KeywordFree, LeftNested,
         NsqlPrinted.RewriteNode, NsqlActions.ParseActionsText, ActionsClause,
         Unicode.Valid, NoHeaderPattern, NoAccountClause, Eval, Patterns;
    RuleRereads(u, conditions, actions);
    NodeKeptIffKeywordFree(u, conditions);
    NestingKeepsMeaning(lib, conditions, email, []);
    NestingKeepsPatterns(conditions);
  }

  // ---------------------------------------------------------------- a literal that does not survive

  lemma {:induction false} ShortIsNoHeader(s: string)
    requires |s| < 6
    ensures !NsqlPieces.EndsLikeHeader(s)
  {
    if s == "" {
    } else {
      ShortIsNoHeader(s[1..]);
    }
  }

  lemma MatchesIsPlain()
    ensures '\'' !in MATCHES_WORD && !NsqlPieces.EndsLikeHeader(MATCHES_WORD)
  {
    var s := MATCHES_WORD;
    assert s[0] == 'M' && s[..6][0] == 'M';
    ShortIsNoHeader(s[1..][1..]);
    assert s[1..][0] == 'A' && s[1..][..6][0] == 'A';
  }

  lemma MatchesIsRewritten(u: Unicode)
    requires u.Valid()
    ensures RewriteWords(u, MATCHES_WORD) == "~"
  {
    hide ReplaceWord;
    assert forall i | 0 <= i < |MATCHES_WORD| :: IsAsciiUpper(MATCHES_WORD[i]);
    ReplaceInRun(u, false, MATCHES_WORD, CONTAINS_WORD, "LIKE");
    ReplaceInRun(u, false, MATCHES_WORD, MATCHES_WORD, "~");
  }

  /** A subject equal to a rewritten word: the rule still parses, but no longer fires on that subject. */
  lemma KeywordInLiteralChangesMeaning(u: Unicode, lib: Libraries, email: Email)
    requires u.Valid() && email.subject == MATCHES_WORD
    ensures var conditions := Leaf(ConditionLeaf(Subject, Equals, String(MATCHES_WORD)));
            var r := NsqlRule.ParseRule(u, RuleText(conditions, []));
            r.Ok? && EvalFresh(lib, conditions, email) && !EvalFresh(lib, r.value.conditions, email)
  {
    hide NsqlRule.ParseRule, RuleText, NsqlPieces.EndsLikeHeader, RewriteWords, NoHeaderPattern, NoAccountClause;
    var leaf := ConditionLeaf(Subject, Equals, String(MATCHES_WORD));
    MatchesIsPlain();
    MatchesIsRewritten(u);
    ClosedLiteralsNoPattern(Leaf(leaf));
    QuoteFreeNoAccountClause(Leaf(leaf), []);
    RuleRereads(u, Leaf(leaf), []);
    NothingToParse(u);
    assert |MATCHES_WORD| != |"~"|;
  }

  /** A rule for one subject whose literal holds a quote, a condition and a comment: it is read back as a rule that
      fires on every message with a non-empty plain body. */
  lemma QuoteWidensRule(u: Unicode, lib: Libraries, email: Email)
    requires u.Valid()
    ensures var r := NsqlRule.ParseRule(u, RuleText(Leaf(NsqlWidened.PRINTED), []));
            && r.Ok?
            && (EvalFresh(lib, Leaf(NsqlWidened.PRINTED), email) <==> SameIgnoreCase(email.subject, NsqlWidened.SUBJECT))
            && (SizeOf(email) > 0 ==> EvalFresh(lib, r.value.conditions, email))
  {
    hide NsqlRule.ParseRule, RuleText, SameIgnoreCase, Utf8Len;
    NsqlWidened.WidenedRule(u);
    var children := [Leaf(NsqlWidened.FIRST_READ), Leaf(NsqlWidened.SECOND_READ)];
    assert EvalFresh(lib, Or(children), email) <==> Eval(lib, children[0], email, []) || Eval(lib, children[1], email, []);
  }
}
