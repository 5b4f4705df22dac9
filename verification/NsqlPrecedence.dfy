/** Conditions written without parentheses: NOT binds more strongly than AND, AND more strongly than OR, and
    equal connectives attach to the left. */
module NsqlPrecedence {
  import opened Wrappers
  import Text
  import NsqlAst
  import opened SqlSubset
  import opened NsqlConvert
  import NsqlPrinted
  import opened NsqlReparse
  import NsqlReread
  import opened FilterEval
  import FilterMeaning

  // ---------------------------------------------------------------- flat conditions

  /** A leaf, a parenthesized condition, or the negation of a factor. */
  datatype Factor = Single(leaf: NsqlAst.ConditionLeaf) | Group(node: NsqlAst.ConditionNode) | Negated(factor: Factor)

  /** Factors joined by AND. */
  type Term = seq<Factor>

  function FactorTokens(f: Factor): seq<Token> {
    match f
    case Single(leaf) => LeafTokens(leaf)
    case Group(node) => GroupOf(NodeTokens(node))
    case Negated(inner) => [Word("NOT")] + FactorTokens(inner)
  }

  function TermTokens(term: Term): seq<Token> {
    if term == [] then [] else FactorTokens(term[0]) + AndTail(term[1..])
  }

  function AndTail(term: Term): seq<Token> {
    if term == [] then [] else [Word("AND")] + (FactorTokens(term[0]) + AndTail(term[1..]))
  }

  /** Terms joined by OR. */
  function FlatTokens(terms: seq<Term>): seq<Token> {
    if terms == [] then [] else TermTokens(terms[0]) + OrTail(terms[1..])
  }

  function OrTail(terms: seq<Term>): seq<Token> {
    if terms == [] then [] else [Word("OR")] + (TermTokens(terms[0]) + OrTail(terms[1..]))
  }

  predicate FactorReadable(f: Factor) {
    match f
    case Single(leaf) => !leaf.field.Header? && ReadableLeaf(leaf)
    case Group(node) => NsqlPrinted.HeaderFreeNode(node) && Readable(node)
    case Negated(inner) => FactorReadable(inner)
  }

  predicate TermReadable(term: Term) { forall i | 0 <= i < |term| :: FactorReadable(term[i]) }

  predicate FlatReadable(terms: seq<Term>) { forall i | 0 <= i < |terms| :: terms[i] != [] && TermReadable(terms[i]) }

  function FactorExpr(f: Factor): Expr
    requires FactorReadable(f)
  {
    match f
    case Single(leaf) => LeafExpr(leaf)
    case Group(node) => Nested(NodeExpr(node))
    case Negated(inner) => UnaryNot(FactorExpr(inner))
  }

  function FoldFactors(left: Expr, term: Term): Expr
    requires TermReadable(term)
    decreases |term|
  {
    if term == [] then left else FoldFactors(Binary(AndOp, left, FactorExpr(term[0])), term[1..])
  }

  function TermExpr(term: Term): Expr
    requires term != [] && TermReadable(term)
  {
    FoldFactors(FactorExpr(term[0]), term[1..])
  }

  function FoldTerms(left: Expr, terms: seq<Term>): Expr
    requires FlatReadable(terms)
    decreases |terms|
  {
    if terms == [] then left else FoldTerms(Binary(OrOp, left, TermExpr(terms[0])), terms[1..])
  }

  function FlatExpr(terms: seq<Term>): Expr
    requires terms != [] && FlatReadable(terms)
  {
    FoldTerms(TermExpr(terms[0]), terms[1..])
  }

  // ---------------------------------------------------------------- parsing

  lemma NotFirst(rest: seq<Token>)
    ensures ParsePrefix([Word("NOT")] + rest) ==
            var operand := ParseSub(NOT_PRECEDENCE, rest);
            if operand.None? then None else Some((UnaryNot(operand.value.0), operand.value.1))
  {
    hide ParseSub;
    OperatorWords();
    var ts := [Word("NOT")] + rest;
    assert ts[0] == Word("NOT") && ts[1..] == rest;
  }

  /** A factor is one operand: whatever follows continues behind it. */
  lemma {:induction false} ParseFactor(min: nat, f: Factor, rest: seq<Token>)
    requires FactorReadable(f) && Precedence(rest) <= AND_PRECEDENCE && min < LIKE_PRECEDENCE
    ensures ParseSub(min, FactorTokens(f) + rest) == Climb(min, FactorExpr(f), rest)
    decreases f
  {
    hide Climb, Precedence, NodeTokens, NodeExpr, LeafTokens, LeafExpr;
    match f {
      case Single(leaf) =>
        ParseLeaf(min, leaf, rest);
      case Group(node) =>
        ParseGroup(node, rest);
      case Negated(inner) =>
        hide ParsePrefix;
        assert FactorTokens(f) + rest == [Word("NOT")] + (FactorTokens(inner) + rest);
        ParseFactor(NOT_PRECEDENCE, inner, rest);
        ClimbStops(NOT_PRECEDENCE, FactorExpr(inner), rest);
        NotFirst(FactorTokens(inner) + rest);
    }
  }

  lemma ConnectiveBinds(op: BinaryOp, word: string, more: seq<Token>)
    requires IsConnectiveWord(op, word)
    ensures Precedence([Word(word)] + more) == if op == AndOp then AND_PRECEDENCE else OR_PRECEDENCE
  {
    hide Text.SameIgnoreCase;
    ConnectiveWords();
    assert ([Word(word)] + more)[0] == Word(word);
  }

  /** One round of climbing over a connective. */
  lemma ClimbConnective(min: nat, op: BinaryOp, word: string, left: Expr, more: seq<Token>, right: Expr, after: seq<Token>)
    requires IsConnectiveWord(op, word)
    requires var p := if op == AndOp then AND_PRECEDENCE else OR_PRECEDENCE; min < p && ParseSub(p, more) == Some((right, after))
    ensures Climb(min, left, [Word(word)] + more) == Climb(min, Binary(op, left, right), after)
  {
    hide ParseSub, Precedence, Text.SameIgnoreCase, ParseInfix;
    var ts := [Word(word)] + more;
    assert ts[0] == Word(word) && ts[1..] == more;
    ConnectiveBinds(op, word, more);
    InfixConnective(op, word, left, Precedence(ts), ts);
  }

  lemma TailBinds(term: Term, rest: seq<Token>)
    requires Precedence(rest) <= OR_PRECEDENCE
    ensures Precedence(AndTail(term) + rest) <= AND_PRECEDENCE
  {
    hide Precedence;
    if term == [] {
      assert AndTail(term) + rest == rest;
    } else {
      var more := FactorTokens(term[0]) + AndTail(term[1..]) + rest;
      assert AndTail(term) + rest == [Word("AND")] + more;
      ConnectiveBinds(AndOp, "AND", more);
    }
  }

  lemma {:induction false} ClimbFactors(min: nat, left: Expr, term: Term, rest: seq<Token>)
    requires TermReadable(term) && Precedence(rest) <= OR_PRECEDENCE && min < AND_PRECEDENCE
    ensures Climb(min, left, AndTail(term) + rest) == Climb(min, FoldFactors(left, term), rest)
    decreases |term|
  {
    if term == [] {
      assert AndTail(term) + rest == rest;
    } else {
      hide Climb, Precedence, ParseSub, FactorTokens, FactorExpr, FactorReadable;
      var tail := AndTail(term[1..]) + rest;
      assert AndTail(term) + rest == [Word("AND")] + (FactorTokens(term[0]) + tail);
      TailBinds(term[1..], rest);
      ParseFactor(AND_PRECEDENCE, term[0], tail);
      ClimbStops(AND_PRECEDENCE, FactorExpr(term[0]), tail);
      ClimbConnective(min, AndOp, "AND", left, FactorTokens(term[0]) + tail, FactorExpr(term[0]), tail);
      ClimbFactors(min, Binary(AndOp, left, FactorExpr(term[0])), term[1..], rest);
    }
  }

  lemma ParseTerm(min: nat, term: Term, rest: seq<Token>)
    requires term != [] && TermReadable(term) && Precedence(rest) <= OR_PRECEDENCE && min < AND_PRECEDENCE
    ensures ParseSub(min, TermTokens(term) + rest) == Climb(min, TermExpr(term), rest)
  {
    hide Climb, Precedence, ParseSub, FactorTokens, FactorExpr, FactorReadable;
    var tail := AndTail(term[1..]) + rest;
    assert TermTokens(term) + rest == FactorTokens(term[0]) + tail;
    TailBinds(term[1..], rest);
    ParseFactor(min, term[0], tail);
    ClimbFactors(min, FactorExpr(term[0]), term[1..], rest);
  }

  lemma OrTailBinds(terms: seq<Term>, rest: seq<Token>)
    requires Ends(rest)
    ensures Precedence(OrTail(terms) + rest) <= OR_PRECEDENCE
  {
    hide Precedence;
    if terms == [] {
      assert OrTail(terms) + rest == rest;
      EndsBindNothing(rest);
    } else {
      var more := TermTokens(terms[0]) + OrTail(terms[1..]) + rest;
      assert OrTail(terms) + rest == [Word("OR")] + more;
      ConnectiveBinds(OrOp, "OR", more);
    }
  }

  lemma {:induction false} ClimbTerms(left: Expr, terms: seq<Term>, rest: seq<Token>)
    requires FlatReadable(terms) && Ends(rest)
    ensures Climb(0, left, OrTail(terms) + rest) == Some((FoldTerms(left, terms), rest))
    decreases |terms|
  {
    hide Climb, Precedence, ParseSub, TermTokens, TermExpr, TermReadable;
    if terms == [] {
      assert OrTail(terms) + rest == rest;
      EndsBindNothing(rest);
      ClimbStops(0, left, rest);
    } else {
      var tail := OrTail(terms[1..]) + rest;
      assert OrTail(terms) + rest == [Word("OR")] + (TermTokens(terms[0]) + tail);
      OrTailBinds(terms[1..], rest);
      ParseTerm(OR_PRECEDENCE, terms[0], tail);
      ClimbStops(OR_PRECEDENCE, TermExpr(terms[0]), tail);
      ClimbConnective(0, OrOp, "OR", left, TermTokens(terms[0]) + tail, TermExpr(terms[0]), tail);
      ClimbTerms(Binary(OrOp, left, TermExpr(terms[0])), terms[1..], rest);
    }
  }

  /** A flat condition parses to the disjunction of its conjunctions, each attached to the left. */
  lemma ParseFlat(terms: seq<Term>, rest: seq<Token>)
    requires terms != [] && FlatReadable(terms) && Ends(rest)
    ensures ParseSub(0, FlatTokens(terms) + rest) == Some((FlatExpr(terms), rest))
  {
    hide Climb, Precedence, ParseSub, TermTokens, TermExpr, TermReadable;
    var tail := OrTail(terms[1..]) + rest;
    assert FlatTokens(terms) + rest == TermTokens(terms[0]) + tail;
    OrTailBinds(terms[1..], rest);
    ParseTerm(0, terms[0], tail);
    ClimbTerms(TermExpr(terms[0]), terms[1..], rest);
  }

  // ---------------------------------------------------------------- meaning

  ghost predicate FactorReadsBack(f: Factor) {
    match f
    case Single(leaf) => NsqlReread.LeafReadsBack(leaf)
    case Group(node) => NsqlReread.ReadsBack(node)
    case Negated(inner) => FactorReadsBack(inner)
  }

  ghost predicate TermReadsBack(term: Term) { forall i | 0 <= i < |term| :: FactorReadsBack(term[i]) }

  ghost predicate FactorHolds(lib: Libraries, f: Factor, email: Email) {
    match f
    case Single(leaf) => EvalLeaf(lib, leaf, email, [])
    case Group(node) => EvalFresh(lib, node, email)
    case Negated(inner) => !FactorHolds(lib, inner, email)
  }

  ghost predicate TermHolds(lib: Libraries, term: Term, email: Email) {
    forall i | 0 <= i < |term| :: FactorHolds(lib, term[i], email)
  }

  lemma {:induction false} FactorMeaning(u: Text.Unicode, lib: Libraries, f: Factor, email: Email)
    requires u.Valid() && FactorReadable(f)
    ensures Convertible(u, FactorExpr(f)) <==> FactorReadsBack(f)
    ensures FactorReadsBack(f) ==> EvalFresh(lib, Strip(u, FactorExpr(f)), email) == FactorHolds(lib, f, email)
    decreases f
  {
    hide ConvertCondition, LeafExpr, NsqlReread.LeafReadsBack, NodeExpr, NsqlReread.ReadsBack, EvalLeaf, NsqlReread.LeftNested;
    match f {
      case Single(leaf) =>
        NsqlReread.LeafConverts(u, leaf);
      case Group(node) =>
        NsqlReread.NodeConverts(u, node);
        FilterMeaning.NestingKeepsMeaning(lib, node, email, []);
      case Negated(inner) =>
        FactorMeaning(u, lib, inner, email);
    }
  }

  lemma PairMeans(u: Text.Unicode, lib: Libraries, op: BinaryOp, left: Expr, right: Expr, email: Email)
    requires (op == AndOp || op == OrOp) && Convertible(u, left) && Convertible(u, right)
    ensures var e := Binary(op, left, right);
            && Convertible(u, e)
            && EvalFresh(lib, Strip(u, e), email) ==
               if op == AndOp then EvalFresh(lib, Strip(u, left), email) && EvalFresh(lib, Strip(u, right), email)
               else EvalFresh(lib, Strip(u, left), email) || EvalFresh(lib, Strip(u, right), email)
  {
    FilterMeaning.EvalPair(lib, op, Strip(u, left), Strip(u, right), email, []);
  }

  lemma FirstFactor(lib: Libraries, term: Term, email: Email)
    requires term != []
    ensures TermReadsBack(term) <==> FactorReadsBack(term[0]) && TermReadsBack(term[1..])
    ensures TermHolds(lib, term, email) <==> FactorHolds(lib, term[0], email) && TermHolds(lib, term[1..], email)
  {
    hide FactorReadsBack, FactorHolds;
    assert term == [term[0]] + term[1..];
  }

  lemma {:induction false} FactorsMeaning(u: Text.Unicode, lib: Libraries, left: Expr, term: Term, email: Email)
    requires u.Valid() && TermReadable(term)
    ensures Convertible(u, FoldFactors(left, term)) <==> Convertible(u, left) && TermReadsBack(term)
    ensures Convertible(u, left) && TermReadsBack(term) ==>
              EvalFresh(lib, Strip(u, FoldFactors(left, term)), email) == (EvalFresh(lib, Strip(u, left), email) && TermHolds(lib, term, email))
    decreases |term|
  {
    if term == [] {
    } else {
      hide Strip, FactorExpr, FactorReadable, FactorReadsBack, FactorHolds, EvalFresh, TermReadsBack, TermHolds;
      var right := FactorExpr(term[0]);
      FactorMeaning(u, lib, term[0], email);
      if Convertible(u, left) && FactorReadsBack(term[0]) { PairMeans(u, lib, AndOp, left, right, email); }
      FactorsMeaning(u, lib, Binary(AndOp, left, right), term[1..], email);
      FirstFactor(lib, term, email);
    }
  }

  lemma TermMeaning(u: Text.Unicode, lib: Libraries, term: Term, email: Email)
    requires u.Valid() && term != [] && TermReadable(term)
    ensures Convertible(u, TermExpr(term)) <==> TermReadsBack(term)
    ensures TermReadsBack(term) ==> EvalFresh(lib, Strip(u, TermExpr(term)), email) == TermHolds(lib, term, email)
  {
    hide Convertible, Strip, FactorExpr, FactorReadable, FactorReadsBack, FactorHolds, EvalFresh, TermReadsBack, TermHolds;
    FactorMeaning(u, lib, term[0], email);
    FactorsMeaning(u, lib, FactorExpr(term[0]), term[1..], email);
    FirstFactor(lib, term, email);
  }

  ghost predicate AllTermsReadBack(terms: seq<Term>) { forall i | 0 <= i < |terms| :: TermReadsBack(terms[i]) }

  ghost predicate SomeTermHolds(lib: Libraries, terms: seq<Term>, email: Email) {
    exists i | 0 <= i < |terms| :: TermHolds(lib, terms[i], email)
  }

  lemma FirstTerm(lib: Libraries, terms: seq<Term>, email: Email)
    requires terms != []
    ensures AllTermsReadBack(terms) <==> TermReadsBack(terms[0]) && AllTermsReadBack(terms[1..])
    ensures SomeTermHolds(lib, terms, email) <==> TermHolds(lib, terms[0], email) || SomeTermHolds(lib, terms[1..], email)
  {
    hide TermReadsBack, TermHolds;
    assert terms == [terms[0]] + terms[1..];
  }

  lemma {:induction false} TermsMeaning(u: Text.Unicode, lib: Libraries, left: Expr, terms: seq<Term>, email: Email)
    requires u.Valid() && FlatReadable(terms)
    ensures Convertible(u, FoldTerms(left, terms)) <==> Convertible(u, left) && AllTermsReadBack(terms)
    ensures Convertible(u, FoldTerms(left, terms)) ==>
              EvalFresh(lib, Strip(u, FoldTerms(left, terms)), email) ==
              (EvalFresh(lib, Strip(u, left), email) || SomeTermHolds(lib, terms, email))
    decreases |terms|
  {
    if terms == [] {
    } else {
      hide Strip, TermExpr, TermReadable, TermReadsBack, TermHolds, EvalFresh, AllTermsReadBack, SomeTermHolds;
      var right := TermExpr(terms[0]);
      TermMeaning(u, lib, terms[0], email);
      if Convertible(u, left) && TermReadsBack(terms[0]) { PairMeans(u, lib, OrOp, left, right, email); }
      TermsMeaning(u, lib, Binary(OrOp, left, right), terms[1..], email);
      FirstTerm(lib, terms, email);
    }
  }

  /** What a condition without parentheses means: when it converts, it holds for a message exactly when all
      factors of one of its terms do, with NOT reaching over its own factor only. */
  lemma FlatMeaning(u: Text.Unicode, lib: Libraries, terms: seq<Term>, email: Email)
    requires u.Valid() && terms != [] && FlatReadable(terms)
    ensures ParseSub(0, FlatTokens(terms)) == Some((FlatExpr(terms), []))
    ensures var r := ConvertExpr(u, FlatExpr(terms), 1);
            && (r.Ok? <==> AllTermsReadBack(terms) && LogicalDepth(FlatExpr(terms)) <= MAX_AST_DEPTH)
            && (r.Ok? ==> EvalFresh(lib, r.value, email) == SomeTermHolds(lib, terms, email))
  {
    hide ParseSub, Convertible, ConvertExpr, LogicalDepth, Strip, TermExpr, TermReadable, TermReadsBack, TermHolds, EvalFresh, FlatTokens, AllTermsReadBack, SomeTermHolds;
    ParseFlat(terms, []);
    assert FlatTokens(terms) + [] == FlatTokens(terms);
    TermMeaning(u, lib, terms[0], email);
    TermsMeaning(u, lib, TermExpr(terms[0]), terms[1..], email);
    FirstTerm(lib, terms, email);
    DepthDiscipline(u, FlatExpr(terms), 1);
  }
}
