/** What printed conditions parse to, exactly. */
module NsqlReparse {
  import opened Wrappers
  import opened Text
  import Decimal
  import opened NsqlAst
  import opened SqlSubset
  import opened NsqlPieces
  import opened NsqlPrinted

  // ---------------------------------------------------------------- tokens of a rewritten condition

  function OperatorTokens(operator: FilterOperator): seq<Token> {
    match operator
    case Equals => [Sym(EqSign)]
    case NotEquals => [Sym(NotEqSign)]
    case Contains => [Word("LIKE")]
    case NotContains => [Word("NOT"), Word("LIKE")]
    case Matches => [Sym(Tilde)]
    case GreaterThan => [Sym(GtSign)]
    case LessThan => [Sym(LtSign)]
    case GreaterThanOrEqual => [Sym(GtEqSign)]
    case LessThanOrEqual => [Sym(LtEqSign)]
    case In => [Word("IN")]
    case NotIn => [Word("NOT"), Word("IN")]
  }

  function ItemTokens(items: seq<string>): seq<Token> {
    if items == [] then []
    else if |items| == 1 then [Str(items[0])]
    else [Str(items[0]), Sym(Comma)] + ItemTokens(items[1..])
  }

  function ValueTokens(value: FilterValue): seq<Token> {
    match value
    case String(s) => [Str(s)]
    case Number(n) =>
      if n < 0 then [Sym(Minus), Token.Number(Decimal.NatToString(-(n as int)))] else [Token.Number(Decimal.NatToString(n))]
    case Boolean(b) => [Word(if b then "true" else "false")]
    case List(items) => [Sym(LParen)] + (ItemTokens(items) + [Sym(RParen)])
  }

  function LeafTokens(leaf: ConditionLeaf): seq<Token> {
    [Word(FieldText(leaf.field))] + (OperatorTokens(leaf.operator) + ValueTokens(leaf.value))
  }

  function NodeTokens(node: ConditionNode): seq<Token>
    decreases node
  {
    match node
    case Leaf(leaf) => LeafTokens(leaf)
    case And(children) => GroupTokens("AND", children)
    case Or(children) => GroupTokens("OR", children)
    case Not(inner) => [Word("NOT")] + GroupOf(NodeTokens(inner))
  }

  function GroupOf(ts: seq<Token>): seq<Token> { [Sym(LParen)] + (ts + [Sym(RParen)]) }

  function GroupTokens(word: string, nodes: seq<ConditionNode>): seq<Token>
    decreases nodes, 0
  {
    if nodes == [] then [] else GroupOf(NodeTokens(nodes[0])) + TailTokens(word, nodes[1..])
  }

  function TailTokens(word: string, nodes: seq<ConditionNode>): seq<Token>
    decreases nodes, 1
  {
    if nodes == [] then [] else [Word(word)] + GroupTokens(word, nodes)
  }

  lemma {:induction false} ItemsAsTokens(items: seq<string>)
    ensures TokensOf(ItemPieces(items)) == ItemTokens(items)
  {
    if items == [] {
    } else if |items| == 1 {
      FlattenOne(Tok(Str(items[0])));
    } else {
      ItemsAsTokens(items[1..]);
      var head := [Tok(Str(items[0])), SymPiece(Comma), Space];
      FlattenConcat(head, ItemPieces(items[1..]));
      assert head == [Tok(Str(items[0]))] + ([SymPiece(Comma)] + [Space]);
      FlattenConcat([Tok(Str(items[0]))], [SymPiece(Comma)] + [Space]);
      FlattenConcat([SymPiece(Comma)], [Space]);
      FlattenOne(Tok(Str(items[0])));
      FlattenOne(SymPiece(Comma));
      FlattenOne(Space);
    }
  }

  lemma TwoAsTokens(p: Piece, q: Piece)
    ensures TokensOf([p, q]) == TokensOf([p]) + TokensOf([q])
  {
    FlattenConcat([p], [q]);
    assert [p] + [q] == [p, q];
  }

  lemma NotAsTokens(p: Piece, q: Piece)
    requires p.Tok? && q.Tok?
    ensures TokensOf([p, Space, q]) == [p.token, q.token]
  {
    hide Flatten, TokensOf;
    FlattenConcat([p, Space], [q]);
    assert [p, Space] + [q] == [p, Space, q];
    TwoAsTokens(p, Space);
    FlattenOne(p);
    FlattenOne(Space);
    FlattenOne(q);
  }

  lemma OperatorAsTokens(operator: FilterOperator)
    ensures TokensOf(OperatorPieces(operator, true)) == OperatorTokens(operator)
  {
    var ps := OperatorPieces(operator, true);
    hide Flatten, TokensOf;
    if operator == NotContains || operator == NotIn {
      NotAsTokens(ps[0], ps[2]);
    } else {
      FlattenOne(ps[0]);
    }
  }

  lemma ValueAsTokens(value: FilterValue)
    ensures TokensOf(ValuePieces(value)) == ValueTokens(value)
  {
    hide TokensOf, Flatten;
    match value {
      case List(items) =>
        ItemsAsTokens(items);
        FlattenConcat([SymPiece(LParen)] + ItemPieces(items), [SymPiece(RParen)]);
        FlattenConcat([SymPiece(LParen)], ItemPieces(items));
        FlattenOne(SymPiece(LParen));
        FlattenOne(SymPiece(RParen));
      case Number(n) =>
        if n < 0 {
          var p, q := SymPiece(Minus), Tok(Token.Number(Decimal.NatToString(-(n as int))));
          TwoAsTokens(p, q);
          FlattenOne(p);
          FlattenOne(q);
          assert [Sym(Minus)] + [q.token] == ValueTokens(value);
        } else {
          FlattenOne(ValuePieces(value)[0]);
        }
      case _ =>
        FlattenOne(ValuePieces(value)[0]);
    }
  }

  lemma LeafAsTokens(leaf: ConditionLeaf)
    ensures TokensOf(LeafPieces(leaf, true)) == LeafTokens(leaf)
  {
    hide TokensOf, Flatten, OperatorPieces, ValuePieces, OperatorTokens, ValueTokens;
    var word, operator := WordPiece(FieldText(leaf.field)), OperatorPieces(leaf.operator, true);
    FlattenConcat([word, Space] + operator + [Space], ValuePieces(leaf.value));
    FlattenConcat([word, Space] + operator, [Space]);
    FlattenConcat([word, Space], operator);
    TwoAsTokens(word, Space);
    FlattenOne(word);
    FlattenOne(Space);
    OperatorAsTokens(leaf.operator);
    ValueAsTokens(leaf.value);
  }

  lemma ParenthesizedAsTokens(body: seq<Piece>)
    ensures TokensOf([SymPiece(LParen)] + body + [SymPiece(RParen)]) == GroupOf(TokensOf(body))
  {
    hide TokensOf, Flatten;
    FlattenConcat([SymPiece(LParen)] + body, [SymPiece(RParen)]);
    FlattenConcat([SymPiece(LParen)], body);
    FlattenOne(SymPiece(LParen));
    FlattenOne(SymPiece(RParen));
  }

  lemma {:induction false} NodeAsTokens(node: ConditionNode)
    ensures TokensOf(NodePieces(node, true)) == NodeTokens(node)
    decreases node
  {
    hide TokensOf, LeafPieces, LeafTokens, GroupPieces, GroupTokens, GroupOf;
    match node {
      case Leaf(leaf) => LeafAsTokens(leaf);
      case And(children) => GroupAsTokens("AND", children);
      case Or(children) => GroupAsTokens("OR", children);
      case Not(inner) =>
        NodeAsTokens(inner);
        NegationAsTokens(NodePieces(inner, true));
    }
  }

  lemma NegationAsTokens(body: seq<Piece>)
    ensures TokensOf([WordPiece("NOT"), Space, SymPiece(LParen)] + body + [SymPiece(RParen)]) == [Word("NOT")] + GroupOf(TokensOf(body))
  {
    hide TokensOf, Flatten, GroupOf;
    var group := [SymPiece(LParen)] + body + [SymPiece(RParen)];
    assert [WordPiece("NOT"), Space, SymPiece(LParen)] + body + [SymPiece(RParen)] == [WordPiece("NOT"), Space] + group;
    FlattenConcat([WordPiece("NOT"), Space], group);
    TwoAsTokens(WordPiece("NOT"), Space);
    FlattenOne(WordPiece("NOT"));
    FlattenOne(Space);
    ParenthesizedAsTokens(body);
  }

  lemma {:induction false} GroupAsTokens(word: string, nodes: seq<ConditionNode>)
    ensures TokensOf(GroupPieces(word, nodes, true)) == GroupTokens(word, nodes)
    decreases nodes, 0
  {
    if nodes != [] {
      hide TokensOf, Flatten;
      NodeAsTokens(nodes[0]);
      ParenthesizedAsTokens(NodePieces(nodes[0], true));
      FlattenConcat([SymPiece(LParen)] + NodePieces(nodes[0], true) + [SymPiece(RParen)], TailPieces(word, nodes[1..], true));
      TailAsTokens(word, nodes[1..]);
    }
  }

  lemma {:induction false} TailAsTokens(word: string, nodes: seq<ConditionNode>)
    ensures TokensOf(TailPieces(word, nodes, true)) == TailTokens(word, nodes)
    decreases nodes, 1
  {
    if nodes != [] {
      hide TokensOf, Flatten, GroupPieces, GroupTokens;
      GroupAsTokens(word, nodes);
      FlattenConcat([Space, WordPiece(word), Space], GroupPieces(word, nodes, true));
      SpacedWordTokens(word);
    }
  }

  lemma SpacedWordTokens(word: string)
    ensures TokensOf([Space, WordPiece(word), Space]) == [Word(word)]
  {
    hide TokensOf, Flatten;
    FlattenConcat([Space, WordPiece(word)], [Space]);
    assert [Space, WordPiece(word)] + [Space] == [Space, WordPiece(word), Space];
    TwoAsTokens(Space, WordPiece(word));
    FlattenOne(Space);
    FlattenOne(WordPiece(word));
  }

  // ---------------------------------------------------------------- the expression they stand for

  /** The leaf reads as SQL: an IN takes a list, and no list is empty. */
  predicate ReadableLeaf(leaf: ConditionLeaf) {
    && (leaf.operator == In || leaf.operator == NotIn ==> leaf.value.List?)
    && (leaf.value.List? ==> leaf.value.items != [])
  }

  function Literals(items: seq<string>): (es: seq<Expr>)
    ensures |es| == |items|
  {
    if items == [] then [] else [StringLit(items[0])] + Literals(items[1..])
  }

  function ValueExpr(value: FilterValue): Expr {
    match value
    case String(s) => StringLit(s)
    case Number(n) =>
      if n < 0 then UnaryMinus(NumberLit(Decimal.NatToString(-(n as int)))) else NumberLit(Decimal.NatToString(n))
    case Boolean(b) => BoolLit(b)
    case List(items) => if |items| == 1 then Nested(StringLit(items[0])) else TupleOf(Literals(items))
  }

  function LeafExpr(leaf: ConditionLeaf): Expr
    requires ReadableLeaf(leaf)
  {
    var field := Identifier(FieldText(leaf.field));
    match leaf.operator
    case Equals => Binary(EqOp, field, ValueExpr(leaf.value))
    case NotEquals => Binary(NotEqOp, field, ValueExpr(leaf.value))
    case Contains => Like(field, false, ValueExpr(leaf.value))
    case NotContains => Like(field, true, ValueExpr(leaf.value))
    case Matches => Binary(RegexMatchOp, field, ValueExpr(leaf.value))
    case GreaterThan => Binary(GtOp, field, ValueExpr(leaf.value))
    case LessThan => Binary(LtOp, field, ValueExpr(leaf.value))
    case GreaterThanOrEqual => Binary(GtEqOp, field, ValueExpr(leaf.value))
    case LessThanOrEqual => Binary(LtEqOp, field, ValueExpr(leaf.value))
    case In => InList(field, false, Literals(leaf.value.items))
    case NotIn => InList(field, true, Literals(leaf.value.items))
  }

  /** Every connective has operands and every leaf reads as SQL. */
  predicate Readable(node: ConditionNode) {
    match node
    case Leaf(leaf) => ReadableLeaf(leaf)
    case And(children) => children != [] && AllReadable(children)
    case Or(children) => children != [] && AllReadable(children)
    case Not(inner) => Readable(inner)
  }

  predicate AllReadable(nodes: seq<ConditionNode>) {
    nodes == [] || (Readable(nodes[0]) && AllReadable(nodes[1..]))
  }

  function NodeExpr(node: ConditionNode): Expr
    requires Readable(node)
    decreases node
  {
    match node
    case Leaf(leaf) => LeafExpr(leaf)
    case And(children) => assert AllReadable(children); FoldExpr(AndOp, Nested(NodeExpr(children[0])), children[1..])
    case Or(children) => assert AllReadable(children); FoldExpr(OrOp, Nested(NodeExpr(children[0])), children[1..])
    case Not(inner) => UnaryNot(Nested(NodeExpr(inner)))
  }

  /** Operands attach to the left one after the other. */
  function FoldExpr(op: BinaryOp, left: Expr, nodes: seq<ConditionNode>): Expr
    requires AllReadable(nodes)
    decreases nodes
  {
    if nodes == [] then left else FoldExpr(op, Binary(op, left, Nested(NodeExpr(nodes[0]))), nodes[1..])
  }

  // ---------------------------------------------------------------- the parser reads that expression

  /** The end of the text or a closing parenthesis. */
  predicate Ends(ts: seq<Token>) { ts == [] || ts[0] == Sym(RParen) }

  /** What follows binds no more strongly than `min`, so an operand ends there. */
  lemma ClimbStops(min: nat, e: Expr, ts: seq<Token>)
    requires Precedence(ts) <= min
    ensures Climb(min, e, ts) == Some((e, ts))
  {
  }

  lemma EndsBindNothing(ts: seq<Token>)
    requires Ends(ts) || ts[0] == Sym(Comma)
    ensures Precedence(ts) == 0
  {
  }

  lemma PrecedenceBound(ts: seq<Token>)
    ensures Precedence(ts) <= COMPARE_PRECEDENCE
  {
    hide SameIgnoreCase;
  }

  lemma ParseLiteral(min: nat, s: string, rest: seq<Token>)
    requires Precedence(rest) <= min
    ensures ParseSub(min, [Str(s)] + rest) == Some((StringLit(s), rest))
  {
    hide Precedence;
    assert ([Str(s)] + rest)[1..] == rest;
    ClimbStops(min, StringLit(s), rest);
  }

  lemma {:induction false} ParseItems(items: seq<string>, rest: seq<Token>)
    requires items != []
    ensures ParseList(ItemTokens(items) + ([Sym(RParen)] + rest)) == Some((Literals(items), [Sym(RParen)] + rest))
    decreases |items|
  {
    hide Precedence, ParseSub;
    var close := [Sym(RParen)] + rest;
    if |items| == 1 {
      EndsBindNothing(close);
      ParseLiteral(0, items[0], close);
      assert Literals(items) == [StringLit(items[0])];
    } else {
      var more := ItemTokens(items[1..]) + close;
      assert ItemTokens(items) + close == [Str(items[0])] + ([Sym(Comma)] + more);
      EndsBindNothing([Sym(Comma)] + more);
      ParseLiteral(0, items[0], [Sym(Comma)] + more);
      assert ([Sym(Comma)] + more)[1..] == more;
      ParseItems(items[1..], rest);
      assert Literals(items) == [StringLit(items[0])] + Literals(items[1..]);
    }
  }

  lemma ParseEmptyList(rest: seq<Token>)
    ensures ParseList([Sym(RParen)] + rest) == None
  {
    assert ([Sym(RParen)] + rest)[0] == Sym(RParen);
    assert ParsePrefix([Sym(RParen)] + rest) == None;
    assert ParseSub(0, [Sym(RParen)] + rest) == None;
  }

  lemma ParseListValue(min: nat, items: seq<string>, rest: seq<Token>)
    requires Precedence(rest) <= min
    ensures ParseSub(min, ValueTokens(List(items)) + rest) ==
            if items != [] then Some((ValueExpr(List(items)), rest)) else None
  {
    var ts := ValueTokens(List(items)) + rest;
    var inside := ItemTokens(items) + ([Sym(RParen)] + rest);
    assert ts == [Sym(LParen)] + inside;
    assert ts[1..] == inside && ts[0] == Sym(LParen);
    hide ParseList, Climb, Precedence;
    if items == [] {
      assert inside == [Sym(RParen)] + rest;
      ParseEmptyList(rest);
      assert ParsePrefix(ts) == None;
    } else {
      ParseItems(items, rest);
      assert ([Sym(RParen)] + rest)[1..] == rest;
      assert ParsePrefix(ts) == Some((ValueExpr(List(items)), rest));
      ClimbStops(min, ValueExpr(List(items)), rest);
    }
  }

  lemma ParseNumber(min: nat, d: string, rest: seq<Token>)
    requires Precedence(rest) <= min
    ensures ParseSub(min, [Token.Number(d)] + rest) == Some((NumberLit(d), rest))
  {
    hide Precedence;
    assert ([Token.Number(d)] + rest)[1..] == rest;
    ClimbStops(min, NumberLit(d), rest);
  }

  lemma ParseNegative(min: nat, d: string, rest: seq<Token>)
    requires Precedence(rest) <= min
    ensures ParseSub(min, [Sym(Minus), Token.Number(d)] + rest) == Some((UnaryMinus(NumberLit(d)), rest))
  {
    hide Climb, Precedence;
    var ts := [Sym(Minus), Token.Number(d)] + rest;
    assert ts[1..] == [Token.Number(d)] + rest && ts[0] == Sym(Minus);
    PrecedenceBound(rest);
    ParseNumber(MINUS_PRECEDENCE, d, rest);
    assert ParsePrefix(ts) == Some((UnaryMinus(NumberLit(d)), rest));
    ClimbStops(min, UnaryMinus(NumberLit(d)), rest);
  }

  lemma ParseBoolean(min: nat, b: bool, rest: seq<Token>)
    requires Precedence(rest) <= min
    ensures ParseSub(min, [Word(if b then "true" else "false")] + rest) == Some((BoolLit(b), rest))
  {
    hide Climb, Precedence;
    var w := if b then "true" else "false";
    var ts := [Word(w)] + rest;
    assert ts[1..] == rest && ts[0] == Word(w);
    assert !SameIgnoreCase(w, "NOT");
    if b {
      assert SameIgnoreCase(w, "TRUE");
    } else {
      assert |w| == 5 && SameIgnoreCase(w, "FALSE");
    }
    assert ParsePrefix(ts) == Some((BoolLit(b), rest));
    ClimbStops(min, BoolLit(b), rest);
  }

  lemma ParseValue(min: nat, value: FilterValue, rest: seq<Token>)
    requires Precedence(rest) <= min
    ensures ParseSub(min, ValueTokens(value) + rest) ==
            if value == List([]) then None else Some((ValueExpr(value), rest))
  {
    hide ParseSub, Precedence;
    match value {
      case String(s) => ParseLiteral(min, s, rest);
      case Number(n) =>
        if n < 0 {
          ParseNegative(min, Decimal.NatToString(-(n as int)), rest);
        } else {
          ParseNumber(min, Decimal.NatToString(n), rest);
        }
      case Boolean(b) => ParseBoolean(min, b, rest);
      case List(items) => ParseListValue(min, items, rest);
    }
  }

  /** A field name is an operand of its own. */
  lemma ParseFieldWord(field: FilterField, rest: seq<Token>)
    requires !field.Header? && rest != [] && rest[0] != Sym(LParen)
    ensures ParsePrefix([Word(FieldText(field))] + rest) == Some((Identifier(FieldText(field)), rest))
  {
    var ts := [Word(FieldText(field))] + rest;
    assert ts[0] == Word(FieldText(field)) && ts[1] == rest[0] && ts[1..] == rest;
    FieldIsOperand(field);
  }

  lemma FieldIsOperand(field: FilterField)
    requires !field.Header?
    ensures var w := FieldText(field); !SameIgnoreCase(w, "NOT") && !SameIgnoreCase(w, "TRUE") && !SameIgnoreCase(w, "FALSE")
  {
    var w := FieldText(field);
    if field == From || field == Body || field == Size || field == Date {
      assert |w| == 4;
      assert !EqIgnoreCase(w[0], "TRUE"[0]);
    }
  }

  /** Comparison operators, the regular expression match included. */
  predicate IsComparison(operator: FilterOperator) {
    !(operator == Contains || operator == NotContains || operator == In || operator == NotIn)
  }

  lemma ComparisonBinds(operator: FilterOperator, more: seq<Token>)
    requires IsComparison(operator)
    ensures var ts := OperatorTokens(operator) + more;
            ts != [] && ts[0] == OperatorTokens(operator)[0] && ts[1..] == more && Precedence(ts) == COMPARE_PRECEDENCE
  {
    var ts := OperatorTokens(operator) + more;
    assert ts[0] == OperatorTokens(operator)[0] && ts[1..] == more;
  }

  lemma ParseComparison(min: nat, field: Expr, operator: FilterOperator, value: FilterValue, rest: seq<Token>)
    requires Precedence(rest) <= NOT_PRECEDENCE && min < LIKE_PRECEDENCE && IsComparison(operator)
    ensures var ts := OperatorTokens(operator) + (ValueTokens(value) + rest);
            Climb(min, field, ts) ==
            if value == List([]) then None
            else Climb(min, Binary(Comparison(OperatorTokens(operator)[0].symbol).value, field, ValueExpr(value)), rest)
  {
    hide ValueTokens, ParseSub, ValueExpr, Precedence;
    ComparisonBinds(operator, ValueTokens(value) + rest);
    ParseValue(COMPARE_PRECEDENCE, value, rest);
  }

  /** The words of LIKE and IN, negated or not. */
  function SpelledOut(kw: string, negated: bool): seq<Token> {
    if negated then [Word("NOT"), Word(kw)] else [Word(kw)]
  }

  lemma OperatorWords()
    ensures !SameIgnoreCase("NOT", "AND") && !SameIgnoreCase("NOT", "OR") && !SameIgnoreCase("NOT", "LIKE") && !SameIgnoreCase("NOT", "IN")
    ensures !SameIgnoreCase("LIKE", "IN") && !SameIgnoreCase("LIKE", "OR") && !SameIgnoreCase("LIKE", "AND")
    ensures !SameIgnoreCase("IN", "OR") && !SameIgnoreCase("IN", "AND") && !SameIgnoreCase("IN", "LIKE")
    ensures SameIgnoreCase("LIKE", "LIKE") && SameIgnoreCase("IN", "IN") && SameIgnoreCase("NOT", "NOT")
  {
    assert !EqIgnoreCase("NOT"[0], "AND"[0]);
    assert !EqIgnoreCase("IN"[0], "OR"[0]);
  }

  lemma LikeBinds(field: Expr, negated: bool, more: seq<Token>)
    ensures var ts := SpelledOut("LIKE", negated) + more;
            ts != [] && Precedence(ts) == LIKE_PRECEDENCE && ParseInfix(field, LIKE_PRECEDENCE, ts) == ParseLike(field, negated, more)
  {
    hide ParseLike, SameIgnoreCase;
    OperatorWords();
    var ts := SpelledOut("LIKE", negated) + more;
    if negated {
      assert ts[0] == Word("NOT") && ts[1] == Word("LIKE") && ts[2..] == more;
    } else {
      assert ts[0] == Word("LIKE") && ts[1..] == more;
    }
  }

  lemma InBinds(field: Expr, negated: bool, more: seq<Token>)
    ensures var ts := SpelledOut("IN", negated) + more;
            ts != [] && Precedence(ts) == COMPARE_PRECEDENCE && ParseInfix(field, COMPARE_PRECEDENCE, ts) == ParseIn(field, negated, more)
  {
    hide ParseIn, SameIgnoreCase;
    OperatorWords();
    var ts := SpelledOut("IN", negated) + more;
    if negated {
      assert ts[0] == Word("NOT") && ts[1] == Word("IN") && ts[2..] == more;
    } else {
      assert ts[0] == Word("IN") && ts[1..] == more;
    }
  }

  lemma ParseContains(min: nat, field: Expr, negated: bool, value: FilterValue, rest: seq<Token>)
    requires Precedence(rest) <= NOT_PRECEDENCE && min < LIKE_PRECEDENCE
    ensures Climb(min, field, SpelledOut("LIKE", negated) + (ValueTokens(value) + rest)) ==
            if value == List([]) then None else Climb(min, Like(field, negated, ValueExpr(value)), rest)
  {
    hide ValueTokens, ParseSub, ValueExpr, Precedence, SpelledOut;
    LikeBinds(field, negated, ValueTokens(value) + rest);
    ParseValue(LIKE_PRECEDENCE, value, rest);
  }

  lemma ParseMembership(min: nat, field: Expr, negated: bool, value: FilterValue, rest: seq<Token>)
    requires min < LIKE_PRECEDENCE
    ensures Climb(min, field, SpelledOut("IN", negated) + (ValueTokens(value) + rest)) ==
            if value.List? && value.items != [] then Climb(min, InList(field, negated, Literals(value.items)), rest) else None
  {
    hide ParseIn, Literals, Precedence, SpelledOut, ValueTokens;
    InBinds(field, negated, ValueTokens(value) + rest);
    ParseInValues(field, negated, value, rest);
  }

  lemma ParseInValues(field: Expr, negated: bool, value: FilterValue, rest: seq<Token>)
    ensures ParseIn(field, negated, ValueTokens(value) + rest) ==
            if value.List? && value.items != [] then Some((InList(field, negated, Literals(value.items)), rest)) else None
  {
    hide ParseList;
    var ts := ValueTokens(value) + rest;
    if value.List? {
      var inside := ItemTokens(value.items) + ([Sym(RParen)] + rest);
      assert ts == [Sym(LParen)] + inside;
      assert ts[0] == Sym(LParen) && ts[1..] == inside;
      if value.items == [] {
        assert inside == [Sym(RParen)] + rest;
        ParseEmptyList(rest);
      } else {
        ParseItems(value.items, rest);
        assert ([Sym(RParen)] + rest)[1..] == rest;
      }
    } else {
      assert ts[0] == ValueTokens(value)[0];
    }
  }

  lemma OperatorStart(operator: FilterOperator, more: seq<Token>)
    ensures var ts := OperatorTokens(operator) + more; ts != [] && ts[0] != Sym(LParen)
  {
    assert (OperatorTokens(operator) + more)[0] == OperatorTokens(operator)[0];
  }

  /** A leaf is one operand, whatever connective stands in front of it or behind. */
  lemma ParseLeaf(min: nat, leaf: ConditionLeaf, rest: seq<Token>)
    requires !leaf.field.Header? && Precedence(rest) <= NOT_PRECEDENCE && min < LIKE_PRECEDENCE
    ensures ParseSub(min, LeafTokens(leaf) + rest) == if ReadableLeaf(leaf) then Climb(min, LeafExpr(leaf), rest) else None
  {
    hide ParsePrefix, Climb, ValueTokens, ValueExpr, FieldText, Literals, Precedence;
    var values := ValueTokens(leaf.value) + rest;
    var more := OperatorTokens(leaf.operator) + values;
    var field := Identifier(FieldText(leaf.field));
    LeafRegrouped([Word(FieldText(leaf.field))], OperatorTokens(leaf.operator), ValueTokens(leaf.value), rest);
    OperatorStart(leaf.operator, values);
    ParseFieldWord(leaf.field, more);
    match leaf.operator {
      case Contains => ParseContains(min, field, false, leaf.value, rest);
      case NotContains => ParseContains(min, field, true, leaf.value, rest);
      case In => ParseMembership(min, field, false, leaf.value, rest);
      case NotIn => ParseMembership(min, field, true, leaf.value, rest);
      case _ => ParseComparison(min, field, leaf.operator, leaf.value, rest);
    }
  }

  lemma LeafRegrouped(a: seq<Token>, b: seq<Token>, c: seq<Token>, d: seq<Token>)
    ensures a + (b + c) + d == a + (b + (c + d))
  {
  }

  /** The printed tokens of a condition parse to its expression, or to nothing when it is not readable. */
  lemma {:induction false} ParseNode(node: ConditionNode, rest: seq<Token>)
    requires HeaderFreeNode(node) && Ends(rest)
    ensures ParseSub(0, NodeTokens(node) + rest) == if Readable(node) then Some((NodeExpr(node), rest)) else None
    decreases node, 1
  {
    hide ParseSub, Precedence;
    EndsBindNothing(rest);
    match node {
      case Leaf(leaf) =>
        ParseLeaf(0, leaf, rest);
        if ReadableLeaf(leaf) { ClimbStops(0, LeafExpr(leaf), rest); }
      case And(children) => ParseConnective(AndOp, "AND", children, rest);
      case Or(children) => ParseConnective(OrOp, "OR", children, rest);
      case Not(inner) => ParseNegation(inner, rest);
    }
  }

  lemma {:induction false} ParseNegation(inner: ConditionNode, rest: seq<Token>)
    requires HeaderFreeNode(inner) && Ends(rest)
    ensures ParseSub(0, [Word("NOT")] + GroupOf(NodeTokens(inner)) + rest) ==
            if Readable(inner) then Some((UnaryNot(Nested(NodeExpr(inner))), rest)) else None
    decreases inner, 3
  {
    hide Climb, NodeTokens, NodeExpr, GroupOf;
    var ts := [Word("NOT")] + GroupOf(NodeTokens(inner)) + rest;
    assert ts[0] == Word("NOT") && ts[1..] == GroupOf(NodeTokens(inner)) + rest;
    ParseGroup(inner, rest);
    EndsBindNothing(rest);
    if Readable(inner) {
      ClimbStops(NOT_PRECEDENCE, Nested(NodeExpr(inner)), rest);
      assert ParseSub(NOT_PRECEDENCE, ts[1..]) == Some((Nested(NodeExpr(inner)), rest));
      assert ParsePrefix(ts) == Some((UnaryNot(Nested(NodeExpr(inner))), rest));
      ClimbStops(0, UnaryNot(Nested(NodeExpr(inner))), rest);
    } else {
      assert ParseSub(NOT_PRECEDENCE, ts[1..]) == None;
      assert ParsePrefix(ts) == None;
    }
  }

  /** A parenthesized condition is one operand, whatever follows. */
  lemma {:induction false} ParseGroup(node: ConditionNode, rest: seq<Token>)
    requires HeaderFreeNode(node)
    ensures ParsePrefix(GroupOf(NodeTokens(node)) + rest) == if Readable(node) then Some((Nested(NodeExpr(node)), rest)) else None
    decreases node, 2
  {
    hide ParseSub, NodeTokens, NodeExpr;
    var ts := GroupOf(NodeTokens(node)) + rest;
    var close := [Sym(RParen)] + rest;
    assert ts == [Sym(LParen)] + (NodeTokens(node) + close);
    assert ts[0] == Sym(LParen) && ts[1..] == NodeTokens(node) + close;
    ParseNode(node, close);
    assert close[1..] == rest;
    if Readable(node) {
      assert ParseList(ts[1..]) == Some(([NodeExpr(node)], close));
    } else {
      assert ParseList(ts[1..]) == None;
    }
  }

  predicate IsConnectiveWord(op: BinaryOp, word: string) {
    (op == AndOp && word == "AND") || (op == OrOp && word == "OR")
  }

  lemma {:induction false} ParseConnective(op: BinaryOp, word: string, nodes: seq<ConditionNode>, rest: seq<Token>)
    requires HeaderFreeNodes(nodes) && Ends(rest) && IsConnectiveWord(op, word)
    ensures ParseSub(0, GroupTokens(word, nodes) + rest) ==
            if nodes != [] && AllReadable(nodes) then Some((FoldExpr(op, Nested(NodeExpr(nodes[0])), nodes[1..]), rest)) else None
    decreases nodes, 0
  {
    hide Climb, NodeTokens, NodeExpr, GroupOf, FoldExpr;
    var ts := GroupTokens(word, nodes) + rest;
    if nodes == [] {
      assert ts == rest;
      assert ParsePrefix(rest) == None;
    } else {
      var tail := TailTokens(word, nodes[1..]) + rest;
      assert ts == GroupOf(NodeTokens(nodes[0])) + tail;
      ParseGroup(nodes[0], tail);
      if Readable(nodes[0]) { ClimbTail(op, word, Nested(NodeExpr(nodes[0])), nodes[1..], rest); }
    }
  }

  lemma TailPrecedence(op: BinaryOp, word: string, nodes: seq<ConditionNode>, rest: seq<Token>)
    requires Ends(rest) && IsConnectiveWord(op, word)
    ensures Precedence(TailTokens(word, nodes) + rest) ==
            if nodes == [] then 0 else if op == AndOp then AND_PRECEDENCE else OR_PRECEDENCE
  {
    hide GroupTokens;
    var ts := TailTokens(word, nodes) + rest;
    if nodes == [] {
      assert ts == rest;
      EndsBindNothing(rest);
    } else {
      assert ts[0] == Word(word);
      ConnectiveWords();
    }
  }

  lemma ConnectiveWords()
    ensures SameIgnoreCase("AND", "AND") && SameIgnoreCase("OR", "OR")
    ensures !SameIgnoreCase("AND", "OR") && !SameIgnoreCase("AND", "LIKE") && !SameIgnoreCase("AND", "IN") && !SameIgnoreCase("AND", "NOT")
    ensures !SameIgnoreCase("OR", "LIKE") && !SameIgnoreCase("OR", "IN") && !SameIgnoreCase("OR", "NOT") && !SameIgnoreCase("OR", "AND")
  {
    assert !EqIgnoreCase("AND"[0], "NOT"[0]);
    assert !EqIgnoreCase("OR"[0], "IN"[0]);
  }

  /** The operands behind the first attach to the left. */
  lemma {:induction false} ClimbTail(op: BinaryOp, word: string, left: Expr, nodes: seq<ConditionNode>, rest: seq<Token>)
    requires HeaderFreeNodes(nodes) && Ends(rest) && IsConnectiveWord(op, word)
    ensures Climb(0, left, TailTokens(word, nodes) + rest) ==
            if AllReadable(nodes) then Some((FoldExpr(op, left, nodes), rest)) else None
    decreases nodes, 2
  {
    var ts := TailTokens(word, nodes) + rest;
    if nodes == [] {
      assert ts == rest;
      EndsBindNothing(rest);
      ClimbStops(0, left, rest);
    } else {
      hide NodeTokens, NodeExpr, GroupOf, Precedence, TailTokens, ParseInfix;
      TailPrecedence(op, word, nodes, rest);
      InfixOf(op, word, left, nodes, rest);
      if Readable(nodes[0]) {
        ClimbTail(op, word, Binary(op, left, Nested(NodeExpr(nodes[0]))), nodes[1..], rest);
      }
    }
  }

  /** One connective and its right operand. */
  lemma {:induction false} InfixOf(op: BinaryOp, word: string, left: Expr, nodes: seq<ConditionNode>, rest: seq<Token>)
    requires nodes != [] && HeaderFreeNodes(nodes) && Ends(rest) && IsConnectiveWord(op, word)
    ensures var ts := TailTokens(word, nodes) + rest;
            && ts != [] && Precedence(ts) > 0
            && ParseInfix(left, Precedence(ts), ts) ==
               if Readable(nodes[0]) then Some((Binary(op, left, Nested(NodeExpr(nodes[0]))), TailTokens(word, nodes[1..]) + rest)) else None
    decreases nodes, 1
  {
    var p := if op == AndOp then AND_PRECEDENCE else OR_PRECEDENCE;
    assert p > 0;
    hide *;
    var ts := TailTokens(word, nodes) + rest;
    TailShape(word, nodes, rest);
    TailPrecedence(op, word, nodes, rest);
    HeaderFreeHead(nodes);
    OperandOf(p, op, word, nodes, rest);
    InfixConnective(op, word, left, p, ts);
  }

  lemma HeaderFreeHead(nodes: seq<ConditionNode>)
    requires nodes != [] && HeaderFreeNodes(nodes)
    ensures HeaderFreeNode(nodes[0]) && HeaderFreeNodes(nodes[1..])
  {
  }

  lemma TailShape(word: string, nodes: seq<ConditionNode>, rest: seq<Token>)
    requires nodes != []
    ensures var ts := TailTokens(word, nodes) + rest;
            ts != [] && ts[0] == Word(word) && ts[1..] == GroupOf(NodeTokens(nodes[0])) + (TailTokens(word, nodes[1..]) + rest)
  {
    assert TailTokens(word, nodes) == [Word(word)] + (GroupOf(NodeTokens(nodes[0])) + TailTokens(word, nodes[1..]));
    hide *;
    Regroup(Word(word), GroupOf(NodeTokens(nodes[0])), TailTokens(word, nodes[1..]), rest);
  }

  lemma Regroup(head: Token, group: seq<Token>, tail: seq<Token>, rest: seq<Token>)
    ensures var ts := [head] + (group + tail) + rest; ts != [] && ts[0] == head && ts[1..] == group + (tail + rest)
  {
  }

  lemma InfixConnective(op: BinaryOp, word: string, left: Expr, p: nat, ts: seq<Token>)
    requires IsConnectiveWord(op, word) && ts != [] && ts[0] == Word(word) && p == Precedence(ts) && p > 0
    ensures ParseInfix(left, p, ts) ==
            var operand := ParseSub(p, ts[1..]);
            if operand.None? then None else Some((Binary(op, left, operand.value.0), operand.value.1))
  {
    hide ParseSub, Precedence, SameIgnoreCase;
    ConnectiveWords();
  }

  /** The operand of a connective ends before the next one of the same kind. */
  lemma {:induction false} OperandOf(p: nat, op: BinaryOp, word: string, nodes: seq<ConditionNode>, rest: seq<Token>)
    requires nodes != [] && HeaderFreeNodes(nodes) && Ends(rest) && IsConnectiveWord(op, word)
    requires p == if op == AndOp then AND_PRECEDENCE else OR_PRECEDENCE
    ensures var tail := TailTokens(word, nodes[1..]) + rest;
            ParseSub(p, GroupOf(NodeTokens(nodes[0])) + tail) ==
            if Readable(nodes[0]) then Some((Nested(NodeExpr(nodes[0])), tail)) else None
    decreases nodes, 0
  {
    hide NodeTokens, NodeExpr, GroupOf, Precedence;
    var tail := TailTokens(word, nodes[1..]) + rest;
    ParseGroup(nodes[0], tail);
    TailPrecedence(op, word, nodes[1..], rest);
    if Readable(nodes[0]) {
      assert Climb(p, Nested(NodeExpr(nodes[0])), tail) == Some((Nested(NodeExpr(nodes[0])), tail));
    }
  }
}
