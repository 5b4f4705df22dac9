/** Printed conditions as pieces, before and after the rewrites. */
module NsqlPrinted {
  import opened Wrappers
  import opened Text
  import Decimal
  import opened NsqlAst
  import opened NsqlPreprocess
  import opened SqlSubset
  import opened NsqlPieces
  import NsqlReading

  // ---------------------------------------------------------------- pieces of a condition

  function WordPiece(w: string): Piece { Tok(Word(w)) }

  function SymPiece(s: Symbol): Piece { Tok(Sym(s)) }

  /** The operator as printed, or as it stands after the rewrites. */
  function OperatorPieces(operator: FilterOperator, sql: bool): seq<Piece> {
    match operator
    case Equals => [SymPiece(EqSign)]
    case NotEquals => [SymPiece(NotEqSign)]
    case Contains => [WordPiece(if sql then "LIKE" else CONTAINS_WORD)]
    case NotContains => [WordPiece("NOT"), Space, WordPiece(if sql then "LIKE" else CONTAINS_WORD)]
    case Matches => [if sql then SymPiece(Tilde) else WordPiece(MATCHES_WORD)]
    case GreaterThan => [SymPiece(GtSign)]
    case LessThan => [SymPiece(LtSign)]
    case GreaterThanOrEqual => [SymPiece(GtEqSign)]
    case LessThanOrEqual => [SymPiece(LtEqSign)]
    case In => [WordPiece("IN")]
    case NotIn => [WordPiece("NOT"), Space, WordPiece("IN")]
  }

  function ItemPieces(items: seq<string>): seq<Piece> {
    if items == [] then []
    else if |items| == 1 then [Tok(Str(items[0]))]
    else [Tok(Str(items[0])), SymPiece(Comma), Space] + ItemPieces(items[1..])
  }

  function ValuePieces(value: FilterValue): seq<Piece> {
    match value
    case String(s) => [Tok(Str(s))]
    case Number(n) =>
      if n < 0 then [SymPiece(Minus), Tok(Token.Number(Decimal.NatToString(-(n as int))))]
      else [Tok(Token.Number(Decimal.NatToString(n)))]
    case Boolean(b) => [WordPiece(if b then "true" else "false")]
    case List(items) => [SymPiece(LParen)] + ItemPieces(items) + [SymPiece(RParen)]
  }

  function LeafPieces(leaf: ConditionLeaf, sql: bool): seq<Piece> {
    [WordPiece(FieldText(leaf.field)), Space] + OperatorPieces(leaf.operator, sql) + [Space] + ValuePieces(leaf.value)
  }

  function NodePieces(node: ConditionNode, sql: bool): seq<Piece>
    decreases node
  {
    match node
    case Leaf(leaf) => LeafPieces(leaf, sql)
    case And(children) => GroupPieces("AND", children, sql)
    case Or(children) => GroupPieces("OR", children, sql)
    case Not(inner) => [WordPiece("NOT"), Space, SymPiece(LParen)] + NodePieces(inner, sql) + [SymPiece(RParen)]
  }

  function GroupPieces(word: string, nodes: seq<ConditionNode>, sql: bool): seq<Piece>
    decreases nodes, 0
  {
    if nodes == [] then []
    else [SymPiece(LParen)] + NodePieces(nodes[0], sql) + [SymPiece(RParen)] + TailPieces(word, nodes[1..], sql)
  }

  function TailPieces(word: string, nodes: seq<ConditionNode>, sql: bool): seq<Piece>
    decreases nodes, 1
  {
    if nodes == [] then [] else [Space, WordPiece(word), Space] + GroupPieces(word, nodes, sql)
  }

  // ---------------------------------------------------------------- conditions without quotes in literals

  predicate UnquotedLeaf(leaf: ConditionLeaf) {
    && !leaf.field.Header?
    && (leaf.value.String? ==> '\'' !in leaf.value.text)
    && (leaf.value.List? ==> forall i | 0 <= i < |leaf.value.items| :: '\'' !in leaf.value.items[i])
  }

  /** No field is a header and no literal holds a single quote. */
  predicate Unquoted(node: ConditionNode) {
    match node
    case Leaf(leaf) => UnquotedLeaf(leaf)
    case And(children) => AllUnquoted(children)
    case Or(children) => AllUnquoted(children)
    case Not(inner) => Unquoted(inner)
  }

  predicate AllUnquoted(nodes: seq<ConditionNode>) {
    nodes == [] || (Unquoted(nodes[0]) && AllUnquoted(nodes[1..]))
  }

  /** No field is a header. */
  predicate HeaderFreeNode(node: ConditionNode) {
    match node
    case Leaf(leaf) => !leaf.field.Header?
    case And(children) => HeaderFreeNodes(children)
    case Or(children) => HeaderFreeNodes(children)
    case Not(inner) => HeaderFreeNode(inner)
  }

  predicate HeaderFreeNodes(nodes: seq<ConditionNode>) {
    nodes == [] || (HeaderFreeNode(nodes[0]) && HeaderFreeNodes(nodes[1..]))
  }

  lemma {:induction false} UnquotedIsHeaderFree(node: ConditionNode)
    requires Unquoted(node)
    ensures HeaderFreeNode(node)
    decreases node
  {
    match node {
      case Leaf(_) =>
      case And(children) => UnquotedAreHeaderFree(children);
      case Or(children) => UnquotedAreHeaderFree(children);
      case Not(inner) => UnquotedIsHeaderFree(inner);
    }
  }

  lemma {:induction false} UnquotedAreHeaderFree(nodes: seq<ConditionNode>)
    requires AllUnquoted(nodes)
    ensures HeaderFreeNodes(nodes)
    decreases nodes
  {
    if nodes == [] {
    } else {
      UnquotedIsHeaderFree(nodes[0]);
      UnquotedAreHeaderFree(nodes[1..]);
    }
  }

  // ---------------------------------------------------------------- the pieces spell the printed text

  lemma {:induction false} EscapeQuoteFree(s: string)
    requires '\'' !in s
    ensures EscapeQuotes(s) == s
  {
    if s == "" {
    } else {
      assert s[0] in s && forall c | c in s[1..] :: c in s;
      EscapeQuoteFree(s[1..]);
      assert [s[0]] + s[1..] == s;
    }
  }

  lemma FlattenOne(p: Piece)
    ensures Flatten([p]) == PieceText(p)
    ensures TokensOf([p]) == if p.Space? then [] else [p.token]
  {
    assert [p][1..] == [];
  }

  lemma {:induction false} ItemsSpelled(items: seq<string>)
    requires forall i | 0 <= i < |items| :: '\'' !in items[i]
    ensures Flatten(ItemPieces(items)) == Join(QuotedAll(items), ", ")
  {
    if items == [] {
    } else {
      EscapeQuoteFree(items[0]);
      FlattenOne(Tok(Str(items[0])));
      if |items| > 1 {
        ItemsSpelled(items[1..]);
        SeparatedSpelled(items[0], ItemPieces(items[1..]));
        assert QuotedAll(items)[1..] == QuotedAll(items[1..]);
        hide Flatten, Quoted;
      }
    }
  }

  lemma SeparatedSpelled(item: string, rest: seq<Piece>)
    ensures Flatten([Tok(Str(item)), SymPiece(Comma), Space] + rest) == PieceText(Tok(Str(item))) + ", " + Flatten(rest)
  {
    var head := [Tok(Str(item)), SymPiece(Comma), Space];
    FlattenConcat(head, rest);
    FlattenConcat([Tok(Str(item))], [SymPiece(Comma)] + [Space]);
    FlattenConcat([SymPiece(Comma)], [Space]);
    FlattenOne(Tok(Str(item)));
    FlattenOne(SymPiece(Comma));
    FlattenOne(Space);
    hide Flatten;
    assert [Tok(Str(item))] + ([SymPiece(Comma)] + [Space]) == head;
    assert "," + " " == ", ";
  }

  lemma OperatorSpelled(operator: FilterOperator)
    ensures Flatten(OperatorPieces(operator, false)) == OperatorText(operator)
  {
    if operator == NotContains {
      ThreeSpelled(WordPiece("NOT"), WordPiece(CONTAINS_WORD));
    } else if operator == NotIn {
      ThreeSpelled(WordPiece("NOT"), WordPiece("IN"));
    } else {
      FlattenOne(OperatorPieces(operator, false)[0]);
    }
  }

  lemma ThreeSpelled(p: Piece, q: Piece)
    ensures Flatten([p, Space, q]) == PieceText(p) + " " + PieceText(q)
  {
    assert [p, Space, q][1..] == [Space, q] && [Space, q][1..] == [q];
    FlattenOne(q);
    assert PieceText(p) + (" " + PieceText(q)) == PieceText(p) + " " + PieceText(q);
  }

  lemma ValueSpelled(value: FilterValue)
    requires value.String? ==> '\'' !in value.text
    requires value.List? ==> forall i | 0 <= i < |value.items| :: '\'' !in value.items[i]
    ensures Flatten(ValuePieces(value)) == ValueText(value)
  {
    hide Flatten, TokensOf, ItemPieces, Join, EscapeQuotes, Decimal.NatToString;
    match value {
      case String(s) =>
        EscapeQuoteFree(s);
        FlattenOne(Tok(Str(s)));
      case Number(n) =>
        if n < 0 {
          var digits := Tok(Token.Number(Decimal.NatToString(-(n as int))));
          FlattenConcat([SymPiece(Minus)], [digits]);
          FlattenOne(SymPiece(Minus));
          FlattenOne(digits);
          assert [SymPiece(Minus)] + [digits] == ValuePieces(value);
        } else {
          FlattenOne(Tok(Token.Number(Decimal.NatToString(n))));
        }
      case Boolean(b) =>
        FlattenOne(WordPiece(if b then "true" else "false"));
      case List(items) =>
        ListSpelled(items);
    }
  }

  lemma ListSpelled(items: seq<string>)
    requires forall i | 0 <= i < |items| :: '\'' !in items[i]
    ensures Flatten([SymPiece(LParen)] + ItemPieces(items) + [SymPiece(RParen)]) == "(" + Join(QuotedAll(items), ", ") + ")"
  {
    hide Flatten, TokensOf, ItemPieces, Join;
    ItemsSpelled(items);
    FlattenConcat([SymPiece(LParen)] + ItemPieces(items), [SymPiece(RParen)]);
    FlattenConcat([SymPiece(LParen)], ItemPieces(items));
    FlattenOne(SymPiece(LParen));
    FlattenOne(SymPiece(RParen));
  }

  lemma LeafSpelled(leaf: ConditionLeaf)
    requires UnquotedLeaf(leaf)
    ensures Flatten(LeafPieces(leaf, false)) == LeafText(leaf)
  {
    hide Flatten, OperatorPieces, ValuePieces, OperatorText, ValueText, FieldText;
    var head := [WordPiece(FieldText(leaf.field)), Space];
    var operator := OperatorPieces(leaf.operator, false);
    FlattenConcat(head + operator + [Space], ValuePieces(leaf.value));
    FlattenConcat(head + operator, [Space]);
    FlattenConcat(head, operator);
    FlattenConcat([WordPiece(FieldText(leaf.field))], [Space]);
    assert head == [WordPiece(FieldText(leaf.field))] + [Space];
    FlattenOne(WordPiece(FieldText(leaf.field)));
    FlattenOne(Space);
    OperatorSpelled(leaf.operator);
    ValueSpelled(leaf.value);
  }

  lemma {:induction false} NodeSpelled(node: ConditionNode)
    requires Unquoted(node)
    ensures Flatten(NodePieces(node, false)) == NodeText(node)
    decreases node
  {
    hide Flatten, LeafText, LeafPieces, GroupPieces, Join;
    match node {
      case Leaf(leaf) => LeafSpelled(leaf);
      case And(children) =>
        GroupSpelled("AND", children);
        assert " " + "AND" + " " == " AND ";
      case Or(children) =>
        GroupSpelled("OR", children);
        assert " " + "OR" + " " == " OR ";
      case Not(inner) =>
        NodeSpelled(inner);
        NegationSpelled(NodePieces(inner, false));
    }
  }

  lemma NegationSpelled(body: seq<Piece>)
    ensures Flatten([WordPiece("NOT"), Space, SymPiece(LParen)] + body + [SymPiece(RParen)]) == "NOT (" + Flatten(body) + ")"
  {
    hide Flatten;
    var head := [WordPiece("NOT"), Space, SymPiece(LParen)];
    FlattenConcat(head + body, [SymPiece(RParen)]);
    FlattenConcat(head, body);
    ThreeSpelled(WordPiece("NOT"), SymPiece(LParen));
    FlattenOne(SymPiece(RParen));
    assert "NOT" + " " + "(" == "NOT (";
  }

  lemma {:induction false} GroupSpelled(word: string, nodes: seq<ConditionNode>)
    requires AllUnquoted(nodes)
    ensures Flatten(GroupPieces(word, nodes, false)) == Join(Parenthesized(nodes), " " + word + " ")
    decreases nodes
  {
    if nodes == [] {
    } else {
      hide Flatten;
      NodeSpelled(nodes[0]);
      var body := [SymPiece(LParen)] + NodePieces(nodes[0], false) + [SymPiece(RParen)];
      FlattenConcat([SymPiece(LParen)] + NodePieces(nodes[0], false), [SymPiece(RParen)]);
      FlattenConcat([SymPiece(LParen)], NodePieces(nodes[0], false));
      FlattenOne(SymPiece(LParen));
      FlattenOne(SymPiece(RParen));
      assert Flatten(body) == Parenthesized(nodes)[0];
      FlattenConcat(body, TailPieces(word, nodes[1..], false));
      assert Parenthesized(nodes)[1..] == Parenthesized(nodes[1..]);
      if |nodes| > 1 {
        GroupSpelled(word, nodes[1..]);
        var sep := [Space, WordPiece(word), Space];
        FlattenConcat(sep, GroupPieces(word, nodes[1..], false));
        ThreeSpelledSpaces(word);
        JoinStep(Parenthesized(nodes), " " + word + " ");
      } else {
        assert Flatten([]) == "";
        assert Parenthesized(nodes) == [Flatten(body)];
      }
    }
  }

  lemma ThreeSpelledSpaces(word: string)
    ensures Flatten([Space, WordPiece(word), Space]) == " " + word + " "
  {
    assert [Space, WordPiece(word), Space][1..] == [WordPiece(word), Space] && [WordPiece(word), Space][1..] == [Space];
    FlattenOne(Space);
    assert " " + (word + " ") == " " + word + " ";
  }

  lemma JoinStep(parts: seq<string>, sep: string)
    requires |parts| > 1
    ensures Join(parts, sep) == parts[0] + (sep + Join(parts[1..], sep))
  {
  }

  // ---------------------------------------------------------------- the pieces are well spaced

  lemma OpenSingle(p: Piece, next: Option<Piece>)
    requires KnownPiece(p) && Follows(p, next)
    ensures WellSpacedOpen([p], next)
  {
  }

  lemma OpenPair(p: Piece, q: Piece, next: Option<Piece>)
    requires KnownPiece(p) && KnownPiece(q) && Follows(p, Some(q)) && Follows(q, next)
    ensures WellSpacedOpen([p, q], next)
  {
    assert [p, q][1..] == [q];
    OpenSingle(q, next);
  }

  lemma OpenTriple(p: Piece, q: Piece, r: Piece, next: Option<Piece>)
    requires KnownPiece(p) && KnownPiece(q) && KnownPiece(r)
    requires Follows(p, Some(q)) && Follows(q, Some(r)) && Follows(r, next)
    ensures WellSpacedOpen([p, q, r], next)
  {
    assert [p, q, r][1..] == [q, r];
    OpenPair(q, r, next);
  }

  lemma KnownWords(field: FilterField)
    requires !field.Header?
    ensures FieldText(field) in VOCABULARY && FieldText(field) != MATCHES_WORD
    ensures "NOT" in VOCABULARY && "IN" in VOCABULARY && "AND" in VOCABULARY && "OR" in VOCABULARY
    ensures "LIKE" in VOCABULARY && CONTAINS_WORD in VOCABULARY && MATCHES_WORD in VOCABULARY
    ensures "true" in VOCABULARY && "false" in VOCABULARY
  {
    var v := VOCABULARY;
    assert v[4] == "subject" && v[5] == "from" && v[6] == "to" && v[7] == "body" && v[8] == "has_attachment";
    assert v[9] == "size" && v[10] == "folder" && v[11] == "date" && v[12] == "account";
    assert v[13] == "CONTAINS" && v[14] == "MATCHES" && v[15] == "LIKE" && v[16] == "NOT" && v[17] == "IN";
    assert v[18] == "AND" && v[19] == "OR" && v[20] == "true" && v[21] == "false";
  }

  /** The words written outside leaves and as operators or truth values close like any word. */
  predicate IsFixedWord(w: string) {
    w == "NOT" || w == "IN" || w == "AND" || w == "OR" || w == "LIKE" || w == CONTAINS_WORD || w == "true" || w == "false"
  }

  lemma FixedWord(w: string, next: Option<Piece>)
    requires IsFixedWord(w) && Closes(next)
    ensures KnownPiece(WordPiece(w)) && Follows(WordPiece(w), next)
  {
    KnownWords(Subject);
    assert |w| != |MATCHES_WORD|;
  }

  lemma FixedOpen(w: string, next: Option<Piece>)
    requires IsFixedWord(w) && Closes(next)
    ensures WellSpacedOpen([WordPiece(w)], next)
  {
    FixedWord(w, next);
    OpenSingle(WordPiece(w), next);
  }

  lemma TwoWordsOpen(v: string, w: string)
    requires IsFixedWord(v) && IsFixedWord(w)
    ensures WellSpacedOpen([WordPiece(v), Space, WordPiece(w)], Some(Space))
  {
    hide WellSpacedOpen, IsFixedWord;
    FixedWord(v, Some(Space));
    FixedWord(w, Some(Space));
    OpenTriple(WordPiece(v), Space, WordPiece(w), Some(Space));
  }

  lemma MatchesOpen()
    ensures WellSpacedOpen([WordPiece(MATCHES_WORD)], Some(Space))
  {
    KnownWords(Subject);
    OpenSingle(WordPiece(MATCHES_WORD), Some(Space));
  }

  lemma OperatorOpen(operator: FilterOperator, sql: bool)
    ensures OperatorPieces(operator, sql) != [] && WellSpacedOpen(OperatorPieces(operator, sql), Some(Space))
  {
    hide WellSpacedOpen;
    match operator {
      case Contains => FixedOpen(if sql then "LIKE" else CONTAINS_WORD, Some(Space));
      case NotContains => TwoWordsOpen("NOT", if sql then "LIKE" else CONTAINS_WORD);
      case In => FixedOpen("IN", Some(Space));
      case NotIn => TwoWordsOpen("NOT", "IN");
      case Matches => MatchesOpen(); OpenSingle(SymPiece(Tilde), Some(Space));
      case _ => OpenSingle(OperatorPieces(operator, sql)[0], Some(Space));
    }
  }

  lemma {:induction false} ItemsOpen(items: seq<string>)
    requires forall i | 0 <= i < |items| :: '\'' !in items[i]
    ensures WellSpacedOpen(ItemPieces(items), Some(SymPiece(RParen)))
  {
    if items == [] {
    } else if |items| == 1 {
      OpenSingle(Tok(Str(items[0])), Some(SymPiece(RParen)));
    } else {
      ItemsOpen(items[1..]);
      OpenTriple(Tok(Str(items[0])), SymPiece(Comma), Space, Head(ItemPieces(items[1..])));
      OpenConcat([Tok(Str(items[0])), SymPiece(Comma), Space], ItemPieces(items[1..]), Some(SymPiece(RParen)));
    }
  }

  lemma ValueOpen(value: FilterValue, next: Option<Piece>)
    requires Closes(next)
    requires value.String? ==> '\'' !in value.text
    requires value.List? ==> forall i | 0 <= i < |value.items| :: '\'' !in value.items[i]
    ensures ValuePieces(value) != [] && WellSpacedOpen(ValuePieces(value), next)
  {
    hide WellSpacedOpen, VOCABULARY;
    match value {
      case List(items) =>
        ItemsOpen(items);
        Parenthesize(ItemPieces(items), next);
      case Number(n) =>
        if n < 0 {
          OpenPair(SymPiece(Minus), Tok(Token.Number(Decimal.NatToString(-(n as int)))), next);
        } else {
          OpenSingle(Tok(Token.Number(Decimal.NatToString(n))), next);
        }
      case Boolean(b) =>
        FixedOpen(if b then "true" else "false", next);
      case String(s) =>
        OpenSingle(Tok(Str(s)), next);
    }
  }

  lemma LeafOpen(leaf: ConditionLeaf, sql: bool, next: Option<Piece>)
    requires UnquotedLeaf(leaf) && Closes(next)
    ensures LeafPieces(leaf, sql) != [] && WellSpacedOpen(LeafPieces(leaf, sql), next)
  {
    FieldOpen(leaf.field, Some(Space));
    hide FieldText, OperatorPieces, ValuePieces, WellSpacedOpen, KnownPiece;
    var operator, value := OperatorPieces(leaf.operator, sql), ValuePieces(leaf.value);
    ValueOpen(leaf.value, next);
    OperatorOpen(leaf.operator, sql);
    SpacedOpen(WordPiece(FieldText(leaf.field)), operator, value, next);
    Regrouped([WordPiece(FieldText(leaf.field)), Space], operator, [Space], value);
  }

  lemma Regrouped(a: seq<Piece>, b: seq<Piece>, c: seq<Piece>, d: seq<Piece>)
    ensures a + b + c + d == a + (b + (c + d))
  {
  }

  lemma FieldOpen(field: FilterField, next: Option<Piece>)
    requires !field.Header? && Closes(next)
    ensures KnownPiece(WordPiece(FieldText(field))) && Follows(WordPiece(FieldText(field)), next)
  {
    KnownWords(field);
  }

  lemma SpacedOpen(word: Piece, operator: seq<Piece>, value: seq<Piece>, next: Option<Piece>)
    requires KnownPiece(word) && Follows(word, Some(Space))
    requires operator != [] && WellSpacedOpen(operator, Some(Space)) && value != [] && WellSpacedOpen(value, next)
    ensures WellSpacedOpen([word, Space] + (operator + ([Space] + value)), next)
  {
    assert KnownPiece(Space);
    hide WellSpacedOpen, KnownPiece;
    OpenSingle(Space, Head(value));
    OpenConcat([Space], value, next);
    OpenConcat(operator, [Space] + value, next);
    OpenPair(word, Space, Head(operator + ([Space] + value)));
    OpenConcat([word, Space], operator + ([Space] + value), next);
  }

  lemma Parenthesize(body: seq<Piece>, next: Option<Piece>)
    requires body != [] ==> WellSpacedOpen(body, Some(SymPiece(RParen)))
    requires Closes(next)
    ensures WellSpacedOpen([SymPiece(LParen)] + body + [SymPiece(RParen)], next)
  {
    OpenSingle(SymPiece(RParen), next);
    if body == [] {
      assert body + [SymPiece(RParen)] == [SymPiece(RParen)];
    } else {
      OpenConcat(body, [SymPiece(RParen)], next);
    }
    OpenSingle(SymPiece(LParen), Head(body + [SymPiece(RParen)]));
    OpenConcat([SymPiece(LParen)], body + [SymPiece(RParen)], next);
    assert [SymPiece(LParen)] + (body + [SymPiece(RParen)]) == [SymPiece(LParen)] + body + [SymPiece(RParen)];
  }

  lemma {:induction false} NodeOpen(node: ConditionNode, sql: bool, next: Option<Piece>)
    requires Unquoted(node) && Closes(next)
    ensures NodePieces(node, sql) != [] ==> WellSpacedOpen(NodePieces(node, sql), next)
    decreases node
  {
    hide WellSpacedOpen;
    match node {
      case Leaf(leaf) => LeafOpen(leaf, sql, next);
      case And(children) => GroupOpen("AND", children, sql, next);
      case Or(children) => GroupOpen("OR", children, sql, next);
      case Not(inner) =>
        NodeOpen(inner, sql, Some(SymPiece(RParen)));
        NegatedOpen(NodePieces(inner, sql), next);
    }
  }

  lemma NegatedOpen(body: seq<Piece>, next: Option<Piece>)
    requires body != [] ==> WellSpacedOpen(body, Some(SymPiece(RParen)))
    requires Closes(next)
    ensures WellSpacedOpen([WordPiece("NOT"), Space, SymPiece(LParen)] + body + [SymPiece(RParen)], next)
  {
    hide WellSpacedOpen, VOCABULARY;
    Parenthesize(body, next);
    var group := [SymPiece(LParen)] + body + [SymPiece(RParen)];
    FixedWord("NOT", Some(Space));
    OpenPair(WordPiece("NOT"), Space, Some(SymPiece(LParen)));
    OpenConcat([WordPiece("NOT"), Space], group, next);
    assert [WordPiece("NOT"), Space] + group == [WordPiece("NOT"), Space, SymPiece(LParen)] + body + [SymPiece(RParen)];
  }

  lemma {:induction false} GroupOpen(word: string, nodes: seq<ConditionNode>, sql: bool, next: Option<Piece>)
    requires AllUnquoted(nodes) && Closes(next) && (word == "AND" || word == "OR")
    ensures nodes != [] ==> GroupPieces(word, nodes, sql) != [] && WellSpacedOpen(GroupPieces(word, nodes, sql), next)
    decreases nodes
  {
    if nodes == [] {
    } else {
      FixedWord(word, Some(Space));
      hide WellSpacedOpen, VOCABULARY, KnownPiece;
      assert KnownPiece(Space);
      var group := [SymPiece(LParen)] + NodePieces(nodes[0], sql) + [SymPiece(RParen)];
      NodeOpen(nodes[0], sql, Some(SymPiece(RParen)));
      if |nodes| == 1 {
        Parenthesize(NodePieces(nodes[0], sql), next);
        assert group + [] == group;
      } else {
        Parenthesize(NodePieces(nodes[0], sql), Some(Space));
        GroupOpen(word, nodes[1..], sql, next);
        OpenTriple(Space, WordPiece(word), Space, Head(GroupPieces(word, nodes[1..], sql)));
        OpenConcat([Space, WordPiece(word), Space], GroupPieces(word, nodes[1..], sql), next);
        OpenConcat(group, TailPieces(word, nodes[1..], sql), next);
      }
    }
  }

  // ---------------------------------------------------------------- literals and the header rewrite

  lemma HeaderFreeConcat(a: seq<Piece>, b: seq<Piece>)
    requires HeaderFree(a) && HeaderFree(b)
    ensures HeaderFree(a + b)
  {
  }

  /** No literal ends like an open header. */
  predicate NoOpenHeader(node: ConditionNode) {
    match node
    case Leaf(leaf) =>
      && (leaf.value.String? ==> !EndsLikeHeader(leaf.value.text))
      && (leaf.value.List? ==> forall i | 0 <= i < |leaf.value.items| :: !EndsLikeHeader(leaf.value.items[i]))
    case And(children) => NoOpenHeaders(children)
    case Or(children) => NoOpenHeaders(children)
    case Not(inner) => NoOpenHeader(inner)
  }

  predicate NoOpenHeaders(nodes: seq<ConditionNode>) {
    nodes == [] || (NoOpenHeader(nodes[0]) && NoOpenHeaders(nodes[1..]))
  }

  lemma {:induction false} ItemsHeaderFree(items: seq<string>)
    requires forall i | 0 <= i < |items| :: !EndsLikeHeader(items[i])
    ensures HeaderFree(ItemPieces(items))
  {
    if |items| <= 1 {
    } else {
      ItemsHeaderFree(items[1..]);
      HeaderFreeConcat([Tok(Str(items[0])), SymPiece(Comma), Space], ItemPieces(items[1..]));
    }
  }

  lemma LeafHeaderFree(leaf: ConditionLeaf)
    requires NoOpenHeader(Leaf(leaf))
    ensures HeaderFree(LeafPieces(leaf, false))
  {
    hide EndsLikeHeader;
    if leaf.value.List? { ItemsHeaderFree(leaf.value.items); }
    HeaderFreeConcat([WordPiece(FieldText(leaf.field)), Space] + OperatorPieces(leaf.operator, false) + [Space], ValuePieces(leaf.value));
  }

  lemma {:induction false} NodeHeaderFree(node: ConditionNode)
    requires NoOpenHeader(node)
    ensures HeaderFree(NodePieces(node, false))
    decreases node
  {
    match node {
      case Leaf(leaf) => LeafHeaderFree(leaf);
      case And(children) => GroupHeaderFree("AND", children);
      case Or(children) => GroupHeaderFree("OR", children);
      case Not(inner) => NodeHeaderFree(inner);
    }
  }

  lemma {:induction false} GroupHeaderFree(word: string, nodes: seq<ConditionNode>)
    requires NoOpenHeaders(nodes)
    ensures HeaderFree(GroupPieces(word, nodes, false))
    decreases nodes
  {
    if nodes == [] {
    } else {
      NodeHeaderFree(nodes[0]);
      GroupHeaderFree(word, nodes[1..]);
      HeaderFreeConcat([SymPiece(LParen)] + NodePieces(nodes[0], false) + [SymPiece(RParen)], TailPieces(word, nodes[1..], false));
    }
  }

  // ---------------------------------------------------------------- the rewrites, on the tree

  function RewriteItems(u: Unicode, items: seq<string>): (r: seq<string>)
    ensures |r| == |items|
    ensures forall i | 0 <= i < |items| :: r[i] == RewriteWords(u, items[i])
  {
    if items == [] then [] else [RewriteWords(u, items[0])] + RewriteItems(u, items[1..])
  }

  /** The condition with its literals as the rewrites leave them. */
  function RewriteLeaf(u: Unicode, leaf: ConditionLeaf): ConditionLeaf {
    match leaf.value
    case String(s) => leaf.(value := String(RewriteWords(u, s)))
    case List(items) => leaf.(value := List(RewriteItems(u, items)))
    case _ => leaf
  }

  function RewriteNode(u: Unicode, node: ConditionNode): ConditionNode {
    match node
    case Leaf(leaf) => Leaf(RewriteLeaf(u, leaf))
    case And(children) => And(RewriteNodes(u, children))
    case Or(children) => Or(RewriteNodes(u, children))
    case Not(inner) => Not(RewriteNode(u, inner))
  }

  function RewriteNodes(u: Unicode, nodes: seq<ConditionNode>): (r: seq<ConditionNode>)
    ensures |r| == |nodes|
  {
    if nodes == [] then [] else [RewriteNode(u, nodes[0])] + RewriteNodes(u, nodes[1..])
  }

  /** Both word rewrites on pieces. */
  function RewriteBoth(u: Unicode, ps: seq<Piece>): seq<Piece> {
    NsqlReading.RewritePieces(u, NsqlReading.RewritePieces(u, ps, CONTAINS_WORD, Word("LIKE")), MATCHES_WORD, Sym(Tilde))
  }

  lemma {:induction false} RewritePiecesConcat(u: Unicode, a: seq<Piece>, b: seq<Piece>, kw: string, tok: Token)
    requires kw != ""
    ensures NsqlReading.RewritePieces(u, a + b, kw, tok) ==
            NsqlReading.RewritePieces(u, a, kw, tok) + NsqlReading.RewritePieces(u, b, kw, tok)
  {
    if a == [] {
      assert a + b == b;
    } else {
      assert (a + b)[1..] == a[1..] + b;
      RewritePiecesConcat(u, a[1..], b, kw, tok);
    }
  }

  lemma RewriteBothConcat(u: Unicode, a: seq<Piece>, b: seq<Piece>)
    ensures RewriteBoth(u, a + b) == RewriteBoth(u, a) + RewriteBoth(u, b)
  {
    RewritePiecesConcat(u, a, b, CONTAINS_WORD, Word("LIKE"));
    RewritePiecesConcat(u, NsqlReading.RewritePieces(u, a, CONTAINS_WORD, Word("LIKE")),
                        NsqlReading.RewritePieces(u, b, CONTAINS_WORD, Word("LIKE")), MATCHES_WORD, Sym(Tilde));
  }

  /** One piece after both rewrites. */
  function RewrittenPiece(u: Unicode, p: Piece): Piece {
    match p
    case Tok(Word(w)) => if w == CONTAINS_WORD then WordPiece("LIKE") else if w == MATCHES_WORD then SymPiece(Tilde) else p
    case Tok(Str(s)) => Tok(Str(RewriteWords(u, s)))
    case _ => p
  }

  lemma RewriteBothOne(u: Unicode, p: Piece)
    ensures RewriteBoth(u, [p]) == [RewrittenPiece(u, p)]
  {
    hide ReplaceWord;
    assert [p][1..] == [];
    var q := NsqlReading.RewritePiece(u, p, CONTAINS_WORD, Word("LIKE"));
    assert [q][1..] == [];
    assert PieceText(Tok(Word("LIKE"))) == "LIKE" && PieceText(Tok(Sym(Tilde))) == "~";
  }

  lemma RewriteBothTwo(u: Unicode, p: Piece, q: Piece)
    ensures RewriteBoth(u, [p, q]) == [RewrittenPiece(u, p), RewrittenPiece(u, q)]
  {
    hide RewriteBoth, RewrittenPiece;
    assert [p, q] == [p] + [q];
    RewriteBothConcat(u, [p], [q]);
    RewriteBothOne(u, p);
    RewriteBothOne(u, q);
  }

  lemma RewriteBothThree(u: Unicode, p: Piece, q: Piece, r: Piece)
    ensures RewriteBoth(u, [p, q, r]) == [RewrittenPiece(u, p), RewrittenPiece(u, q), RewrittenPiece(u, r)]
  {
    hide RewriteBoth, RewrittenPiece;
    assert [p, q, r] == [p] + [q, r];
    RewriteBothConcat(u, [p], [q, r]);
    RewriteBothOne(u, p);
    RewriteBothTwo(u, q, r);
  }

  lemma {:induction false} ItemsRewritten(u: Unicode, items: seq<string>)
    ensures RewriteBoth(u, ItemPieces(items)) == ItemPieces(RewriteItems(u, items))
  {
    hide RewriteWords;
    if items == [] {
    } else if |items| == 1 {
      RewriteBothOne(u, Tok(Str(items[0])));
    } else {
      hide RewriteBoth;
      ItemsRewritten(u, items[1..]);
      RewriteBothThree(u, Tok(Str(items[0])), SymPiece(Comma), Space);
      RewriteBothConcat(u, [Tok(Str(items[0])), SymPiece(Comma), Space], ItemPieces(items[1..]));
      assert RewriteItems(u, items)[1..] == RewriteItems(u, items[1..]);
    }
  }

  lemma OperatorRewritten(u: Unicode, operator: FilterOperator)
    ensures RewriteBoth(u, OperatorPieces(operator, false)) == OperatorPieces(operator, true)
  {
    hide RewriteBoth;
    if operator == NotContains || operator == NotIn {
      RewriteBothThree(u, OperatorPieces(operator, false)[0], Space, OperatorPieces(operator, false)[2]);
    } else {
      RewriteBothOne(u, OperatorPieces(operator, false)[0]);
    }
  }

  lemma ValueRewritten(u: Unicode, leaf: ConditionLeaf)
    ensures RewriteBoth(u, ValuePieces(leaf.value)) == ValuePieces(RewriteLeaf(u, leaf).value)
  {
    hide RewriteBoth, RewriteWords;
    match leaf.value {
      case List(items) =>
        ItemsRewritten(u, items);
        RewriteBothConcat(u, [SymPiece(LParen)] + ItemPieces(items), [SymPiece(RParen)]);
        RewriteBothConcat(u, [SymPiece(LParen)], ItemPieces(items));
        RewriteBothOne(u, SymPiece(LParen));
        RewriteBothOne(u, SymPiece(RParen));
      case Number(n) =>
        if n < 0 {
          RewriteBothTwo(u, ValuePieces(leaf.value)[0], ValuePieces(leaf.value)[1]);
        } else {
          RewriteBothOne(u, ValuePieces(leaf.value)[0]);
        }
      case _ =>
        RewriteBothOne(u, ValuePieces(leaf.value)[0]);
    }
  }

  lemma LeafRewritten(u: Unicode, leaf: ConditionLeaf)
    requires !leaf.field.Header?
    ensures RewriteBoth(u, LeafPieces(leaf, false)) == LeafPieces(RewriteLeaf(u, leaf), true)
  {
    KnownWords(leaf.field);
    hide RewriteBoth, OperatorPieces, ValuePieces, VOCABULARY;
    var word := WordPiece(FieldText(leaf.field));
    var operator, value := OperatorPieces(leaf.operator, false), ValuePieces(leaf.value);
    FieldIsNoKeyword(leaf.field);
    RewriteBothTwo(u, word, Space);
    OperatorRewritten(u, leaf.operator);
    RewriteBothOne(u, Space);
    ValueRewritten(u, leaf);
    RewriteBothConcat(u, [word, Space] + operator + [Space], value);
    RewriteBothConcat(u, [word, Space] + operator, [Space]);
    RewriteBothConcat(u, [word, Space], operator);
  }

  lemma FieldIsNoKeyword(field: FilterField)
    requires !field.Header?
    ensures FieldText(field) != CONTAINS_WORD && FieldText(field) != MATCHES_WORD
  {
    assert CONTAINS_WORD[0] == 'C' && MATCHES_WORD[0] == 'M';
    assert FieldText(field)[0] != 'C' && FieldText(field)[0] != 'M';
  }

  lemma {:induction false} NodeRewritten(u: Unicode, node: ConditionNode)
    requires HeaderFreeNode(node)
    ensures RewriteBoth(u, NodePieces(node, false)) == NodePieces(RewriteNode(u, node), true)
    decreases node
  {
    hide RewriteBoth;
    match node {
      case Leaf(leaf) => LeafRewritten(u, leaf);
      case And(children) => GroupRewritten(u, "AND", children);
      case Or(children) => GroupRewritten(u, "OR", children);
      case Not(inner) =>
        NodeRewritten(u, inner);
        var head := [WordPiece("NOT"), Space, SymPiece(LParen)];
        RewriteBothThree(u, WordPiece("NOT"), Space, SymPiece(LParen));
        RewriteBothConcat(u, head + NodePieces(inner, false), [SymPiece(RParen)]);
        RewriteBothConcat(u, head, NodePieces(inner, false));
        RewriteBothOne(u, SymPiece(RParen));
    }
  }

  lemma {:induction false} GroupRewritten(u: Unicode, word: string, nodes: seq<ConditionNode>)
    requires HeaderFreeNodes(nodes) && (word == "AND" || word == "OR")
    ensures RewriteBoth(u, GroupPieces(word, nodes, false)) == GroupPieces(word, RewriteNodes(u, nodes), true)
    decreases nodes, 0
  {
    if nodes == [] {
      assert RewriteBoth(u, []) == [];
    } else {
      hide RewriteBoth;
      NodeRewritten(u, nodes[0]);
      var group := [SymPiece(LParen)] + NodePieces(nodes[0], false) + [SymPiece(RParen)];
      RewriteBothConcat(u, group, TailPieces(word, nodes[1..], false));
      RewriteBothConcat(u, [SymPiece(LParen)] + NodePieces(nodes[0], false), [SymPiece(RParen)]);
      RewriteBothConcat(u, [SymPiece(LParen)], NodePieces(nodes[0], false));
      RewriteBothOne(u, SymPiece(LParen));
      RewriteBothOne(u, SymPiece(RParen));
      assert RewriteNodes(u, nodes)[1..] == RewriteNodes(u, nodes[1..]);
      TailRewritten(u, word, nodes[1..]);
    }
  }

  lemma {:induction false} TailRewritten(u: Unicode, word: string, nodes: seq<ConditionNode>)
    requires HeaderFreeNodes(nodes) && (word == "AND" || word == "OR")
    ensures RewriteBoth(u, TailPieces(word, nodes, false)) == TailPieces(word, RewriteNodes(u, nodes), true)
    decreases nodes, 1
  {
    if nodes == [] {
      assert RewriteBoth(u, []) == [];
    } else {
      hide RewriteBoth;
      GroupRewritten(u, word, nodes);
      RewriteBothThree(u, Space, WordPiece(word), Space);
      RewriteBothConcat(u, [Space, WordPiece(word), Space], GroupPieces(word, nodes, false));
    }
  }
}
