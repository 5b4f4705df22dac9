/** Which printed conditions parse, and to what: the tree with its operands nested to the left. */
module NsqlReread {
  import opened Wrappers
  import opened Text
  import Decimal
  import opened NsqlAst
  import opened NsqlPreprocess
  import opened SqlSubset
  import opened NsqlConvert
  import opened NsqlRule
  import opened NsqlPieces
  import NsqlReading
  import opened NsqlPrinted
  import opened NsqlReparse

  // ---------------------------------------------------------------- the tree a printed condition is read as

  predicate IsMembership(operator: FilterOperator) { operator == In || operator == NotIn }

  /** What a leaf needs to be read back: IN takes a non-empty list; elsewhere a number must not be negative,
      since the sign is read as an operator, and a list needs two items, since one is read as parentheses. */
  predicate LeafReadsBack(leaf: ConditionLeaf) {
    if IsMembership(leaf.operator) then leaf.value.List? && leaf.value.items != []
    else
      match leaf.value
      case Number(n) => n >= 0
      case List(items) => |items| >= 2
      case _ => true
  }

  /** Every connective has operands and every leaf reads back. */
  predicate ReadsBack(node: ConditionNode) {
    match node
    case Leaf(leaf) => LeafReadsBack(leaf)
    case And(children) => children != [] && AllReadBack(children)
    case Or(children) => children != [] && AllReadBack(children)
    case Not(inner) => ReadsBack(inner)
  }

  predicate AllReadBack(nodes: seq<ConditionNode>) {
    nodes == [] || (ReadsBack(nodes[0]) && AllReadBack(nodes[1..]))
  }

  function Pair(op: BinaryOp, a: ConditionNode, b: ConditionNode): ConditionNode {
    if op == AndOp then And([a, b]) else Or([a, b])
  }

  /** Connectives of any width as nested pairs, the first two operands innermost. */
  function LeftNested(node: ConditionNode): ConditionNode
    decreases node
  {
    match node
    case Leaf(_) => node
    case And(children) => if children == [] then node else FoldNodes(AndOp, LeftNested(children[0]), children[1..])
    case Or(children) => if children == [] then node else FoldNodes(OrOp, LeftNested(children[0]), children[1..])
    case Not(inner) => Not(LeftNested(inner))
  }

  function FoldNodes(op: BinaryOp, left: ConditionNode, nodes: seq<ConditionNode>): ConditionNode
    decreases nodes
  {
    if nodes == [] then left else FoldNodes(op, Pair(op, left, LeftNested(nodes[0])), nodes[1..])
  }

  // ---------------------------------------------------------------- leaves

  lemma AsciiField(field: FilterField)
    requires !field.Header?
    ensures AllAscii(FieldText(field)) && AsciiLower(FieldText(field)) == FieldText(field)
    ensures !(HEADER_PREFIX <= FieldText(field))
  {
    if field == HasAttachment { assert FieldText(field)[1] == 'a' && HEADER_PREFIX[1] == 'e'; }
  }

  lemma FieldReadsBack(u: Unicode, field: FilterField)
    requires u.Valid() && !field.Header?
    ensures ExtractField(u, Identifier(FieldText(field))) == Ok(field)
  {
    AsciiField(field);
    assert u.lower(FieldText(field)) == FieldText(field);
  }

  lemma {:induction false} TupleReadsBack(items: seq<string>)
    ensures TupleStrings(Literals(items)) == items
  {
    if items == [] {
    } else {
      TupleReadsBack(items[1..]);
      assert Literals(items)[1..] == Literals(items[1..]);
      assert [items[0]] + items[1..] == items;
    }
  }

  lemma {:induction false} LiteralsConcat(a: seq<string>, s: string)
    ensures Literals(a + [s]) == Literals(a) + [StringLit(s)]
  {
    if a == [] {
      assert a + [s] == [s] && [s][1..] == [];
      assert Literals([s]) == [StringLit(s)] + Literals([s][1..]);
    } else {
      assert (a + [s])[1..] == a[1..] + [s];
      LiteralsConcat(a[1..], s);
    }
  }

  lemma {:induction false} ItemsReadBack(items: seq<string>)
    ensures ListItems(Literals(items)) == Ok(items)
    decreases |items|
  {
    if items == [] {
    } else {
      var front, last := items[..|items| - 1], items[|items| - 1];
      assert items == front + [last];
      LiteralsConcat(front, last);
      ItemsReadBack(front);
      var es := Literals(items);
      assert es[..|es| - 1] == Literals(front) && es[|es| - 1] == StringLit(last);
    }
  }

  lemma ValueReadsBack(u: Unicode, value: FilterValue)
    requires value.List? ==> value.items != []
    ensures ExtractValue(u, ValueExpr(value)).Ok? <==> (value.Number? ==> value.number >= 0) && (value.List? ==> |value.items| >= 2)
    ensures ExtractValue(u, ValueExpr(value)).Ok? ==> ExtractValue(u, ValueExpr(value)).value == value
  {
    match value {
      case Number(n) => if n >= 0 { Decimal.ParsePrinted(n, MAX_I64); }
      case List(items) => TupleReadsBack(items);
      case _ =>
    }
  }

  lemma ReadsBackReadable(leaf: ConditionLeaf)
    requires LeafReadsBack(leaf)
    ensures ReadableLeaf(leaf)
  {
  }

  lemma LeafConverts(u: Unicode, leaf: ConditionLeaf)
    requires u.Valid() && !leaf.field.Header? && ReadableLeaf(leaf)
    ensures var e := LeafExpr(leaf);
            && !IsConnective(e)
            && (ConvertCondition(u, e).Ok? <==> LeafReadsBack(leaf))
            && (ConvertCondition(u, e).Ok? ==> ConvertCondition(u, e).value == Leaf(leaf))
  {
    hide ExtractField, ExtractValue, ListItems, ValueExpr, FieldText, Literals;
    FieldReadsBack(u, leaf.field);
    ValueReadsBack(u, leaf.value);
    if IsMembership(leaf.operator) { ItemsReadBack(leaf.value.items); }
  }

  // ---------------------------------------------------------------- trees

  lemma {:induction false} NodeConverts(u: Unicode, node: ConditionNode)
    requires u.Valid() && HeaderFreeNode(node) && Readable(node)
    ensures Convertible(u, NodeExpr(node)) <==> ReadsBack(node)
    ensures ReadsBack(node) ==> Strip(u, NodeExpr(node)) == LeftNested(node)
    decreases node
  {
    hide LeafExpr, ReadableLeaf, LeafReadsBack, ConvertCondition;
    match node {
      case Leaf(leaf) => LeafConverts(u, leaf);
      case And(children) =>
        NodeConverts(u, children[0]);
        FoldConverts(u, AndOp, Nested(NodeExpr(children[0])), children[1..]);
      case Or(children) =>
        NodeConverts(u, children[0]);
        FoldConverts(u, OrOp, Nested(NodeExpr(children[0])), children[1..]);
      case Not(inner) => NodeConverts(u, inner);
    }
  }

  lemma {:induction false} FoldConverts(u: Unicode, op: BinaryOp, left: Expr, nodes: seq<ConditionNode>)
    requires u.Valid() && HeaderFreeNodes(nodes) && AllReadable(nodes) && (op == AndOp || op == OrOp)
    ensures Convertible(u, FoldExpr(op, left, nodes)) <==> Convertible(u, left) && AllReadBack(nodes)
    ensures Convertible(u, FoldExpr(op, left, nodes)) ==> Strip(u, FoldExpr(op, left, nodes)) == FoldNodes(op, Strip(u, left), nodes)
    decreases nodes
  {
    if nodes == [] {
    } else {
      hide NodeExpr, ReadsBack, LeftNested;
      NodeConverts(u, nodes[0]);
      FoldConverts(u, op, Binary(op, left, Nested(NodeExpr(nodes[0]))), nodes[1..]);
    }
  }

  lemma {:induction false} ReadsBackIsReadable(node: ConditionNode)
    requires ReadsBack(node)
    ensures Readable(node)
    decreases node
  {
    match node {
      case Leaf(leaf) => ReadsBackReadable(leaf);
      case And(children) => AllReadBackReadable(children);
      case Or(children) => AllReadBackReadable(children);
      case Not(inner) => ReadsBackIsReadable(inner);
    }
  }

  lemma {:induction false} AllReadBackReadable(nodes: seq<ConditionNode>)
    requires AllReadBack(nodes)
    ensures AllReadable(nodes)
    decreases nodes
  {
    if nodes == [] {
    } else {
      ReadsBackIsReadable(nodes[0]);
      AllReadBackReadable(nodes[1..]);
    }
  }

  /** Converting what the parser makes of the printed tokens: exactly the trees that read back and whose
      nested form stays within the depth limit. */
  lemma ConvertPrinted(u: Unicode, node: ConditionNode)
    requires u.Valid() && HeaderFreeNode(node) && Readable(node)
    ensures ConvertExpr(u, NodeExpr(node), 1).Ok? <==> ReadsBack(node) && Depth(LeftNested(node)) <= MAX_AST_DEPTH
    ensures ConvertExpr(u, NodeExpr(node), 1).Ok? ==> ConvertExpr(u, NodeExpr(node), 1).value == LeftNested(node)
  {
    hide NodeExpr, ConvertExpr, Convertible, Strip, LogicalDepth, ReadsBack, LeftNested;
    NodeConverts(u, node);
    DepthDiscipline(u, NodeExpr(node), 1);
  }

  // ---------------------------------------------------------------- the rewrites keep the shape

  lemma {:induction false} RewriteKeepsShape(u: Unicode, node: ConditionNode)
    requires HeaderFreeNode(node)
    ensures ReadsBack(RewriteNode(u, node)) == ReadsBack(node)
    ensures HeaderFreeNode(RewriteNode(u, node))
    decreases node
  {
    hide RewriteWords;
    match node {
      case Leaf(_) =>
      case And(children) => RewriteKeepsShapes(u, children);
      case Or(children) => RewriteKeepsShapes(u, children);
      case Not(inner) => RewriteKeepsShape(u, inner);
    }
  }

  lemma {:induction false} RewriteKeepsShapes(u: Unicode, nodes: seq<ConditionNode>)
    requires HeaderFreeNodes(nodes)
    ensures AllReadBack(RewriteNodes(u, nodes)) == AllReadBack(nodes)
    ensures HeaderFreeNodes(RewriteNodes(u, nodes))
    decreases nodes
  {
    if nodes == [] {
    } else {
      RewriteKeepsShape(u, nodes[0]);
      RewriteKeepsShapes(u, nodes[1..]);
      assert RewriteNodes(u, nodes)[1..] == RewriteNodes(u, nodes[1..]);
    }
  }

  // ---------------------------------------------------------------- the statement as pieces

  const STATEMENT_HEAD: seq<Piece> :=
    [WordPiece("SELECT"), Space, SymPiece(Star), Space, WordPiece("FROM"), Space, WordPiece("emails"), Space, WordPiece("WHERE")]

  /** The pieces behind WHERE. */
  function Tail(body: seq<Piece>): seq<Piece> { if body == [] then [] else [Space] + body }

  function StatementPieces(node: ConditionNode, sql: bool): seq<Piece> { STATEMENT_HEAD + Tail(NodePieces(node, sql)) }

  lemma FlattenSpaced(p: Piece, rest: seq<Piece>)
    ensures Flatten([p, Space] + rest) == PieceText(p) + " " + Flatten(rest)
    ensures p.Tok? ==> TokensOf([p, Space] + rest) == [p.token] + TokensOf(rest)
  {
    var ps := [p, Space] + rest;
    assert ps[1..] == [Space] + rest && ([Space] + rest)[1..] == rest;
    ConcatAssociates(PieceText(p), " ", Flatten(rest));
    if p.Tok? { assert TokensOf([Space] + rest) == [] + TokensOf(rest) == TokensOf(rest); }
  }

  const STATEMENT_TEXT: string := "SELECT * FROM emails WHERE"

  lemma PrefixIsStatement()
    ensures SELECT_PREFIX == STATEMENT_TEXT + " "
  {
  }

  /** Five pieces with a space between each two. */
  function FiveSpaced(p: Piece, q: Piece, r: Piece, s: Piece, t: Piece): seq<Piece> {
    [p, Space] + ([q, Space] + ([r, Space] + ([s, Space] + [t])))
  }

  lemma FiveSpelled(p: Piece, q: Piece, r: Piece, s: Piece, t: Piece)
    requires p.Tok? && q.Tok? && r.Tok? && s.Tok? && t.Tok?
    ensures Flatten(FiveSpaced(p, q, r, s, t)) ==
            PieceText(p) + " " + (PieceText(q) + " " + (PieceText(r) + " " + (PieceText(s) + " " + PieceText(t))))
    ensures TokensOf(FiveSpaced(p, q, r, s, t)) == [p.token, q.token, r.token, s.token, t.token]
  {
    hide Flatten, TokensOf, PieceText;
    FlattenOne(t);
    FlattenSpaced(s, [t]);
    FlattenSpaced(r, [s, Space] + [t]);
    FlattenSpaced(q, [r, Space] + ([s, Space] + [t]));
    FlattenSpaced(p, [q, Space] + ([r, Space] + ([s, Space] + [t])));
  }

  lemma StatementTextParts()
    ensures "SELECT" + " " + ("*" + " " + ("FROM" + " " + ("emails" + " " + "WHERE"))) == STATEMENT_TEXT
  {
    assert "FROM" + " " + ("emails" + " " + "WHERE") == "FROM emails WHERE";
  }

  lemma HeadSpelled()
    ensures Flatten(STATEMENT_HEAD) == STATEMENT_TEXT
    ensures TokensOf(STATEMENT_HEAD) == [Word("SELECT"), Sym(Star), Word("FROM"), Word("emails"), Word("WHERE")]
  {
    hide Flatten, TokensOf, STATEMENT_TEXT;
    StatementTextParts();
    FiveSpelled(WordPiece("SELECT"), SymPiece(Star), WordPiece("FROM"), WordPiece("emails"), WordPiece("WHERE"));
    assert STATEMENT_HEAD == FiveSpaced(WordPiece("SELECT"), SymPiece(Star), WordPiece("FROM"), WordPiece("emails"), WordPiece("WHERE"));
  }

  lemma StatementKnown(next: Option<Piece>)
    requires Closes(next)
    ensures forall w | w == "SELECT" || w == "FROM" || w == "emails" || w == "WHERE" ::
              KnownPiece(WordPiece(w)) && Follows(WordPiece(w), next)
  {
    assert VOCABULARY[0] == "SELECT" && VOCABULARY[1] == "FROM" && VOCABULARY[2] == "emails" && VOCABULARY[3] == "WHERE";
    assert MATCHES_WORD[0] == 'M';
  }

  lemma StarKnown()
    ensures KnownPiece(SymPiece(Star)) && Follows(SymPiece(Star), Some(Space))
  {
  }

  lemma OpenSpaced(p: Piece, rest: seq<Piece>, next: Option<Piece>)
    requires KnownPiece(p) && Follows(p, Some(Space)) && rest != [] && WellSpacedOpen(rest, next)
    ensures WellSpacedOpen([p, Space] + rest, next)
  {
    assert KnownPiece(Space);
    hide WellSpacedOpen, KnownPiece;
    OpenPair(p, Space, Head(rest));
    OpenConcat([p, Space], rest, next);
  }

  lemma HeadOpen(next: Option<Piece>)
    requires Closes(next)
    ensures WellSpacedOpen(STATEMENT_HEAD, next)
  {
    var select, from, emails, where := WordPiece("SELECT"), WordPiece("FROM"), WordPiece("emails"), WordPiece("WHERE");
    var second := [SymPiece(Star), Space] + ([from, Space] + ([emails, Space] + [where]));
    assert STATEMENT_HEAD == [select, Space] + second;
    StatementKnown(Some(Space));
    StatementKnown(next);
    StarKnown();
    hide *;
    OpenSingle(where, next);
    OpenSpaced(emails, [where], next);
    OpenSpaced(from, [emails, Space] + [where], next);
    OpenSpaced(SymPiece(Star), [from, Space] + ([emails, Space] + [where]), next);
    OpenSpaced(select, second, next);
  }

  lemma StatementWellSpaced(node: ConditionNode, sql: bool)
    requires Unquoted(node)
    ensures WellSpaced(StatementPieces(node, sql))
  {
    hide WellSpacedOpen, WellSpaced, STATEMENT_HEAD;
    var body := NodePieces(node, sql);
    NodeOpen(node, sql, None);
    if body == [] {
      HeadOpen(None);
      assert STATEMENT_HEAD + [] == STATEMENT_HEAD;
    } else {
      HeadOpen(Some(Space));
      OpenSingle(Space, Head(body));
      OpenConcat([Space], body, None);
      OpenConcat(STATEMENT_HEAD, [Space] + body, None);
    }
    OpenIsClosed(StatementPieces(node, sql));
  }

  // ---------------------------------------------------------------- the rewrites of the statement

  lemma StatementWordsKept(u: Unicode)
    ensures forall w | w == "SELECT" || w == "FROM" || w == "emails" || w == "WHERE" :: RewrittenPiece(u, WordPiece(w)) == WordPiece(w)
    ensures RewrittenPiece(u, Space) == Space && RewrittenPiece(u, SymPiece(Star)) == SymPiece(Star)
  {
    assert CONTAINS_WORD[0] == 'C' && MATCHES_WORD[0] == 'M';
  }

  lemma HeadRewritten(u: Unicode)
    ensures RewriteBoth(u, STATEMENT_HEAD) == STATEMENT_HEAD
  {
    StatementWordsKept(u);
    hide RewriteBoth, RewrittenPiece;
    var a, b, c := [WordPiece("SELECT"), Space, SymPiece(Star)], [Space, WordPiece("FROM"), Space], [WordPiece("emails"), Space, WordPiece("WHERE")];
    assert STATEMENT_HEAD == a + b + c;
    RewriteBothConcat(u, a + b, c);
    RewriteBothConcat(u, a, b);
    RewriteBothThree(u, a[0], a[1], a[2]);
    RewriteBothThree(u, b[0], b[1], b[2]);
    RewriteBothThree(u, c[0], c[1], c[2]);
  }

  lemma RewritingNothing(u: Unicode)
    ensures RewriteBoth(u, []) == []
  {
  }

  lemma StatementRewritten(u: Unicode, node: ConditionNode)
    requires HeaderFreeNode(node)
    ensures RewriteBoth(u, StatementPieces(node, false)) == StatementPieces(RewriteNode(u, node), true)
  {
    hide RewriteBoth, NodePieces, STATEMENT_HEAD;
    var body := NodePieces(node, false);
    HeadRewritten(u);
    NodeRewritten(u, node);
    RewriteBothConcat(u, STATEMENT_HEAD, Tail(body));
    RewriteBothConcat(u, [Space], body);
    RewriteBothOne(u, Space);
    RewritingNothing(u);
    RewriteBothLength(u, body);
  }

  lemma RewriteBothLength(u: Unicode, ps: seq<Piece>)
    ensures |RewriteBoth(u, ps)| == |ps|
  {
  }

  lemma BothRewritesOfPieces(u: Unicode, ps: seq<Piece>)
    requires u.Valid() && WellSpaced(ps)
    ensures RewriteWords(u, Flatten(ps)) == Flatten(RewriteBoth(u, ps))
    ensures WellSpaced(RewriteBoth(u, ps))
  {
    hide WellSpaced, ReplaceWord, Flatten, NsqlReading.RewritePieces;
    var once := NsqlReading.RewritePieces(u, ps, CONTAINS_WORD, Word("LIKE"));
    NsqlReading.PiecesRewritten(u, false, ps, CONTAINS_WORD, Word("LIKE"));
    NsqlReading.RewrittenWellSpaced(u, ps, CONTAINS_WORD, Word("LIKE"));
    NsqlReading.PiecesRewritten(u, false, once, MATCHES_WORD, Sym(Tilde));
    NsqlReading.RewrittenWellSpaced(u, once, MATCHES_WORD, Sym(Tilde));
    assert PieceText(Tok(Word("LIKE"))) == "LIKE" && PieceText(Tok(Sym(Tilde))) == "~";
  }

  // ---------------------------------------------------------------- reading the statement

  lemma StatementAsTokens(node: ConditionNode)
    ensures TokensOf(StatementPieces(node, true)) ==
            [Word("SELECT"), Sym(Star), Word("FROM"), Word("emails"), Word("WHERE")] + NodeTokens(node)
  {
    hide TokensOf, STATEMENT_HEAD, NodePieces, NodeTokens;
    var body := NodePieces(node, true);
    HeadSpelled();
    NodeAsTokens(node);
    FlattenConcat(STATEMENT_HEAD, Tail(body));
    FlattenConcat([Space], body);
    FlattenOne(Space);
    assert [] + TokensOf(body) == TokensOf(body);
  }

  lemma SelectWords()
    ensures SameIgnoreCase("SELECT", "SELECT") && SameIgnoreCase("FROM", "FROM") && SameIgnoreCase("WHERE", "WHERE")
  {
  }

  lemma EmptyParsesToNothing()
    ensures ParseSub(0, []) == None
  {
    assert ParsePrefix([]) == None;
  }

  lemma StatementParses(node: ConditionNode)
    requires HeaderFreeNode(node)
    ensures ParseSelect(TokensOf(StatementPieces(node, true))) == if Readable(node) then Some(NodeExpr(node)) else None
  {
    hide ParseSub, TokensOf, StatementPieces, NodeTokens, SameIgnoreCase;
    StatementAsTokens(node);
    SelectWords();
    var head := [Word("SELECT"), Sym(Star), Word("FROM"), Word("emails"), Word("WHERE")];
    var ts := head + NodeTokens(node);
    assert ts[..5] == head && ts[5..] == NodeTokens(node);
    assert ts[0] == head[0] && ts[1] == head[1] && ts[2] == head[2] && ts[3] == head[3] && ts[4] == head[4];
    ParseNode(node, []);
    assert NodeTokens(node) + [] == NodeTokens(node);
    if |ts| == 5 {
      assert NodeTokens(node) == [];
      EmptyParsesToNothing();
    }
  }

  lemma SelectIsUpper()
    ensures AllAscii("SELECT") && AsciiUpper("SELECT") == "SELECT"
  {
  }

  lemma SelectStartsUpper(u: Unicode, rest: string)
    requires u.Valid()
    ensures FullStatement(u, STATEMENT_TEXT + rest) == STATEMENT_TEXT + rest
  {
    hide FullStatement, Unicode.Valid;
    SelectFirst();
    hide STATEMENT_TEXT;
    ConcatAssociates("SELECT", STATEMENT_TEXT[6..], rest);
    SelectIsFull(u, STATEMENT_TEXT[6..] + rest);
  }

  lemma SelectFirst()
    ensures |STATEMENT_TEXT| > 6 && STATEMENT_TEXT == "SELECT" + STATEMENT_TEXT[6..]
  {
  }

  lemma SelectIsFull(u: Unicode, more: string)
    requires u.Valid()
    ensures FullStatement(u, "SELECT" + more) == "SELECT" + more
  {
    SelectIsUpper();
    hide Unicode.Upper, AsciiUpper, AllAscii, Unicode.Valid;
    UpperAsciiPrefix(u, "SELECT", more);
    assert "SELECT" <= u.Upper("SELECT" + more);
  }

  /** The last printed piece is not a space. */
  lemma {:induction false} NodeEnds(node: ConditionNode, sql: bool)
    ensures NodePieces(node, sql) != [] ==> NodePieces(node, sql)[|NodePieces(node, sql)| - 1].Tok?
    decreases node
  {
    match node {
      case Leaf(leaf) =>
        var value := ValuePieces(leaf.value);
        assert value != [] && value[|value| - 1].Tok?;
      case And(children) => GroupEnds("AND", children, sql);
      case Or(children) => GroupEnds("OR", children, sql);
      case Not(inner) =>
    }
  }

  lemma {:induction false} GroupEnds(word: string, nodes: seq<ConditionNode>, sql: bool)
    ensures nodes != [] ==> GroupPieces(word, nodes, sql) != [] && GroupPieces(word, nodes, sql)[|GroupPieces(word, nodes, sql)| - 1].Tok?
    decreases nodes
  {
    if |nodes| <= 1 {
    } else {
      GroupEnds(word, nodes[1..], sql);
      var rest := GroupPieces(word, nodes[1..], sql);
      var all := GroupPieces(word, nodes, sql);
      var front := [SymPiece(LParen)] + NodePieces(nodes[0], sql) + [SymPiece(RParen)];
      assert all == front + TailPieces(word, nodes[1..], sql);
      hide GroupPieces, NodePieces;
      assert all == front + ([Space, WordPiece(word), Space] + rest);
      assert all[|all| - 1] == rest[|rest| - 1];
    }
  }

  lemma TokenEnds(p: Piece)
    requires p.Tok? && KnownPiece(p)
    ensures PieceText(p) != "" && !IsWhitespace(PieceText(p)[|PieceText(p)| - 1])
  {
    hide VOCABULARY, SymbolText;
    match p {
      case Tok(Word(w)) => WordShape(w);
      case Tok(Sym(s)) => SymbolShape(s);
      case _ =>
    }
  }

  lemma FlattenEnds(ps: seq<Piece>)
    requires ps != [] && ps[|ps| - 1].Tok? && KnownPiece(ps[|ps| - 1])
    ensures var text := Flatten(ps); text != "" && !IsWhitespace(text[|text| - 1])
  {
    hide Flatten, PieceText, KnownPiece;
    var front, last := ps[..|ps| - 1], ps[|ps| - 1];
    assert ps == front + [last];
    FlattenConcat(front, [last]);
    FlattenOne(last);
    TokenEnds(last);
    LastOfConcat(Flatten(front), PieceText(last));
  }

  lemma LastOfConcat(s: string, t: string)
    requires t != ""
    ensures s + t != "" && (s + t)[|s + t| - 1] == t[|t| - 1]
  {
  }

  lemma StatementTrimmed(node: ConditionNode)
    requires Unquoted(node)
    ensures Trimmed(Flatten(StatementPieces(node, false)))
    ensures STATEMENT_TEXT <= Flatten(StatementPieces(node, false))
  {
    var ps, tail := StatementPieces(node, false), Tail(NodePieces(node, false));
    NodeEnds(node, false);
    EndsWithToken(NodePieces(node, false));
    StatementWellSpaced(node, false);
    hide *;
    WellSpacedKnown(ps);
    assert ps[|ps| - 1] in ps;
    FlattenEnds(ps);
    HeadStarts(tail);
  }

  lemma EndsWithToken(body: seq<Piece>)
    requires body != [] ==> body[|body| - 1].Tok?
    ensures var ps := STATEMENT_HEAD + Tail(body); ps != [] && ps[|ps| - 1].Tok?
  {
  }

  lemma HeadStarts(tail: seq<Piece>)
    ensures STATEMENT_TEXT <= Flatten(STATEMENT_HEAD + tail)
    ensures Flatten(STATEMENT_HEAD + tail) != "" && !IsWhitespace(Flatten(STATEMENT_HEAD + tail)[0])
  {
    hide Flatten, STATEMENT_HEAD;
    HeadSpelled();
    FlattenConcat(STATEMENT_HEAD, tail);
  }

  lemma StatementSpelled(node: ConditionNode)
    requires Unquoted(node)
    ensures SELECT_PREFIX + NodeText(node) ==
            Flatten(StatementPieces(node, false)) + (if NodePieces(node, false) == [] then " " else "")
  {
    var body := NodePieces(node, false);
    NodeSpelled(node);
    HeadSpelled();
    PrefixIsStatement();
    hide Flatten, NodePieces, NodeText, STATEMENT_HEAD, STATEMENT_TEXT, SELECT_PREFIX;
    FlattenConcat(STATEMENT_HEAD, Tail(body));
    FlattenConcat([Space], body);
    FlattenOne(Space);
    FlattenNothing();
    ConcatAssociates(STATEMENT_TEXT, " ", NodeText(node));
  }

  lemma FlattenNothing()
    ensures Flatten([]) == ""
  {
  }

  lemma TrimTrailingSpace(s: string)
    requires Trimmed(s) && s != ""
    ensures Trim(s + " ") == s
  {
    var t := s + " ";
    assert t[..|s|] == s && t[|s|] == ' ' && t[0] == s[0];
    assert TrimStart(t) == t;
    assert TrimEnd(t) == TrimEnd(t[..|t| - 1]) == TrimEnd(s) == s;
  }

  lemma StatementTrims(node: ConditionNode)
    requires Unquoted(node)
    ensures Trim(SELECT_PREFIX + NodeText(node)) == Flatten(StatementPieces(node, false))
    ensures Trim(SELECT_PREFIX + NodeText(node) + " ") == Flatten(StatementPieces(node, false))
  {
    hide Flatten, NodePieces, NodeText, StatementPieces, Trim;
    var s := Flatten(StatementPieces(node, false));
    StatementSpelled(node);
    StatementTrimmed(node);
    TrimIdentity(s);
    TrimTrailingSpace(s);
    if NodePieces(node, false) == [] {
      TrimTwoSpaces(s);
    } else {
      assert s + "" == s;
    }
  }

  lemma TrimTwoSpaces(s: string)
    requires Trimmed(s) && s != ""
    ensures Trim(s + " " + " ") == s
  {
    TrimTrailingSpace(s);
    var t := s + " " + " ";
    assert t[..|s| + 1] == s + " " && t[|s| + 1] == ' ';
    assert TrimStart(t) == t && TrimStart(s + " ") == s + " ";
  }

  /** The printed conditions as the parser gets to see them. */
  function StatementText(node: ConditionNode): string { Trim(SELECT_PREFIX + NodeText(node)) }

  /** The pattern for header fields matches nowhere in the printed conditions. */
  predicate NoHeaderPattern(node: ConditionNode) { ReplaceHeaders(StatementText(node)) == StatementText(node) }

  /** It never matches unless a literal ends like an open header. */
  lemma ClosedLiteralsNoPattern(node: ConditionNode)
    requires Unquoted(node) && NoOpenHeader(node)
    ensures NoHeaderPattern(node)
  {
    hide EndsLikeHeader, Flatten, StatementPieces, NodePieces, Unquoted, NoOpenHeader, WellSpaced, ReplaceHeaders, Trim;
    StatementTrims(node);
    StatementWellSpaced(node, false);
    StatementHeaderFree(node);
    HeadersSkipPieces(StatementPieces(node, false));
  }

  lemma StatementHeaderFree(node: ConditionNode)
    requires NoOpenHeader(node)
    ensures HeaderFree(StatementPieces(node, false))
  {
    hide EndsLikeHeader;
    NodeHeaderFree(node);
    HeaderFreeConcat([Space], NodePieces(node, false));
    HeaderFreeConcat(STATEMENT_HEAD, Tail(NodePieces(node, false)));
  }

  /** Parsing the printed conditions succeeds exactly when the tree reads back and its nested form stays
      within the depth limit; the result is that form, with the literals as the word rewrites leave them. */
  lemma ParseStatement(u: Unicode, node: ConditionNode)
    requires u.Valid() && Unquoted(node) && NoHeaderPattern(node)
    ensures var r := ParseConditions(u, Flatten(StatementPieces(node, false)));
            && (r.Ok? <==> ReadsBack(node) && Depth(LeftNested(RewriteNode(u, node))) <= MAX_AST_DEPTH)
            && (r.Ok? ==> r.value == LeftNested(RewriteNode(u, node)))
  {
    var ps, rewritten := StatementPieces(node, false), RewriteNode(u, node);
    var text := Flatten(ps);
    assert text != "" by { StatementTrimmed(node); }
    assert Trim(text) == text by { StatementTrimmed(node); TrimIdentity(text); }
    assert Preprocess(u, text) == Flatten(StatementPieces(rewritten, true)) by { StatementPreprocessed(u, node); }
    assert FullStatement(u, Preprocess(u, text)) == Preprocess(u, text) by { StatementIsFull(u, node); }
    assert Lex(u, Flatten(StatementPieces(rewritten, true))) == Some(TokensOf(StatementPieces(rewritten, true))) by { StatementLexed(u, node); }
    hide *;
    UnquotedIsHeaderFree(node);
    RewriteKeepsShape(u, node);
    StatementParses(rewritten);
    ConditionsUnfold(u, text);
    if Readable(rewritten) {
      ConvertPrinted(u, rewritten);
    } else if ReadsBack(rewritten) {
      ReadsBackIsReadable(rewritten);
    }
  }

  lemma ConditionsUnfold(u: Unicode, text: string)
    requires Trim(text) == text && text != ""
    requires Lex(u, FullStatement(u, Preprocess(u, text))).Some?
    ensures var e := ParseSelect(Lex(u, FullStatement(u, Preprocess(u, text))).value);
            ParseConditions(u, text) == if e.None? then Err(Syntax) else ConvertExpr(u, e.value, 1)
  {
    hide Trim, Lex, FullStatement, Preprocess, ParseSelect, ConvertExpr;
  }

  lemma StatementPreprocessed(u: Unicode, node: ConditionNode)
    requires u.Valid() && Unquoted(node) && NoHeaderPattern(node)
    ensures Preprocess(u, Flatten(StatementPieces(node, false))) == Flatten(StatementPieces(RewriteNode(u, node), true))
    ensures WellSpaced(StatementPieces(RewriteNode(u, node), true))
  {
    hide StatementPieces, Flatten, WellSpaced, ReplaceHeaders, RewriteWords, RewriteBoth, Trim;
    var ps := StatementPieces(node, false);
    StatementWellSpaced(node, false);
    StatementTrims(node);
    BothRewritesOfPieces(u, ps);
    UnquotedIsHeaderFree(node);
    StatementRewritten(u, node);
  }

  lemma StatementIsFull(u: Unicode, node: ConditionNode)
    requires u.Valid() && Unquoted(node) && NoHeaderPattern(node)
    ensures var text := Preprocess(u, Flatten(StatementPieces(node, false))); FullStatement(u, text) == text
  {
    hide Preprocess, Flatten, FullStatement, STATEMENT_HEAD;
    StatementPreprocessed(u, node);
    var tail := Tail(NodePieces(RewriteNode(u, node), true));
    HeadSpelled();
    FlattenConcat(STATEMENT_HEAD, tail);
    SelectStartsUpper(u, Flatten(tail));
  }

  lemma StatementLexed(u: Unicode, node: ConditionNode)
    requires u.Valid() && Unquoted(node) && NoHeaderPattern(node)
    ensures var ps := StatementPieces(RewriteNode(u, node), true); Lex(u, Flatten(ps)) == Some(TokensOf(ps))
  {
    hide StatementPieces, Lex, Flatten, TokensOf, WellSpaced;
    StatementPreprocessed(u, node);
    NsqlReading.LexPieces(u, StatementPieces(RewriteNode(u, node), true));
  }
}
