/** The printed text in front of a literal, as pieces. */
module NsqlFront {
  import opened Wrappers
  import opened Text
  import opened NsqlAst
  import opened NsqlPreprocess
  import opened SqlSubset
  import opened NsqlPieces
  import NsqlReading
  import opened NsqlPrinted
  import opened NsqlReparse
  import opened NsqlCut

  // ---------------------------------------------------------------- the pieces

  function ItemsFront(items: seq<string>, i: nat): seq<Piece>
    requires i <= |items|
    decreases i
  {
    if i == 0 then [] else [Tok(Str(items[0])), SymPiece(Comma), Space] + ItemsFront(items[1..], i - 1)
  }

  function LeafFrontPieces(leaf: ConditionLeaf, i: nat, sql: bool): seq<Piece>
    requires leaf.value.List? ==> i <= |leaf.value.items|
  {
    [WordPiece(FieldText(leaf.field)), Space] +
    (OperatorPieces(leaf.operator, sql) +
     ([Space] + (if leaf.value.List? then [SymPiece(LParen)] + ItemsFront(leaf.value.items, i) else [])))
  }

  /** A condition in parentheses, and the connective behind it. */
  function Operand(node: ConditionNode, word: string, sql: bool): seq<Piece> {
    [SymPiece(LParen)] + (NodePieces(node, sql) + [SymPiece(RParen), Space, WordPiece(word), Space])
  }

  function FrontPieces(node: ConditionNode, place: Place, sql: bool): seq<Piece>
    requires LiteralAt(node, place)
    decreases node
  {
    match node
    case Leaf(leaf) => LeafFrontPieces(leaf, place.i, sql)
    case And(children) => FrontPiecesIn("AND", children, place.k, place.below, sql)
    case Or(children) => FrontPiecesIn("OR", children, place.k, place.below, sql)
    case Not(inner) => [WordPiece("NOT"), Space, SymPiece(LParen)] + FrontPieces(inner, place.below, sql)
  }

  function FrontPiecesIn(word: string, nodes: seq<ConditionNode>, k: nat, below: Place, sql: bool): seq<Piece>
    requires LiteralIn(nodes, k, below)
    decreases nodes
  {
    if k == 0 then [SymPiece(LParen)] + FrontPieces(nodes[0], below, sql)
    else Operand(nodes[0], word, sql) + FrontPiecesIn(word, nodes[1..], k - 1, below, sql)
  }

  // ---------------------------------------------------------------- their tokens

  lemma {:induction false} ItemsFrontTokens(items: seq<string>, i: nat)
    requires i <= |items|
    ensures TokensOf(ItemsFront(items, i)) == ItemsBefore(items, i)
    decreases i
  {
    if i == 0 {
    } else {
      hide TokensOf, Flatten;
      ItemsFrontTokens(items[1..], i - 1);
      var head := [Tok(Str(items[0])), SymPiece(Comma), Space];
      FlattenConcat(head, ItemsFront(items[1..], i - 1));
      ItemHeadTokens(items[0]);
    }
  }

  lemma ItemHeadTokens(s: string)
    ensures TokensOf([Tok(Str(s)), SymPiece(Comma), Space]) == [Str(s), Sym(Comma)]
  {
    hide TokensOf, Flatten;
    FlattenConcat([Tok(Str(s)), SymPiece(Comma)], [Space]);
    assert [Tok(Str(s)), SymPiece(Comma)] + [Space] == [Tok(Str(s)), SymPiece(Comma), Space];
    TwoAsTokens(Tok(Str(s)), SymPiece(Comma));
    FlattenOne(Tok(Str(s)));
    FlattenOne(SymPiece(Comma));
    FlattenOne(Space);
  }

  lemma LeafFrontTokens(leaf: ConditionLeaf, i: nat)
    requires leaf.value.List? ==> i <= |leaf.value.items|
    ensures TokensOf(LeafFrontPieces(leaf, i, true)) == LeafFront(leaf, i)
  {
    hide TokensOf, Flatten, FieldText, OperatorPieces, OperatorTokens, ItemsFront, ItemsBefore;
    var word, op := WordPiece(FieldText(leaf.field)), OperatorPieces(leaf.operator, true);
    var back := if leaf.value.List? then [SymPiece(LParen)] + ItemsFront(leaf.value.items, i) else [];
    FlattenConcat([word, Space], op + ([Space] + back));
    FlattenConcat(op, [Space] + back);
    FlattenConcat([Space], back);
    TwoAsTokens(word, Space);
    FlattenOne(word);
    FlattenOne(Space);
    OperatorAsTokens(leaf.operator);
    if leaf.value.List? {
      FlattenConcat([SymPiece(LParen)], ItemsFront(leaf.value.items, i));
      FlattenOne(SymPiece(LParen));
      ItemsFrontTokens(leaf.value.items, i);
    } else {
      NothingTokens();
    }
  }

  lemma NothingTokens()
    ensures TokensOf([]) == [] && Flatten([]) == ""
  {
  }

  lemma {:induction false} FrontAsTokens(node: ConditionNode, place: Place)
    requires LiteralAt(node, place)
    ensures TokensOf(FrontPieces(node, place, true)) == Front(node, place)
    decreases node, 1
  {
    hide TokensOf, Flatten, LeafFrontPieces, LeafFront, LiteralIn, FrontPiecesIn, FrontIn;
    match node {
      case Leaf(leaf) => LeafFrontTokens(leaf, place.i);
      case And(children) => FrontInAsTokens("AND", children, place.k, place.below);
      case Or(children) => FrontInAsTokens("OR", children, place.k, place.below);
      case Not(inner) =>
        FrontAsTokens(inner, place.below);
        FlattenConcat([WordPiece("NOT"), Space, SymPiece(LParen)], FrontPieces(inner, place.below, true));
        NotAsTokens(WordPiece("NOT"), SymPiece(LParen));
        assert [Word("NOT"), Sym(LParen)] + Front(inner, place.below) == [Word("NOT")] + ([Sym(LParen)] + Front(inner, place.below));
    }
  }

  lemma OperandAsTokens(node: ConditionNode, word: string)
    ensures TokensOf(Operand(node, word, true)) == GroupOf(NodeTokens(node)) + [Word(word)]
  {
    hide TokensOf, Flatten, NodePieces, NodeTokens;
    var back := [SymPiece(RParen), Space, WordPiece(word), Space];
    FlattenConcat([SymPiece(LParen)], NodePieces(node, true) + back);
    FlattenConcat(NodePieces(node, true), back);
    FlattenOne(SymPiece(LParen));
    NodeAsTokens(node);
    assert back == [SymPiece(RParen), Space, WordPiece(word)] + [Space];
    FlattenConcat([SymPiece(RParen), Space, WordPiece(word)], [Space]);
    NotAsTokens(SymPiece(RParen), WordPiece(word));
    FlattenOne(Space);
  }

  lemma {:induction false} FrontInAsTokens(word: string, nodes: seq<ConditionNode>, k: nat, below: Place)
    requires LiteralIn(nodes, k, below)
    ensures TokensOf(FrontPiecesIn(word, nodes, k, below, true)) == FrontIn(word, nodes, k, below)
    decreases nodes, 0
  {
    hide TokensOf, Flatten, LiteralAt, FrontPieces, Front, Operand, NodeTokens;
    if k == 0 {
      FrontAsTokens(nodes[0], below);
      FlattenConcat([SymPiece(LParen)], FrontPieces(nodes[0], below, true));
      FlattenOne(SymPiece(LParen));
    } else {
      OperandAsTokens(nodes[0], word);
      FrontInAsTokens(word, nodes[1..], k - 1, below);
      FlattenConcat(Operand(nodes[0], word, true), FrontPiecesIn(word, nodes[1..], k - 1, below, true));
    }
  }

  // ---------------------------------------------------------------- the word rewrites

  lemma {:induction false} ItemsFrontRewritten(u: Unicode, items: seq<string>, i: nat)
    requires i <= |items|
    ensures RewriteBoth(u, ItemsFront(items, i)) == ItemsFront(RewriteItems(u, items), i)
    decreases i
  {
    if i == 0 {
      assert RewriteBoth(u, []) == [];
    } else {
      hide RewriteBoth, NsqlReading.RewritePieces;
      ItemsFrontRewritten(u, items[1..], i - 1);
      var head := [Tok(Str(items[0])), SymPiece(Comma), Space];
      RewriteBothThree(u, head[0], head[1], head[2]);
      RewriteBothConcat(u, head, ItemsFront(items[1..], i - 1));
      assert RewriteItems(u, items)[1..] == RewriteItems(u, items[1..]);
    }
  }

  lemma RewrittenNothing(u: Unicode)
    ensures RewriteBoth(u, []) == []
  {
  }

  lemma LeafFrontRewritten(u: Unicode, leaf: ConditionLeaf, i: nat)
    requires !leaf.field.Header? && (leaf.value.List? ==> i <= |leaf.value.items|)
    ensures RewriteBoth(u, LeafFrontPieces(leaf, i, false)) == LeafFrontPieces(RewriteLeaf(u, leaf), i, true)
  {
    FieldIsNoKeyword(leaf.field);
    hide RewriteBoth, FieldText, OperatorPieces, ItemsFront, RewriteWords, RewriteItems;
    var word, op := WordPiece(FieldText(leaf.field)), OperatorPieces(leaf.operator, false);
    var back := if leaf.value.List? then [SymPiece(LParen)] + ItemsFront(leaf.value.items, i) else [];
    RewriteBothConcat(u, [word, Space], op + ([Space] + back));
    RewriteBothConcat(u, op, [Space] + back);
    RewriteBothConcat(u, [Space], back);
    RewriteBothTwo(u, word, Space);
    RewriteBothOne(u, Space);
    OperatorRewritten(u, leaf.operator);
    if leaf.value.List? { ListFrontRewritten(u, leaf.value.items, i); } else { RewrittenNothing(u); }
  }

  lemma ListFrontRewritten(u: Unicode, items: seq<string>, i: nat)
    requires i <= |items|
    ensures RewriteBoth(u, [SymPiece(LParen)] + ItemsFront(items, i)) == [SymPiece(LParen)] + ItemsFront(RewriteItems(u, items), i)
  {
    hide RewriteBoth, ItemsFront;
    RewriteBothConcat(u, [SymPiece(LParen)], ItemsFront(items, i));
    RewriteBothOne(u, SymPiece(LParen));
    ItemsFrontRewritten(u, items, i);
  }

  lemma OperandRewritten(u: Unicode, node: ConditionNode, word: string)
    requires HeaderFreeNode(node) && (word == "AND" || word == "OR")
    ensures RewriteBoth(u, Operand(node, word, false)) == Operand(RewriteNode(u, node), word, true)
  {
    hide RewriteBoth, NodePieces, RewriteNode;
    NodeRewritten(u, node);
    ConnectiveKept(u, word);
    var a, b := [SymPiece(RParen), Space], [WordPiece(word), Space];
    assert [SymPiece(RParen), Space, WordPiece(word), Space] == a + b;
    RewriteBothConcat(u, [SymPiece(LParen)], NodePieces(node, false) + (a + b));
    RewriteBothConcat(u, NodePieces(node, false), a + b);
    RewriteBothConcat(u, a, b);
    RewriteBothOne(u, SymPiece(LParen));
    RewriteBothTwo(u, SymPiece(RParen), Space);
    RewriteBothTwo(u, WordPiece(word), Space);
  }

  lemma ConnectiveKept(u: Unicode, word: string)
    requires word == "AND" || word == "OR" || word == "NOT"
    ensures RewrittenPiece(u, WordPiece(word)) == WordPiece(word)
  {
    assert |CONTAINS_WORD| == 8 && |MATCHES_WORD| == 7;
  }

  /** What the rewrites make of it belongs to the rewritten tree, which has its literal at the same place. */
  lemma {:induction false} FrontRewritten(u: Unicode, node: ConditionNode, place: Place)
    requires HeaderFreeNode(node) && LiteralAt(node, place)
    ensures LiteralAt(RewriteNode(u, node), place)
    ensures RewriteBoth(u, FrontPieces(node, place, false)) == FrontPieces(RewriteNode(u, node), place, true)
    decreases node, 1
  {
    hide RewriteBoth, LeafFrontPieces, LiteralIn, FrontPiecesIn, RewriteWords, RewriteNodes;
    match node {
      case Leaf(leaf) => LeafFrontRewritten(u, leaf, place.i);
      case And(children) => FrontInRewritten(u, "AND", children, place.k, place.below);
      case Or(children) => FrontInRewritten(u, "OR", children, place.k, place.below);
      case Not(inner) =>
        FrontRewritten(u, inner, place.below);
        RewriteBothThree(u, WordPiece("NOT"), Space, SymPiece(LParen));
        ConnectiveKept(u, "NOT");
        RewriteBothConcat(u, [WordPiece("NOT"), Space, SymPiece(LParen)], FrontPieces(inner, place.below, false));
    }
  }

  lemma {:induction false} FrontInRewritten(u: Unicode, word: string, nodes: seq<ConditionNode>, k: nat, below: Place)
    requires HeaderFreeNodes(nodes) && LiteralIn(nodes, k, below) && (word == "AND" || word == "OR")
    ensures LiteralIn(RewriteNodes(u, nodes), k, below)
    ensures RewriteBoth(u, FrontPiecesIn(word, nodes, k, below, false)) == FrontPiecesIn(word, RewriteNodes(u, nodes), k, below, true)
    decreases nodes, 0
  {
    hide RewriteBoth, LiteralAt, FrontPieces, Operand, RewriteNode;
    assert RewriteNodes(u, nodes)[1..] == RewriteNodes(u, nodes[1..]) && RewriteNodes(u, nodes)[0] == RewriteNode(u, nodes[0]);
    if k == 0 {
      FrontRewritten(u, nodes[0], below);
      RewriteBothConcat(u, [SymPiece(LParen)], FrontPieces(nodes[0], below, false));
      RewriteBothOne(u, SymPiece(LParen));
    } else {
      OperandRewritten(u, nodes[0], word);
      FrontInRewritten(u, word, nodes[1..], k - 1, below);
      RewriteBothConcat(u, Operand(nodes[0], word, false), FrontPiecesIn(word, nodes[1..], k - 1, below, false));
    }
  }

  /** The place leads to the same slot. */
  lemma {:induction false} SlotRewritten(u: Unicode, node: ConditionNode, place: Place)
    requires LiteralAt(node, place)
    ensures LiteralAt(RewriteNode(u, node), place) && Slot(RewriteNode(u, node), place) == Slot(node, place)
    decreases node, 1
  {
    hide LiteralIn, SlotIn, RewriteWords, RewriteNodes;
    match node {
      case Leaf(leaf) =>
      case And(children) => SlotInRewritten(u, children, place.k, place.below);
      case Or(children) => SlotInRewritten(u, children, place.k, place.below);
      case Not(inner) => SlotRewritten(u, inner, place.below);
    }
  }

  lemma {:induction false} SlotInRewritten(u: Unicode, nodes: seq<ConditionNode>, k: nat, below: Place)
    requires LiteralIn(nodes, k, below)
    ensures LiteralIn(RewriteNodes(u, nodes), k, below) && SlotIn(RewriteNodes(u, nodes), k, below) == SlotIn(nodes, k, below)
    decreases nodes, 0
  {
    hide LiteralAt, Slot, RewriteNode, Leaves;
    assert RewriteNodes(u, nodes)[1..] == RewriteNodes(u, nodes[1..]) && RewriteNodes(u, nodes)[0] == RewriteNode(u, nodes[0]);
    if k == 0 {
      SlotRewritten(u, nodes[0], below);
    } else {
      LeafCountRewritten(u, nodes[0]);
      SlotInRewritten(u, nodes[1..], k - 1, below);
    }
  }

  lemma {:induction false} LeafCountRewritten(u: Unicode, node: ConditionNode)
    ensures |Leaves(RewriteNode(u, node))| == |Leaves(node)|
    decreases node, 1
  {
    hide RewriteWords, RewriteNodes, LeavesOf;
    match node {
      case Leaf(_) =>
      case And(children) => LeafCountsRewritten(u, children);
      case Or(children) => LeafCountsRewritten(u, children);
      case Not(inner) => LeafCountRewritten(u, inner);
    }
  }

  lemma {:induction false} LeafCountsRewritten(u: Unicode, nodes: seq<ConditionNode>)
    ensures |LeavesOf(RewriteNodes(u, nodes))| == |LeavesOf(nodes)|
    decreases nodes, 0
  {
    hide RewriteNode, Leaves;
    if nodes == [] {
    } else {
      assert RewriteNodes(u, nodes)[1..] == RewriteNodes(u, nodes[1..]) && RewriteNodes(u, nodes)[0] == RewriteNode(u, nodes[0]);
      LeafCountRewritten(u, nodes[0]);
      LeafCountsRewritten(u, nodes[1..]);
    }
  }

  // ---------------------------------------------------------------- well-spaced

  /** No literal in front of the place holds a single quote. */
  predicate EarlierPlain(node: ConditionNode, place: Place)
    requires LiteralAt(node, place)
    decreases node
  {
    match node
    case Leaf(leaf) => leaf.value.List? ==> forall j | 0 <= j < place.i :: '\'' !in leaf.value.items[j]
    case And(children) => EarlierPlainIn(children, place.k, place.below)
    case Or(children) => EarlierPlainIn(children, place.k, place.below)
    case Not(inner) => EarlierPlain(inner, place.below)
  }

  predicate EarlierPlainIn(nodes: seq<ConditionNode>, k: nat, below: Place)
    requires LiteralIn(nodes, k, below)
    decreases nodes
  {
    if k == 0 then EarlierPlain(nodes[0], below) else Unquoted(nodes[0]) && EarlierPlainIn(nodes[1..], k - 1, below)
  }

  /** Behind a space or an opening parenthesis anything may stand. */
  lemma OpenFront(p: Piece, next: Option<Piece>)
    requires p == Space || p == SymPiece(LParen)
    ensures KnownPiece(p) && Follows(p, next) && WellSpacedOpen([p], next)
  {
  }

  lemma CommaOpen(s: string, next: Option<Piece>)
    requires '\'' !in s
    ensures WellSpacedOpen([Tok(Str(s)), SymPiece(Comma), Space], next)
  {
    OpenTriple(Tok(Str(s)), SymPiece(Comma), Space, next);
  }

  lemma {:induction false} ItemsFrontOpen(items: seq<string>, i: nat, next: Option<Piece>)
    requires i <= |items| && forall j | 0 <= j < i :: '\'' !in items[j]
    ensures i > 0 ==> ItemsFront(items, i) != [] && WellSpacedOpen(ItemsFront(items, i), next)
    decreases i
  {
    if i == 0 {
    } else {
      hide WellSpacedOpen;
      var back := ItemsFront(items[1..], i - 1);
      var head := [Tok(Str(items[0])), SymPiece(Comma), Space];
      assert forall j | 0 <= j < i - 1 :: items[1..][j] == items[j + 1];
      ItemsFrontOpen(items[1..], i - 1, next);
      if i == 1 {
        assert head + back == head;
        CommaOpen(items[0], next);
      } else {
        CommaOpen(items[0], Head(back));
        OpenConcat(head, back, next);
      }
    }
  }

  lemma LeafFrontOpen(leaf: ConditionLeaf, i: nat, next: Option<Piece>)
    requires !leaf.field.Header? && (leaf.value.List? ==> i <= |leaf.value.items| && forall j | 0 <= j < i :: '\'' !in leaf.value.items[j])
    ensures LeafFrontPieces(leaf, i, false) != [] && WellSpacedOpen(LeafFrontPieces(leaf, i, false), next)
  {
    FieldOpen(leaf.field, Some(Space));
    hide WellSpacedOpen, FieldText, OperatorPieces, ItemsFront, KnownPiece, Follows;
    var word, op := WordPiece(FieldText(leaf.field)), OperatorPieces(leaf.operator, false);
    var back := if leaf.value.List? then [SymPiece(LParen)] + ItemsFront(leaf.value.items, i) else [];
    if leaf.value.List? {
      ListFrontOpen(leaf.value.items, i, next);
    } else {
      assert [Space] + back == [Space];
      OpenFront(Space, next);
    }
    OperatorOpen(leaf.operator, false);
    OpenConcat(op, [Space] + back, next);
    OpenFront(Space, Head(op + ([Space] + back)));
    OpenPair(word, Space, Head(op + ([Space] + back)));
    OpenConcat([word, Space], op + ([Space] + back), next);
  }

  lemma ListFrontOpen(items: seq<string>, i: nat, next: Option<Piece>)
    requires i <= |items| && forall j | 0 <= j < i :: '\'' !in items[j]
    ensures WellSpacedOpen([Space] + ([SymPiece(LParen)] + ItemsFront(items, i)), next)
  {
    hide WellSpacedOpen, KnownPiece, Follows;
    var front := ItemsFront(items, i);
    ItemsFrontOpen(items, i, next);
    OpenFront(SymPiece(LParen), if i == 0 then next else Head(front));
    if i == 0 {
      assert [SymPiece(LParen)] + front == [SymPiece(LParen)];
    } else {
      OpenConcat([SymPiece(LParen)], front, next);
    }
    OpenFront(Space, Head([SymPiece(LParen)] + front));
    OpenConcat([Space], [SymPiece(LParen)] + front, next);
  }

  lemma OperandOpen(node: ConditionNode, word: string, next: Option<Piece>)
    requires Unquoted(node) && (word == "AND" || word == "OR")
    ensures Operand(node, word, false) != [] && WellSpacedOpen(Operand(node, word, false), next)
  {
    FixedWord(word, Some(Space));
    hide WellSpacedOpen, NodePieces, KnownPiece, Follows, VOCABULARY;
    var body := NodePieces(node, false);
    NodeOpen(node, false, Some(SymPiece(RParen)));
    Parenthesize(body, Some(Space));
    OpenFront(Space, next);
    OpenFront(Space, Some(WordPiece(word)));
    OpenTriple(Space, WordPiece(word), Space, next);
    var group := [SymPiece(LParen)] + body + [SymPiece(RParen)];
    OpenConcat(group, [Space, WordPiece(word), Space], next);
    OperandShape(node, word, false);
  }

  lemma OperandShape(node: ConditionNode, word: string, sql: bool)
    ensures Operand(node, word, sql) == ([SymPiece(LParen)] + NodePieces(node, sql) + [SymPiece(RParen)]) + [Space, WordPiece(word), Space]
    ensures Operand(node, word, sql) != []
  {
    hide NodePieces;
  }

  /** The pieces in front of the first quoted literal are well-spaced. */
  lemma {:induction false} FrontOpen(node: ConditionNode, place: Place, next: Option<Piece>)
    requires HeaderFreeNode(node) && LiteralAt(node, place) && EarlierPlain(node, place)
    ensures FrontPieces(node, place, false) != [] && WellSpacedOpen(FrontPieces(node, place, false), next)
    decreases node, 1
  {
    hide WellSpacedOpen, LeafFrontPieces, LiteralIn, EarlierPlainIn, FrontPiecesIn;
    match node {
      case Leaf(leaf) => LeafFrontOpen(leaf, place.i, next);
      case And(children) => FrontInOpen("AND", children, place.k, place.below, next);
      case Or(children) => FrontInOpen("OR", children, place.k, place.below, next);
      case Not(inner) =>
        var back := FrontPieces(inner, place.below, false);
        FrontOpen(inner, place.below, next);
        FixedWord("NOT", Some(Space));
        OpenFront(Space, Some(SymPiece(LParen)));
        OpenFront(SymPiece(LParen), Head(back));
        OpenTriple(WordPiece("NOT"), Space, SymPiece(LParen), Head(back));
        OpenConcat([WordPiece("NOT"), Space, SymPiece(LParen)], back, next);
    }
  }

  lemma {:induction false} FrontInOpen(word: string, nodes: seq<ConditionNode>, k: nat, below: Place, next: Option<Piece>)
    requires HeaderFreeNodes(nodes) && LiteralIn(nodes, k, below) && EarlierPlainIn(nodes, k, below) && (word == "AND" || word == "OR")
    ensures FrontPiecesIn(word, nodes, k, below, false) != [] && WellSpacedOpen(FrontPiecesIn(word, nodes, k, below, false), next)
    decreases nodes, 0
  {
    hide WellSpacedOpen, LiteralAt, EarlierPlain, FrontPieces, Operand, Unquoted;
    if k == 0 {
      var back := FrontPieces(nodes[0], below, false);
      FrontOpen(nodes[0], below, next);
      OpenFront(SymPiece(LParen), Head(back));
      OpenConcat([SymPiece(LParen)], back, next);
    } else {
      var back := FrontPiecesIn(word, nodes[1..], k - 1, below, false);
      FrontInOpen(word, nodes[1..], k - 1, below, next);
      OperandOpen(nodes[0], word, Head(back));
      OpenConcat(Operand(nodes[0], word, false), back, next);
    }
  }

  // ---------------------------------------------------------------- the printed text

  lemma {:induction false} ItemsFrontText(items: seq<string>, i: nat) returns (rest: string)
    requires i < |items| && forall j | 0 <= j < i :: '\'' !in items[j]
    ensures Join(QuotedAll(items), ", ") == Flatten(ItemsFront(items, i)) + (Quoted(items[i]) + rest)
    decreases i
  {
    var texts := QuotedAll(items);
    assert texts[0] == Quoted(items[0]) && texts[1..] == QuotedAll(items[1..]);
    if i == 0 {
      rest := if |items| == 1 then "" else ", " + Join(texts[1..], ", ");
      NothingTokens();
      assert Flatten([]) + (Quoted(items[0]) + rest) == Quoted(items[0]) + rest;
      hide Quoted;
      if |items| == 1 { assert Quoted(items[0]) + "" == Quoted(items[0]); } else { JoinCons(texts, ", "); }
    } else {
      hide Flatten, Quoted;
      assert forall j | 0 <= j < i - 1 :: items[1..][j] == items[j + 1];
      rest := ItemsFrontText(items[1..], i - 1);
      JoinCons(texts, ", ");
      SeparatedSpelled(items[0], ItemsFront(items[1..], i - 1));
      QuotedPlain(items[0]);
      ConcatAssociates(Quoted(items[0]) + ", ", Flatten(ItemsFront(items[1..], i - 1)), Quoted(items[i]) + rest);
    }
  }

  lemma JoinCons(texts: seq<string>, sep: string)
    requires |texts| > 1
    ensures Join(texts, sep) == texts[0] + sep + Join(texts[1..], sep) == texts[0] + (sep + Join(texts[1..], sep))
  {
  }

  lemma QuotedPlain(s: string)
    requires '\'' !in s
    ensures Quoted(s) == PieceText(Tok(Str(s)))
  {
    EscapeQuoteFree(s);
  }

  lemma LeafFrontText(leaf: ConditionLeaf, i: nat) returns (rest: string)
    requires LiteralAt(Leaf(leaf), Item(i)) && EarlierPlain(Leaf(leaf), Item(i))
    ensures LeafText(leaf) == Flatten(LeafFrontPieces(leaf, i, false)) + (Quoted(LiteralOf(Leaf(leaf), Item(i))) + rest)
  {
    hide Flatten, FieldText, OperatorPieces, OperatorText, ItemsFront, Quoted, Join;
    var field, op := FieldText(leaf.field), OperatorText(leaf.operator);
    var back := if leaf.value.List? then [SymPiece(LParen)] + ItemsFront(leaf.value.items, i) else [];
    LeafHeadText(leaf, back);
    if leaf.value.String? {
      NothingTokens();
      rest := "";
      LeafJoined(field, op, "", ValueText(leaf.value));
      assert ValueText(leaf.value) + "" == ValueText(leaf.value);
    } else {
      rest := ListFrontText(leaf.value.items, i);
      LeafJoined(field, op, Flatten(back), Quoted(leaf.value.items[i]) + rest);
    }
  }

  lemma LeafHeadText(leaf: ConditionLeaf, back: seq<Piece>)
    ensures Flatten([WordPiece(FieldText(leaf.field)), Space] + (OperatorPieces(leaf.operator, false) + ([Space] + back))) ==
            (FieldText(leaf.field) + " ") + (OperatorText(leaf.operator) + (" " + Flatten(back)))
  {
    hide Flatten, FieldText, OperatorPieces, OperatorText;
    var field := FieldText(leaf.field);
    FlattenConcat([WordPiece(field), Space], OperatorPieces(leaf.operator, false) + ([Space] + back));
    FlattenConcat(OperatorPieces(leaf.operator, false), [Space] + back);
    FlattenConcat([Space], back);
    FlattenConcat([WordPiece(field)], [Space]);
    assert [WordPiece(field)] + [Space] == [WordPiece(field), Space];
    FlattenOne(WordPiece(field));
    FlattenOne(Space);
    OperatorSpelled(leaf.operator);
  }

  lemma ListFrontText(items: seq<string>, i: nat) returns (rest: string)
    requires i < |items| && forall j | 0 <= j < i :: '\'' !in items[j]
    ensures "(" + Join(QuotedAll(items), ", ") + ")" == Flatten([SymPiece(LParen)] + ItemsFront(items, i)) + (Quoted(items[i]) + rest)
  {
    hide Flatten, ItemsFront, Quoted, Join;
    rest := ItemsFrontText(items, i);
    FlattenConcat([SymPiece(LParen)], ItemsFront(items, i));
    FlattenOne(SymPiece(LParen));
    ListJoinedTo("(", Flatten(ItemsFront(items, i)), Quoted(items[i]), rest);
    rest := rest + ")";
  }

  lemma LeafJoined(field: string, op: string, back: string, value: string)
    ensures field + " " + op + " " + (back + value) == (field + " ") + (op + (" " + back)) + value
    ensures back == "" ==> field + " " + op + " " + value == (field + " ") + (op + (" " + back)) + value
  {
    assert back == "" ==> back + value == value;
  }

  lemma OperandText(node: ConditionNode, word: string)
    requires Unquoted(node)
    ensures Flatten(Operand(node, word, false)) == "(" + NodeText(node) + ")" + (" " + word + " ")
  {
    hide *;
    NodeSpelled(node);
    OperandShape(node, word, false);
    InParentheses(NodePieces(node, false));
    BetweenSpaces(word);
    FlattenConcat([SymPiece(LParen)] + NodePieces(node, false) + [SymPiece(RParen)], [Space, WordPiece(word), Space]);
  }

  lemma InParentheses(body: seq<Piece>)
    ensures Flatten([SymPiece(LParen)] + body + [SymPiece(RParen)]) == "(" + Flatten(body) + ")"
  {
    hide Flatten;
    FlattenConcat([SymPiece(LParen)] + body, [SymPiece(RParen)]);
    FlattenConcat([SymPiece(LParen)], body);
    FlattenOne(SymPiece(LParen));
    FlattenOne(SymPiece(RParen));
  }

  lemma BetweenSpaces(word: string)
    ensures Flatten([Space, WordPiece(word), Space]) == " " + word + " "
  {
    hide Flatten;
    FlattenConcat([Space], [WordPiece(word), Space]);
    assert [Space] + [WordPiece(word), Space] == [Space, WordPiece(word), Space];
    FlattenConcat([WordPiece(word)], [Space]);
    assert [WordPiece(word)] + [Space] == [WordPiece(word), Space];
    FlattenOne(Space);
    FlattenOne(WordPiece(word));
    ConcatAssociates(" ", word, " ");
  }

  /** The printed condition starts with those pieces and the literal as it is printed. */
  lemma {:induction false} FrontText(node: ConditionNode, place: Place) returns (rest: string)
    requires LiteralAt(node, place) && EarlierPlain(node, place)
    ensures NodeText(node) == Flatten(FrontPieces(node, place, false)) + (Quoted(LiteralOf(node, place)) + rest)
    decreases node, 1
  {
    hide Flatten, LeafText, LeafFrontPieces, LiteralIn, EarlierPlainIn, FrontPiecesIn, Quoted, Join, Parenthesized, LiteralOfIn;
    match node {
      case Leaf(leaf) =>
        rest := LeafFrontText(leaf, place.i);
      case And(children) =>
        rest := FrontInText("AND", children, place.k, place.below);
        assert " " + "AND" + " " == " AND ";
      case Or(children) =>
        rest := FrontInText("OR", children, place.k, place.below);
        assert " " + "OR" + " " == " OR ";
      case Not(inner) =>
        rest := FrontText(inner, place.below);
        var front := Flatten(FrontPieces(inner, place.below, false));
        FlattenConcat([WordPiece("NOT"), Space, SymPiece(LParen)], FrontPieces(inner, place.below, false));
        NotText();
        ListJoinedTo("NOT (", front, Quoted(LiteralOf(inner, place.below)), rest);
        rest := rest + ")";
    }
  }

  lemma NotText()
    ensures Flatten([WordPiece("NOT"), Space, SymPiece(LParen)]) == "NOT ("
  {
    hide Flatten;
    ThreeSpelled(WordPiece("NOT"), SymPiece(LParen));
    assert "NOT" + " " + "(" == "NOT (";
  }

  lemma ListJoinedTo(open: string, front: string, literal: string, rest: string)
    ensures open + (front + (literal + rest)) + ")" == (open + front) + (literal + (rest + ")"))
  {
  }

  lemma {:induction false} FrontInText(word: string, nodes: seq<ConditionNode>, k: nat, below: Place) returns (rest: string)
    requires LiteralIn(nodes, k, below) && EarlierPlainIn(nodes, k, below)
    ensures Join(Parenthesized(nodes), " " + word + " ") ==
            Flatten(FrontPiecesIn(word, nodes, k, below, false)) + (Quoted(LiteralOfIn(nodes, k, below)) + rest)
    decreases nodes, 0
  {
    hide *;
    var sep := " " + word + " ";
    LiteralNeedsNodes(nodes, k, below);
    GroupTexts(nodes);
    if k == 0 {
      FrontFirst(word, nodes, below);
      rest := FrontText(nodes[0], below);
      rest := FirstInText(Parenthesized(nodes), sep, FrontPieces(nodes[0], below, false), Quoted(LiteralOf(nodes[0], below)), rest);
    } else {
      FrontBehind(word, nodes, k, below);
      rest := FrontInText(word, nodes[1..], k - 1, below);
      LiteralNeedsNodes(nodes[1..], k - 1, below);
      OperandText(nodes[0], word);
      BehindInText(Parenthesized(nodes), sep, Operand(nodes[0], word, false), FrontPiecesIn(word, nodes[1..], k - 1, below, false),
                   Quoted(LiteralOfIn(nodes[1..], k - 1, below)) + rest);
    }
  }

  lemma GroupTexts(nodes: seq<ConditionNode>)
    requires nodes != []
    ensures var texts := Parenthesized(nodes);
            |texts| == |nodes| && texts[0] == "(" + NodeText(nodes[0]) + ")" && texts[1..] == Parenthesized(nodes[1..])
  {
    hide NodeText;
  }

  lemma FrontFirst(word: string, nodes: seq<ConditionNode>, below: Place)
    requires LiteralIn(nodes, 0, below) && EarlierPlainIn(nodes, 0, below)
    ensures LiteralAt(nodes[0], below) && EarlierPlain(nodes[0], below)
    ensures FrontPiecesIn(word, nodes, 0, below, false) == [SymPiece(LParen)] + FrontPieces(nodes[0], below, false)
    ensures LiteralOfIn(nodes, 0, below) == LiteralOf(nodes[0], below)
  {
    hide LiteralAt, EarlierPlain, FrontPieces, LiteralOf;
  }

  lemma FrontBehind(word: string, nodes: seq<ConditionNode>, k: nat, below: Place)
    requires LiteralIn(nodes, k, below) && EarlierPlainIn(nodes, k, below) && k > 0
    ensures LiteralIn(nodes[1..], k - 1, below) && EarlierPlainIn(nodes[1..], k - 1, below) && Unquoted(nodes[0])
    ensures FrontPiecesIn(word, nodes, k, below, false) == Operand(nodes[0], word, false) + FrontPiecesIn(word, nodes[1..], k - 1, below, false)
    ensures LiteralOfIn(nodes, k, below) == LiteralOfIn(nodes[1..], k - 1, below)
  {
    hide LiteralAt, EarlierPlain, FrontPieces, LiteralOf, Unquoted, Operand;
  }

  lemma FirstInText(texts: seq<string>, sep: string, front: seq<Piece>, literal: string, rest: string) returns (behind: string)
    requires texts != [] && texts[0] == "(" + (Flatten(front) + (literal + rest)) + ")"
    ensures Join(texts, sep) == Flatten([SymPiece(LParen)] + front) + (literal + behind)
  {
    hide Flatten, Join;
    FlattenConcat([SymPiece(LParen)], front);
    FlattenOne(SymPiece(LParen));
    ListJoinedTo("(", Flatten(front), literal, rest);
    var tail := if |texts| == 1 then "" else sep + Join(texts[1..], sep);
    FirstText(texts, sep);
    TailJoined("(" + Flatten(front), literal, rest + ")", tail);
    behind := rest + ")" + tail;
  }

  lemma BehindInText(texts: seq<string>, sep: string, operand: seq<Piece>, back: seq<Piece>, rest: string)
    requires |texts| > 1 && Flatten(operand) == texts[0] + sep && Join(texts[1..], sep) == Flatten(back) + rest
    ensures Join(texts, sep) == Flatten(operand + back) + rest
  {
    hide Flatten, Join;
    JoinCons(texts, sep);
    FlattenConcat(operand, back);
    ConcatAssociates(texts[0] + sep, Flatten(back), rest);
  }

  lemma FirstText(texts: seq<string>, sep: string)
    requires texts != []
    ensures Join(texts, sep) == texts[0] + (if |texts| == 1 then "" else sep + Join(texts[1..], sep))
  {
    if |texts| == 1 { assert texts[0] + "" == texts[0]; } else { JoinCons(texts, sep); }
  }

  lemma TailJoined(front: string, literal: string, rest: string, behind: string)
    ensures front + (literal + rest) + behind == front + (literal + (rest + behind))
  {
  }

  // ---------------------------------------------------------------- pieces and places

  lemma {:induction false} ItemOfPiece(items: seq<string>, m: nat) returns (i: nat)
    requires m < |ItemPieces(items)| && ItemPieces(items)[m].Tok? && ItemPieces(items)[m].token.Str?
    ensures i < |items| && ItemPieces(items)[m] == Tok(Str(items[i])) && ItemPieces(items)[..m] == ItemsFront(items, i)
    decreases |items|
  {
    if |items| == 1 {
      i := 0;
    } else {
      var head, back := [Tok(Str(items[0])), SymPiece(Comma), Space], ItemPieces(items[1..]);
      assert ItemPieces(items) == head + back;
      if m == 0 {
        i := 0;
      } else {
        assert m >= 3 && back[m - 3] == ItemPieces(items)[m];
        var j := ItemOfPiece(items[1..], m - 3);
        i := j + 1;
        assert ItemPieces(items)[..m] == head + back[..m - 3];
      }
    }
  }

  predicate StrPiece(ps: seq<Piece>, m: nat) { m < |ps| && ps[m].Tok? && ps[m].token.Str? }

  lemma StrBehind(a: seq<Piece>, b: seq<Piece>, m: nat)
    requires StrPiece(a + b, m) && forall j | 0 <= j < |a| :: !StrPiece(a, j)
    ensures m >= |a| && StrPiece(b, m - |a|) && (a + b)[m] == b[m - |a|] && (a + b)[..m] == a + b[..m - |a|]
  {
    if m < |a| { assert StrPiece(a, m); }
  }

  lemma StrInside(a: seq<Piece>, b: seq<Piece>, m: nat)
    requires StrPiece(a + b, m) && m < |a|
    ensures StrPiece(a, m) && (a + b)[m] == a[m] && (a + b)[..m] == a[..m]
  {
  }

  lemma OperatorHasNoStr(operator: FilterOperator)
    ensures forall j | 0 <= j < |OperatorPieces(operator, false)| :: !StrPiece(OperatorPieces(operator, false), j)
  {
  }

  lemma ItemOfLeaf(leaf: ConditionLeaf, m: nat) returns (i: nat)
    requires StrPiece(LeafPieces(leaf, false), m)
    ensures LiteralAt(Leaf(leaf), Item(i)) && LeafPieces(leaf, false)[m] == Tok(Str(LiteralOf(Leaf(leaf), Item(i))))
    ensures LeafPieces(leaf, false)[..m] == LeafFrontPieces(leaf, i, false)
  {
    hide FieldText, OperatorPieces, ItemPieces, ItemsFront;
    var word, op, value := [WordPiece(FieldText(leaf.field)), Space], OperatorPieces(leaf.operator, false), ValuePieces(leaf.value);
    OperatorHasNoStr(leaf.operator);
    assert LeafPieces(leaf, false) == word + (op + ([Space] + value));
    StrBehind(word, op + ([Space] + value), m);
    StrBehind(op, [Space] + value, m - 2);
    StrBehind([Space], value, m - 2 - |op|);
    var k := m - 3 - |op|;
    if leaf.value.List? {
      var items := leaf.value.items;
      assert value == [SymPiece(LParen)] + (ItemPieces(items) + [SymPiece(RParen)]);
      StrBehind([SymPiece(LParen)], ItemPieces(items) + [SymPiece(RParen)], k);
      StrInside(ItemPieces(items), [SymPiece(RParen)], k - 1);
      i := ItemOfPiece(items, k - 1);
    } else {
      i := 0;
      assert k == 0 && value[..0] == [];
    }
  }

  /** Every string among a tree's pieces is the literal of a place, and what stands before it are the pieces in
      front of that place. */
  lemma {:induction false} PlaceOfPiece(node: ConditionNode, m: nat) returns (place: Place)
    requires StrPiece(NodePieces(node, false), m)
    ensures LiteralAt(node, place) && NodePieces(node, false)[m] == Tok(Str(LiteralOf(node, place)))
    ensures NodePieces(node, false)[..m] == FrontPieces(node, place, false)
    decreases node, 1
  {
    hide LeafPieces, LeafFrontPieces, GroupPieces, FrontPiecesIn, LiteralIn, LiteralOfIn, StrPiece;
    match node {
      case Leaf(leaf) =>
        var i := ItemOfLeaf(leaf, m);
        place := Item(i);
      case And(children) =>
        var k, below := PlaceInGroup("AND", children, m);
        place := Child(k, below);
      case Or(children) =>
        var k, below := PlaceInGroup("OR", children, m);
        place := Child(k, below);
      case Not(inner) =>
        var head, body := [WordPiece("NOT"), Space, SymPiece(LParen)], NodePieces(inner, false);
        assert NodePieces(node, false) == head + (body + [SymPiece(RParen)]);
        NoStrIn();
        StrBehind(head, body + [SymPiece(RParen)], m);
        BeforeParenthesis(body, m - 3);
        var below := PlaceOfPiece(inner, m - 3);
        place := Inner(below);
    }
  }

  lemma NoStrIn()
    ensures forall j | 0 <= j < 3 :: !StrPiece([WordPiece("NOT"), Space, SymPiece(LParen)], j)
    ensures !StrPiece([SymPiece(LParen)], 0)
  {
  }

  lemma BeforeParenthesis(body: seq<Piece>, m: nat)
    requires StrPiece(body + [SymPiece(RParen)], m)
    ensures StrPiece(body, m) && (body + [SymPiece(RParen)])[m] == body[m] && (body + [SymPiece(RParen)])[..m] == body[..m]
  {
    assert m < |body|;
  }

  lemma {:induction false} PlaceInGroup(word: string, nodes: seq<ConditionNode>, m: nat) returns (k: nat, below: Place)
    requires StrPiece(GroupPieces(word, nodes, false), m)
    ensures LiteralIn(nodes, k, below) && GroupPieces(word, nodes, false)[m] == Tok(Str(LiteralOfIn(nodes, k, below)))
    ensures GroupPieces(word, nodes, false)[..m] == FrontPiecesIn(word, nodes, k, below, false)
    decreases nodes, 0
  {
    hide NodePieces, LiteralAt, LiteralOf, FrontPieces, StrPiece;
    assert nodes != [] by { EmptyGroup(word, nodes, m); }
    var body, tail := NodePieces(nodes[0], false), TailPieces(word, nodes[1..], false);
    var inside := body + ([SymPiece(RParen)] + tail);
    assert GroupPieces(word, nodes, false) == [SymPiece(LParen)] + inside;
    NoStrIn();
    StrBehind([SymPiece(LParen)], inside, m);
    if m - 1 < |body| {
      StrInside(body, [SymPiece(RParen)] + tail, m - 1);
      below := PlaceOfPiece(nodes[0], m - 1);
      k := 0;
    } else {
      var j, deeper := PlaceInTail(word, nodes, m);
      k, below := j + 1, deeper;
    }
  }

  lemma EmptyGroup(word: string, nodes: seq<ConditionNode>, m: nat)
    requires StrPiece(GroupPieces(word, nodes, false), m)
    ensures nodes != []
  {
  }

  lemma {:induction false} PlaceInTail(word: string, nodes: seq<ConditionNode>, m: nat) returns (k: nat, below: Place)
    requires nodes != [] && m > |NodePieces(nodes[0], false)| && StrPiece(GroupPieces(word, nodes, false), m)
    ensures LiteralIn(nodes[1..], k, below) && GroupPieces(word, nodes, false)[m] == Tok(Str(LiteralOfIn(nodes[1..], k, below)))
    ensures GroupPieces(word, nodes, false)[..m] == Operand(nodes[0], word, false) + FrontPiecesIn(word, nodes[1..], k, below, false)
    decreases nodes[1..], 1
  {
    hide *;
    MoreOperands(word, nodes, m);
    GroupAsOperand(word, nodes);
    OperandShape(nodes[0], word, false);
    var operand, group := Operand(nodes[0], word, false), GroupPieces(word, nodes[1..], false);
    BehindOperand(NodePieces(nodes[0], false), word, group, m);
    k, below := PlaceInGroup(word, nodes[1..], m - |operand|);
  }

  lemma MoreOperands(word: string, nodes: seq<ConditionNode>, m: nat)
    requires nodes != [] && m > |NodePieces(nodes[0], false)| && StrPiece(GroupPieces(word, nodes, false), m)
    ensures nodes[1..] != []
  {
    hide NodePieces;
    var ps := GroupPieces(word, nodes, false);
    assert ps == [SymPiece(LParen)] + NodePieces(nodes[0], false) + [SymPiece(RParen)] + TailPieces(word, nodes[1..], false);
    assert ps[|NodePieces(nodes[0], false)| + 1] == SymPiece(RParen);
  }

  lemma GroupAsOperand(word: string, nodes: seq<ConditionNode>)
    requires |nodes| > 1
    ensures GroupPieces(word, nodes, false) == Operand(nodes[0], word, false) + GroupPieces(word, nodes[1..], false)
  {
    TailShape(word, nodes[1..]);
    OperandShape(nodes[0], word, false);
    hide NodePieces, TailPieces, Operand;
    var open := [SymPiece(LParen)] + NodePieces(nodes[0], false) + [SymPiece(RParen)];
    assert GroupPieces(word, nodes, false) == open + TailPieces(word, nodes[1..], false);
    hide GroupPieces;
    PiecesRegrouped(open, [Space, WordPiece(word), Space], GroupPieces(word, nodes[1..], false));
  }

  lemma TailShape(word: string, nodes: seq<ConditionNode>)
    requires nodes != []
    ensures TailPieces(word, nodes, false) == [Space, WordPiece(word), Space] + GroupPieces(word, nodes, false)
  {
    hide GroupPieces;
  }

  lemma PiecesRegrouped(a: seq<Piece>, b: seq<Piece>, c: seq<Piece>)
    ensures a + (b + c) == a + b + c
  {
  }

  lemma BehindOperand(body: seq<Piece>, word: string, group: seq<Piece>, m: nat)
    requires m > |body|
    requires var operand := ([SymPiece(LParen)] + body + [SymPiece(RParen)]) + [Space, WordPiece(word), Space]; StrPiece(operand + group, m)
    ensures var operand := ([SymPiece(LParen)] + body + [SymPiece(RParen)]) + [Space, WordPiece(word), Space];
            m >= |operand| && StrPiece(group, m - |operand|) && (operand + group)[m] == group[m - |operand|]
            && (operand + group)[..m] == operand + group[..m - |operand|]
  {
    var operand := ([SymPiece(LParen)] + body + [SymPiece(RParen)]) + [Space, WordPiece(word), Space];
    var k := |body|;
    assert operand[k + 1] == SymPiece(RParen) && operand[k + 2] == Space && operand[k + 3] == WordPiece(word) && operand[k + 4] == Space;
  }
}
