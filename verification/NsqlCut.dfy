/** Printed conditions that break off at a literal: whatever stands in that literal's place and behind it, a tree
    that is parsed from there holds, where the literal was, what stands there now. */
module NsqlCut {
  import opened Wrappers
  import opened Text
  import opened NsqlAst
  import opened SqlSubset
  import opened NsqlConvert
  import opened NsqlPrinted
  import opened NsqlReparse
  import opened NsqlReread

  // ---------------------------------------------------------------- where a literal stands

  /** The conditions of a tree from left to right. */
  function Leaves(node: ConditionNode): seq<ConditionLeaf>
    decreases node
  {
    match node
    case Leaf(leaf) => [leaf]
    case And(children) => LeavesOf(children)
    case Or(children) => LeavesOf(children)
    case Not(inner) => Leaves(inner)
  }

  function LeavesOf(nodes: seq<ConditionNode>): seq<ConditionLeaf>
    decreases nodes
  {
    if nodes == [] then [] else Leaves(nodes[0]) + LeavesOf(nodes[1..])
  }

  /** The string is the leaf's value, or the item of its list at that place. */
  predicate Carries(leaf: ConditionLeaf, item: nat, s: string) {
    || (leaf.value.String? && item == 0 && leaf.value.text == s)
    || (leaf.value.List? && item < |leaf.value.items| && leaf.value.items[item] == s)
  }

  /** A way down a tree to one literal of one condition. */
  datatype Place = Item(i: nat) | Child(k: nat, below: Place) | Inner(below: Place)

  predicate LiteralAt(node: ConditionNode, place: Place)
    decreases node
  {
    match node
    case Leaf(leaf) => place.Item? && ((leaf.value.String? && place.i == 0) || (leaf.value.List? && place.i < |leaf.value.items|))
    case And(children) => place.Child? && LiteralIn(children, place.k, place.below)
    case Or(children) => place.Child? && LiteralIn(children, place.k, place.below)
    case Not(inner) => place.Inner? && LiteralAt(inner, place.below)
  }

  predicate LiteralIn(nodes: seq<ConditionNode>, k: nat, below: Place)
    decreases nodes
  {
    nodes != [] && if k == 0 then LiteralAt(nodes[0], below) else LiteralIn(nodes[1..], k - 1, below)
  }

  /** The condition and the item that the place names. */
  function Slot(node: ConditionNode, place: Place): (nat, nat)
    requires LiteralAt(node, place)
    decreases node
  {
    match node
    case Leaf(_) => (0, place.i)
    case And(children) => SlotIn(children, place.k, place.below)
    case Or(children) => SlotIn(children, place.k, place.below)
    case Not(inner) => Slot(inner, place.below)
  }

  function SlotIn(nodes: seq<ConditionNode>, k: nat, below: Place): (nat, nat)
    requires LiteralIn(nodes, k, below)
    decreases nodes
  {
    if k == 0 then Slot(nodes[0], below)
    else (|Leaves(nodes[0])| + SlotIn(nodes[1..], k - 1, below).0, SlotIn(nodes[1..], k - 1, below).1)
  }

  /** The literal there. */
  function LiteralOf(node: ConditionNode, place: Place): string
    requires LiteralAt(node, place)
    decreases node
  {
    match node
    case Leaf(leaf) => if leaf.value.String? then leaf.value.text else leaf.value.items[place.i]
    case And(children) => LiteralOfIn(children, place.k, place.below)
    case Or(children) => LiteralOfIn(children, place.k, place.below)
    case Not(inner) => LiteralOf(inner, place.below)
  }

  function LiteralOfIn(nodes: seq<ConditionNode>, k: nat, below: Place): string
    requires LiteralIn(nodes, k, below)
    decreases nodes
  {
    if k == 0 then LiteralOf(nodes[0], below) else LiteralOfIn(nodes[1..], k - 1, below)
  }

  predicate CarriedIn(node: ConditionNode, slot: (nat, nat), s: string) {
    slot.0 < |Leaves(node)| && Carries(Leaves(node)[slot.0], slot.1, s)
  }

  /** Converted, the expression carries the string there. */
  predicate Carried(u: Unicode, e: Expr, slot: (nat, nat), s: string) {
    Convertible(u, e) ==> CarriedIn(Strip(u, e), slot, s)
  }

  // ---------------------------------------------------------------- the expression around it

  /** The expression is `inner`, or an operator whose left operand leads down to it. */
  predicate Spine(e: Expr, inner: Expr) {
    || e == inner
    || (e.Binary? && Spine(e.left, inner))
    || (e.Like? && Spine(e.subject, inner))
    || (e.InList? && Spine(e.subject, inner))
  }

  lemma {:induction false} SpineTransitive(e: Expr, mid: Expr, inner: Expr)
    requires Spine(e, mid) && Spine(mid, inner)
    ensures Spine(e, inner)
    decreases e
  {
    if e == mid {
    } else if e.Binary? && Spine(e.left, mid) {
      SpineTransitive(e.left, mid, inner);
    } else if e.Like? && Spine(e.subject, mid) {
      SpineTransitive(e.subject, mid, inner);
    } else {
      SpineTransitive(e.subject, mid, inner);
    }
  }

  lemma InfixSpine(left: Expr, p: nat, ts: seq<Token>)
    requires ts != [] && p == Precedence(ts) && p > 0 && ParseInfix(left, p, ts).Some?
    ensures Spine(ParseInfix(left, p, ts).value.0, left)
  {
    hide ParseSub, ParseList, Precedence, SameIgnoreCase;
  }

  lemma {:induction false} ClimbSpine(min: nat, left: Expr, ts: seq<Token>)
    requires Climb(min, left, ts).Some?
    ensures Spine(Climb(min, left, ts).value.0, left)
    decreases |ts|
  {
    hide ParseInfix, Precedence, Spine;
    SpineRefl(left);
    var p := Precedence(ts);
    if p <= min {
    } else {
      PrecedenceNeedsToken(ts);
      InfixSpine(left, p, ts);
      var (e, rest) := ParseInfix(left, p, ts).value;
      ClimbSpine(min, e, rest);
      SpineTransitive(Climb(min, e, rest).value.0, e, left);
    }
  }

  lemma PrecedenceNeedsToken(ts: seq<Token>)
    requires Precedence(ts) > 0
    ensures ts != []
  {
  }

  lemma SpineRefl(e: Expr)
    ensures Spine(e, e)
  {
  }

  lemma SpineUnfold(e: Expr, inner: Expr)
    requires Spine(e, inner) && e != inner
    ensures (e.Binary? && Spine(e.left, inner)) || ((e.Like? || e.InList?) && Spine(e.subject, inner))
  {
  }

  lemma {:induction false} SpineCarries(u: Unicode, e: Expr, inner: Expr, slot: (nat, nat), s: string)
    requires Spine(e, inner) && !inner.Identifier? && Carried(u, inner, slot, s)
    ensures Carried(u, e, slot, s)
    decreases e
  {
    if e == inner {
    } else {
      SpineUnfold(e, inner);
      var left := if e.Binary? then e.left else e.subject;
      SpineNoName(left, inner);
      if IsConnective(e) {
        SpineCarries(u, left, inner, slot, s);
        PairLeft(u, e, slot, s);
      } else {
        NameNeeded(u, e);
      }
    }
  }

  lemma SpineNoName(e: Expr, inner: Expr)
    requires Spine(e, inner) && !inner.Identifier?
    ensures !e.Identifier?
  {
  }

  /** Only a name stands in front of a comparison. */
  lemma NameNeeded(u: Unicode, e: Expr)
    requires !IsConnective(e) && ((e.Binary? && !e.left.Identifier?) || ((e.Like? || e.InList?) && !e.subject.Identifier?))
    ensures !Convertible(u, e)
  {
    hide ExtractValue, ListItems;
  }

  lemma LeavesOfPair(a: ConditionNode, b: ConditionNode)
    ensures Leaves(And([a, b])) == Leaves(a) + Leaves(b) == Leaves(Or([a, b]))
  {
    assert [a, b][1..] == [b] && [b][1..] == [];
    assert LeavesOf([b]) == Leaves(b) + LeavesOf([]);
  }

  lemma PairLeft(u: Unicode, e: Expr, slot: (nat, nat), s: string)
    requires e.Binary? && IsConnective(e) && Carried(u, e.left, slot, s)
    ensures Carried(u, e, slot, s)
  {
    hide Leaves, Carries;
    if Convertible(u, e) { LeavesOfPair(Strip(u, e.left), Strip(u, e.right)); }
  }

  /** Converted, the expression has that many conditions. */
  predicate Counts(u: Unicode, e: Expr, n: nat) { Convertible(u, e) ==> |Leaves(Strip(u, e))| == n }

  lemma PairRight(u: Unicode, op: BinaryOp, left: Expr, right: Expr, n: nat, slot: (nat, nat), s: string)
    requires (op == AndOp || op == OrOp) && Counts(u, left, n) && Carried(u, right, slot, s)
    ensures Carried(u, Binary(op, left, right), (n + slot.0, slot.1), s)
  {
    hide Leaves, Carries;
    if Convertible(u, Binary(op, left, right)) { LeavesOfPair(Strip(u, left), Strip(u, right)); }
  }

  lemma PairCounts(u: Unicode, op: BinaryOp, left: Expr, right: Expr, m: nat, n: nat)
    requires (op == AndOp || op == OrOp) && Counts(u, left, m) && Counts(u, right, n)
    ensures Counts(u, Binary(op, left, right), m + n)
  {
    hide Leaves;
    if Convertible(u, Binary(op, left, right)) { LeavesOfPair(Strip(u, left), Strip(u, right)); }
  }

  lemma {:induction false} LeavesOfNested(node: ConditionNode)
    ensures Leaves(LeftNested(node)) == Leaves(node)
    decreases node
  {
    match node {
      case Leaf(_) =>
      case And(children) => LeavesOfGroup(AndOp, children);
      case Or(children) => LeavesOfGroup(OrOp, children);
      case Not(inner) => LeavesOfNested(inner);
    }
  }

  lemma {:induction false} LeavesOfGroup(op: BinaryOp, nodes: seq<ConditionNode>)
    ensures nodes != [] ==> Leaves(FoldNodes(op, LeftNested(nodes[0]), nodes[1..])) == LeavesOf(nodes)
    decreases nodes, 1
  {
    if nodes == [] {
    } else {
      hide LeftNested, FoldNodes, Leaves;
      LeavesOfNested(nodes[0]);
      LeavesOfFold(op, LeftNested(nodes[0]), nodes[1..]);
    }
  }

  lemma {:induction false} LeavesOfFold(op: BinaryOp, left: ConditionNode, nodes: seq<ConditionNode>)
    ensures Leaves(FoldNodes(op, left, nodes)) == Leaves(left) + LeavesOf(nodes)
    decreases nodes, 0
  {
    if nodes == [] {
    } else {
      hide LeftNested, Leaves;
      LeavesOfNested(nodes[0]);
      LeavesOfPair(left, LeftNested(nodes[0]));
      LeavesOfFold(op, Pair(op, left, LeftNested(nodes[0])), nodes[1..]);
    }
  }

  lemma NodeCounts(u: Unicode, node: ConditionNode)
    requires u.Valid() && HeaderFreeNode(node) && Readable(node)
    ensures Counts(u, Nested(NodeExpr(node)), |Leaves(node)|)
  {
    hide Leaves, LeftNested, NodeExpr;
    NodeConverts(u, node);
    LeavesOfNested(node);
  }

  /** Further operators behind it change nothing. */
  lemma ClimbCarries(u: Unicode, min: nat, left: Expr, ts: seq<Token>, slot: (nat, nat), s: string)
    requires Climb(min, left, ts).Some? && !left.Identifier? && Carried(u, left, slot, s)
    ensures Carried(u, Climb(min, left, ts).value.0, slot, s)
  {
    hide Climb, Spine, Carried;
    ClimbSpine(min, left, ts);
    SpineCarries(u, Climb(min, left, ts).value.0, left, slot, s);
  }

  // ---------------------------------------------------------------- one condition

  lemma ValueEnds(min: nat, v: string, more: seq<Token>)
    requires min == COMPARE_PRECEDENCE || min == LIKE_PRECEDENCE
    ensures var r := ParseSub(min, [Str(v)] + more);
            && (r.Some? ==> Spine(r.value.0, StringLit(v)))
            && (min == COMPARE_PRECEDENCE ==> r == Some((StringLit(v), more)))
  {
    hide Climb, Precedence, Spine;
    assert ([Str(v)] + more)[0] == Str(v) && ([Str(v)] + more)[1..] == more;
    assert ParsePrefix([Str(v)] + more) == Some((StringLit(v), more));
    if Climb(min, StringLit(v), more).Some? { ClimbSpine(min, StringLit(v), more); }
    PrecedenceBound(more);
    if min == COMPARE_PRECEDENCE { ClimbStops(min, StringLit(v), more); }
  }

  /** The condition the parser builds around the string it reads first. */
  predicate ReadsAs(e: Expr, leaf: ConditionLeaf, v: string) {
    var field := Identifier(FieldText(leaf.field));
    || (e.Binary? && e.left == field && e.right == StringLit(v) && !IsConnective(e) && OperatorOf(e.op) == leaf.operator)
    || (e.Like? && e.subject == field && Spine(e.pattern, StringLit(v)))
  }

  lemma ComparisonReads(leaf: ConditionLeaf, v: string, more: seq<Token>)
    requires IsComparison(leaf.operator)
    ensures var r := Climb(0, Identifier(FieldText(leaf.field)), OperatorTokens(leaf.operator) + ([Str(v)] + more));
            r.Some? ==> exists inner :: ReadsAs(inner, leaf, v) && Spine(r.value.0, inner)
  {
    var field := Identifier(FieldText(leaf.field));
    var ts := OperatorTokens(leaf.operator) + ([Str(v)] + more);
    ComparisonBinds(leaf.operator, [Str(v)] + more);
    ComparisonOperator(leaf.operator);
    hide ParseSub, Precedence, FieldText, Spine, SameIgnoreCase;
    ValueEnds(COMPARE_PRECEDENCE, v, more);
    var inner := Binary(Comparison(ts[0].symbol).value, field, StringLit(v));
    assert ReadsAs(inner, leaf, v);
    assert Climb(0, field, ts) == Climb(0, inner, more);
    if Climb(0, inner, more).Some? { ClimbSpine(0, inner, more); }
  }

  lemma ComparisonOperator(operator: FilterOperator)
    requires IsComparison(operator)
    ensures var t := OperatorTokens(operator)[0];
            t.Sym? && Comparison(t.symbol).Some? && OperatorOf(Comparison(t.symbol).value) == operator
            && Comparison(t.symbol).value != AndOp && Comparison(t.symbol).value != OrOp
  {
  }

  lemma ContainsReads(leaf: ConditionLeaf, v: string, more: seq<Token>)
    requires leaf.operator == Contains || leaf.operator == NotContains
    ensures var r := Climb(0, Identifier(FieldText(leaf.field)), OperatorTokens(leaf.operator) + ([Str(v)] + more));
            r.Some? ==> exists inner :: ReadsAs(inner, leaf, v) && Spine(r.value.0, inner)
  {
    var field := Identifier(FieldText(leaf.field));
    var negated := leaf.operator == NotContains;
    assert OperatorTokens(leaf.operator) == SpelledOut("LIKE", negated);
    var ts := OperatorTokens(leaf.operator) + ([Str(v)] + more);
    LikeBinds(field, negated, [Str(v)] + more);
    hide ParseSub, Precedence, FieldText, Spine, ParseInfix, SpelledOut;
    ValueEnds(LIKE_PRECEDENCE, v, more);
    var value := ParseSub(LIKE_PRECEDENCE, [Str(v)] + more);
    if value.Some? {
      var inner := Like(field, negated, value.value.0);
      assert ReadsAs(inner, leaf, v);
      assert Climb(0, field, ts) == Climb(0, inner, value.value.1);
      if Climb(0, inner, value.value.1).Some? { ClimbSpine(0, inner, value.value.1); }
    } else {
      assert Climb(0, field, ts).None?;
    }
  }

  lemma MembershipFails(leaf: ConditionLeaf, v: string, more: seq<Token>)
    requires leaf.operator == In || leaf.operator == NotIn
    ensures Climb(0, Identifier(FieldText(leaf.field)), OperatorTokens(leaf.operator) + ([Str(v)] + more)).None?
  {
    var field := Identifier(FieldText(leaf.field));
    var negated := leaf.operator == NotIn;
    assert OperatorTokens(leaf.operator) == SpelledOut("IN", negated);
    InBinds(field, negated, [Str(v)] + more);
    assert ([Str(v)] + more)[0] == Str(v);
    hide Precedence, FieldText, ParseInfix, SpelledOut;
  }

  lemma LeafReads(leaf: ConditionLeaf, v: string, more: seq<Token>)
    requires !leaf.field.Header?
    ensures var r := ParseSub(0, [Word(FieldText(leaf.field))] + (OperatorTokens(leaf.operator) + ([Str(v)] + more)));
            r.Some? ==> exists inner :: ReadsAs(inner, leaf, v) && Spine(r.value.0, inner)
  {
    hide Climb, FieldText, ParsePrefix, ReadsAs, Spine;
    OperatorStart(leaf.operator, [Str(v)] + more);
    ParseFieldWord(leaf.field, OperatorTokens(leaf.operator) + ([Str(v)] + more));
    match leaf.operator {
      case Contains => ContainsReads(leaf, v, more);
      case NotContains => ContainsReads(leaf, v, more);
      case In => MembershipFails(leaf, v, more);
      case NotIn => MembershipFails(leaf, v, more);
      case _ => ComparisonReads(leaf, v, more);
    }
  }

  lemma ReadsCarried(u: Unicode, inner: Expr, leaf: ConditionLeaf, v: string)
    requires ReadsAs(inner, leaf, v)
    ensures !inner.Identifier? && Carried(u, inner, (0, 0), v)
  {
    hide Spine, ExtractField, FieldText;
    if inner.Like? && inner.pattern != StringLit(v) { SpineUnfold(inner.pattern, StringLit(v)); }
  }

  lemma StringCut(u: Unicode, leaf: ConditionLeaf, v: string, more: seq<Token>)
    requires !leaf.field.Header?
    ensures var r := ParseSub(0, [Word(FieldText(leaf.field))] + (OperatorTokens(leaf.operator) + ([Str(v)] + more)));
            r.Some? ==> Carried(u, r.value.0, (0, 0), v)
  {
    hide ParseSub, Spine, ReadsAs, Carried, FieldText;
    LeafReads(leaf, v, more);
    var r := ParseSub(0, [Word(FieldText(leaf.field))] + (OperatorTokens(leaf.operator) + ([Str(v)] + more)));
    if r.Some? {
      var inner :| ReadsAs(inner, leaf, v) && Spine(r.value.0, inner);
      ReadsCarried(u, inner, leaf, v);
      SpineCarries(u, r.value.0, inner, (0, 0), v);
    }
  }

  /** The items in front of the `j`-th, with their commas. */
  function ItemsBefore(items: seq<string>, j: nat): seq<Token>
    requires j <= |items|
    decreases j
  {
    if j == 0 then [] else [Str(items[0]), Sym(Comma)] + ItemsBefore(items[1..], j - 1)
  }

  /** The element of a list that starts with the string. */
  lemma {:induction false} ItemsCut(items: seq<string>, j: nat, v: string, more: seq<Token>)
    requires j < |items|
    ensures var r := ParseList(ItemsBefore(items, j) + ([Str(v)] + more));
            r.Some? ==> j < |r.value.0| && Spine(r.value.0[j], StringLit(v))
    decreases j
  {
    hide Spine, Precedence, Climb;
    if j == 0 {
      assert [] + ([Str(v)] + more) == [Str(v)] + more;
      FirstElement(v, more);
    } else {
      var back := ItemsBefore(items[1..], j - 1) + ([Str(v)] + more);
      assert ItemsBefore(items, j) + ([Str(v)] + more) == [Str(items[0])] + ([Sym(Comma)] + back);
      EndsBindNothing([Sym(Comma)] + back);
      ParseLiteral(0, items[0], [Sym(Comma)] + back);
      assert ([Sym(Comma)] + back)[1..] == back;
      hide ParseSub;
      ItemsCut(items[1..], j - 1, v, more);
    }
  }

  lemma FirstElement(v: string, more: seq<Token>)
    ensures var r := ParseList([Str(v)] + more); r.Some? ==> Spine(r.value.0[0], StringLit(v))
  {
    hide Spine, Precedence, Climb;
    assert ([Str(v)] + more)[0] == Str(v) && ([Str(v)] + more)[1..] == more;
    assert ParsePrefix([Str(v)] + more) == Some((StringLit(v), more));
    if Climb(0, StringLit(v), more).Some? { ClimbSpine(0, StringLit(v), more); }
  }

  lemma {:induction false} ListItemsAt(es: seq<Expr>, j: nat)
    requires j < |es| && ListItems(es).Ok?
    ensures |ListItems(es).value| == |es|
    ensures (es[j].StringLit? && ListItems(es).value[j] == es[j].value) || (es[j].Identifier? && ListItems(es).value[j] == es[j].name)
    decreases |es|
  {
    if |es| == 1 {
      assert es[..0] == [];
    } else {
      var front := es[..|es| - 1];
      ListItemsAt(front, if j < |front| then j else 0);
    }
  }

  lemma MembershipCarried(u: Unicode, e: Expr, j: nat, v: string)
    requires e.InList? && j < |e.list| && Spine(e.list[j], StringLit(v))
    ensures Carried(u, e, (0, j), v)
  {
    hide Spine, ExtractField, ListItems;
    if Convertible(u, e) {
      ListItemsAt(e.list, j);
      if e.list[j] != StringLit(v) { SpineUnfold(e.list[j], StringLit(v)); }
    }
  }

  lemma ListCut(u: Unicode, leaf: ConditionLeaf, j: nat, v: string, more: seq<Token>)
    requires !leaf.field.Header? && IsMembership(leaf.operator) && leaf.value.List? && j < |leaf.value.items|
    ensures var back := [Sym(LParen)] + (ItemsBefore(leaf.value.items, j) + ([Str(v)] + more));
            var r := ParseSub(0, [Word(FieldText(leaf.field))] + (OperatorTokens(leaf.operator) + back));
            r.Some? ==> Carried(u, r.value.0, (0, j), v)
  {
    var inside := ItemsBefore(leaf.value.items, j) + ([Str(v)] + more);
    var back := [Sym(LParen)] + inside;
    var field, negated := Identifier(FieldText(leaf.field)), leaf.operator == NotIn;
    assert OperatorTokens(leaf.operator) == SpelledOut("IN", negated);
    assert back[0] == Sym(LParen) && back[1..] == inside;
    hide FieldText, ParseList, Precedence, SpelledOut, Spine, Carried, ItemsBefore, ParsePrefix, ParseInfix;
    OperatorStart(leaf.operator, back);
    ParseFieldWord(leaf.field, OperatorTokens(leaf.operator) + back);
    InBinds(field, negated, back);
    ItemsCut(leaf.value.items, j, v, more);
    var list := ParseIn(field, negated, back);
    var ts := OperatorTokens(leaf.operator) + back;
    assert ParseSub(0, [Word(FieldText(leaf.field))] + ts) == Climb(0, field, ts);
    if list.Some? {
      MembershipCarried(u, list.value.0, j, v);
      assert Climb(0, field, ts) == Climb(0, list.value.0, list.value.1);
      if Climb(0, field, ts).Some? { ClimbCarries(u, 0, list.value.0, list.value.1, (0, j), v); }
    }
  }

  /** No list stands outside IN and NOT IN. */
  predicate ListInPlace(leaf: ConditionLeaf) { leaf.value.List? ==> IsMembership(leaf.operator) }

  /** The leaf's tokens in front of its literal. */
  function LeafFront(leaf: ConditionLeaf, i: nat): seq<Token>
    requires leaf.value.List? ==> i <= |leaf.value.items|
  {
    [Word(FieldText(leaf.field))] +
    (OperatorTokens(leaf.operator) + (if leaf.value.List? then [Sym(LParen)] + ItemsBefore(leaf.value.items, i) else []))
  }

  lemma LeafCut(u: Unicode, leaf: ConditionLeaf, i: nat, v: string, more: seq<Token>)
    requires !leaf.field.Header? && LiteralAt(Leaf(leaf), Item(i)) && ListInPlace(leaf)
    ensures var r := ParseSub(0, Cut(LeafFront(leaf, i), v, more)); r.Some? ==> Carried(u, r.value.0, (0, i), v)
  {
    hide ParseSub, Carried, FieldText, OperatorTokens, ItemsBefore;
    var field, op := [Word(FieldText(leaf.field))], OperatorTokens(leaf.operator);
    if leaf.value.String? {
      assert Cut(LeafFront(leaf, i), v, more) == field + (op + ([Str(v)] + more));
      StringCut(u, leaf, v, more);
    } else {
      Regrouped(field, op, ItemsBefore(leaf.value.items, i), [Str(v)] + more);
      ListCut(u, leaf, i, v, more);
    }
  }

  lemma Regrouped(a: seq<Token>, b: seq<Token>, c: seq<Token>, d: seq<Token>)
    ensures a + (b + ([Sym(LParen)] + c)) + d == a + (b + ([Sym(LParen)] + (c + d)))
  {
  }

  // ---------------------------------------------------------------- trees

  /** The literal stands in no list outside IN and NOT IN. */
  predicate InPlace(node: ConditionNode, place: Place)
    requires LiteralAt(node, place)
    decreases node
  {
    match node
    case Leaf(leaf) => ListInPlace(leaf)
    case And(children) => InPlaceIn(children, place.k, place.below)
    case Or(children) => InPlaceIn(children, place.k, place.below)
    case Not(inner) => InPlace(inner, place.below)
  }

  predicate InPlaceIn(nodes: seq<ConditionNode>, k: nat, below: Place)
    requires LiteralIn(nodes, k, below)
    decreases nodes
  {
    if k == 0 then InPlace(nodes[0], below) else InPlaceIn(nodes[1..], k - 1, below)
  }

  /** The tokens in front of the literal. */
  function Front(node: ConditionNode, place: Place): seq<Token>
    requires LiteralAt(node, place)
    decreases node
  {
    match node
    case Leaf(leaf) => LeafFront(leaf, place.i)
    case And(children) => FrontIn("AND", children, place.k, place.below)
    case Or(children) => FrontIn("OR", children, place.k, place.below)
    case Not(inner) => [Word("NOT")] + ([Sym(LParen)] + Front(inner, place.below))
  }

  function FrontIn(word: string, nodes: seq<ConditionNode>, k: nat, below: Place): seq<Token>
    requires LiteralIn(nodes, k, below)
    decreases nodes
  {
    if k == 0 then [Sym(LParen)] + Front(nodes[0], below)
    else GroupOf(NodeTokens(nodes[0])) + ([Word(word)] + FrontIn(word, nodes[1..], k - 1, below))
  }

  /** A string and anything behind it in the literal's place. */
  function Cut(front: seq<Token>, v: string, more: seq<Token>): seq<Token> { front + ([Str(v)] + more) }

  lemma CutBehind(a: seq<Token>, front: seq<Token>, v: string, more: seq<Token>)
    ensures Cut(a + front, v, more) == a + Cut(front, v, more)
  {
  }

  /** Parsed from there, the condition carries the string at that place. */
  lemma {:induction false} NodeCut(u: Unicode, node: ConditionNode, place: Place, v: string, more: seq<Token>)
    requires u.Valid() && HeaderFreeNode(node) && LiteralAt(node, place) && InPlace(node, place)
    ensures var r := ParseSub(0, Cut(Front(node, place), v, more)); r.Some? ==> Carried(u, r.value.0, Slot(node, place), v)
    decreases node, 1
  {
    hide ParseSub, Carried, LeafFront, LiteralIn, FrontIn, SlotIn, ListInPlace, InPlaceIn;
    match node {
      case Leaf(leaf) => LeafCut(u, leaf, place.i, v, more);
      case And(children) => ConnectiveCut(u, AndOp, "AND", children, place.k, place.below, v, more);
      case Or(children) => ConnectiveCut(u, OrOp, "OR", children, place.k, place.below, v, more);
      case Not(inner) => NegationCut(u, inner, place.below, v, more);
    }
  }

  /** In parentheses. */
  lemma {:induction false} GroupCut(u: Unicode, min: nat, node: ConditionNode, place: Place, v: string, more: seq<Token>)
    requires u.Valid() && HeaderFreeNode(node) && LiteralAt(node, place) && InPlace(node, place)
    ensures var r := ParseSub(min, [Sym(LParen)] + Cut(Front(node, place), v, more)); r.Some? ==> Carried(u, r.value.0, Slot(node, place), v)
    decreases node, 2
  {
    hide *;
    var inside := Cut(Front(node, place), v, more);
    var ts := [Sym(LParen)] + inside;
    NodeCut(u, node, place, v, more);
    SubUnfold(min, ts);
    if ParseSub(min, ts).Some? {
      ParenthesizedPrefix(inside);
      var (e, rest) := ParsePrefix(ts).value;
      NestedCarries(u, e, ParseSub(0, inside).value.0, Slot(node, place), v);
      ClimbCarries(u, min, e, rest, Slot(node, place), v);
    }
  }

  lemma ParenthesizedPrefix(inside: seq<Token>)
    requires ParsePrefix([Sym(LParen)] + inside).Some?
    ensures var e := ParsePrefix([Sym(LParen)] + inside).value.0;
            ParseSub(0, inside).Some? && (e == Nested(ParseSub(0, inside).value.0) || e.TupleOf?)
  {
    hide ParseSub;
    assert ([Sym(LParen)] + inside)[1..] == inside;
  }

  lemma SubUnfold(min: nat, ts: seq<Token>)
    ensures ParsePrefix(ts).None? ==> ParseSub(min, ts).None?
    ensures ParsePrefix(ts).Some? ==> ParseSub(min, ts) == Climb(min, ParsePrefix(ts).value.0, ParsePrefix(ts).value.1)
  {
  }

  lemma NestedCarries(u: Unicode, e: Expr, inner: Expr, slot: (nat, nat), s: string)
    requires (e == Nested(inner) && Carried(u, inner, slot, s)) || e.TupleOf?
    ensures !e.Identifier? && Carried(u, e, slot, s)
  {
    hide CarriedIn;
  }

  lemma {:induction false} NegationCut(u: Unicode, inner: ConditionNode, place: Place, v: string, more: seq<Token>)
    requires u.Valid() && HeaderFreeNode(inner) && LiteralAt(inner, place) && InPlace(inner, place)
    ensures var r := ParseSub(0, Cut([Word("NOT")] + ([Sym(LParen)] + Front(inner, place)), v, more));
            r.Some? ==> Carried(u, r.value.0, Slot(inner, place), v)
    decreases inner, 3
  {
    hide *;
    CutBehind([Word("NOT")], [Sym(LParen)] + Front(inner, place), v, more);
    CutBehind([Sym(LParen)], Front(inner, place), v, more);
    var group := [Sym(LParen)] + Cut(Front(inner, place), v, more);
    var ts := [Word("NOT")] + group;
    SubUnfold(0, ts);
    if ParseSub(0, ts).Some? {
      NotPrefix(group);
      GroupCut(u, NOT_PRECEDENCE, inner, place, v, more);
      var e := ParseSub(NOT_PRECEDENCE, group).value.0;
      NotCarries(u, e, Slot(inner, place), v);
      ClimbCarries(u, 0, UnaryNot(e), ParsePrefix(ts).value.1, Slot(inner, place), v);
    }
  }

  lemma NotPrefix(group: seq<Token>)
    requires ParsePrefix([Word("NOT")] + group).Some?
    ensures ParseSub(NOT_PRECEDENCE, group).Some? && ParsePrefix([Word("NOT")] + group).value.0 == UnaryNot(ParseSub(NOT_PRECEDENCE, group).value.0)
  {
    hide ParseSub;
    OperatorWords();
    assert ([Word("NOT")] + group)[1..] == group;
  }

  lemma NotCarries(u: Unicode, e: Expr, slot: (nat, nat), s: string)
    requires Carried(u, e, slot, s)
    ensures !UnaryNot(e).Identifier? && Carried(u, UnaryNot(e), slot, s)
  {
    hide Carries;
  }

  lemma FirstOfNodes(nodes: seq<ConditionNode>)
    requires nodes != [] && HeaderFreeNodes(nodes)
    ensures HeaderFreeNode(nodes[0]) && HeaderFreeNodes(nodes[1..])
  {
  }

  lemma InRest(word: string, nodes: seq<ConditionNode>, k: nat, below: Place, v: string, more: seq<Token>)
    requires LiteralIn(nodes, k, below) && k > 0
    ensures LiteralIn(nodes[1..], k - 1, below) && InPlaceIn(nodes[1..], k - 1, below) == InPlaceIn(nodes, k, below)
    ensures SlotIn(nodes, k, below) == (|Leaves(nodes[0])| + SlotIn(nodes[1..], k - 1, below).0, SlotIn(nodes[1..], k - 1, below).1)
    ensures Cut(FrontIn(word, nodes, k, below), v, more) ==
            GroupOf(NodeTokens(nodes[0])) + ([Word(word)] + Cut(FrontIn(word, nodes[1..], k - 1, below), v, more))
  {
    hide Front, LiteralAt, Slot, NodeTokens, Leaves, Cut, GroupOf;
    var front := FrontIn(word, nodes[1..], k - 1, below);
    CutBehind(GroupOf(NodeTokens(nodes[0])), [Word(word)] + front, v, more);
    CutBehind([Word(word)], front, v, more);
  }

  lemma InFirst(word: string, nodes: seq<ConditionNode>, below: Place, v: string, more: seq<Token>)
    requires LiteralIn(nodes, 0, below)
    ensures LiteralAt(nodes[0], below) && InPlace(nodes[0], below) == InPlaceIn(nodes, 0, below)
    ensures SlotIn(nodes, 0, below) == Slot(nodes[0], below)
    ensures Cut(FrontIn(word, nodes, 0, below), v, more) == [Sym(LParen)] + Cut(Front(nodes[0], below), v, more)
  {
    hide Front, LiteralAt, Slot, Cut;
    CutBehind([Sym(LParen)], Front(nodes[0], below), v, more);
  }

  lemma LiteralNeedsNodes(nodes: seq<ConditionNode>, k: nat, below: Place)
    requires LiteralIn(nodes, k, below)
    ensures nodes != []
  {
  }

  lemma {:induction false} ConnectiveCut(u: Unicode, op: BinaryOp, word: string, nodes: seq<ConditionNode>, k: nat, below: Place,
                                         v: string, more: seq<Token>)
    requires u.Valid() && HeaderFreeNodes(nodes) && IsConnectiveWord(op, word) && LiteralIn(nodes, k, below) && InPlaceIn(nodes, k, below)
    ensures var r := ParseSub(0, Cut(FrontIn(word, nodes, k, below), v, more)); r.Some? ==> Carried(u, r.value.0, SlotIn(nodes, k, below), v)
    decreases nodes, 0
  {
    hide *;
    LiteralNeedsNodes(nodes, k, below);
    FirstOfNodes(nodes);
    if k == 0 {
      InFirst(word, nodes, below, v, more);
      GroupCut(u, 0, nodes[0], below, v, more);
    } else {
      InRest(word, nodes, k, below, v, more);
      WholeOperand(u, 0, nodes[0], [Word(word)] + Cut(FrontIn(word, nodes[1..], k - 1, below), v, more));
      if Readable(nodes[0]) { TailCut(u, op, word, Nested(NodeExpr(nodes[0])), |Leaves(nodes[0])|, nodes[1..], k - 1, below, v, more); }
    }
  }

  /** A parenthesized condition in front of anything. */
  lemma WholeOperand(u: Unicode, min: nat, node: ConditionNode, back: seq<Token>)
    requires u.Valid() && HeaderFreeNode(node)
    ensures ParseSub(min, GroupOf(NodeTokens(node)) + back) == if Readable(node) then Climb(min, Nested(NodeExpr(node)), back) else None
    ensures Readable(node) ==> Counts(u, Nested(NodeExpr(node)), |Leaves(node)|)
  {
    hide *;
    ParseGroup(node, back);
    SubUnfold(min, GroupOf(NodeTokens(node)) + back);
    if Readable(node) { NodeCounts(u, node); }
  }

  function WordPrecedence(op: BinaryOp): nat { if op == AndOp then AND_PRECEDENCE else OR_PRECEDENCE }

  lemma WordBinds(op: BinaryOp, word: string, rest: seq<Token>)
    requires IsConnectiveWord(op, word)
    ensures var p := WordPrecedence(op);
            p > 0 && Precedence([Word(word)] + rest) == p && ([Word(word)] + rest)[0] == Word(word) && ([Word(word)] + rest)[1..] == rest
  {
    ConnectiveWords();
    assert ([Word(word)] + rest)[0] == Word(word);
  }

  /** One more operand. */
  lemma ClimbOn(op: BinaryOp, word: string, left: Expr, rest: seq<Token>)
    requires IsConnectiveWord(op, word)
    ensures var operand := ParseSub(WordPrecedence(op), rest);
            Climb(0, left, [Word(word)] + rest) ==
            if operand.None? then None else Climb(0, Binary(op, left, operand.value.0), operand.value.1)
  {
    hide ParseSub, Precedence, SameIgnoreCase;
    var ts := [Word(word)] + rest;
    WordBinds(op, word, rest);
    InfixConnective(op, word, left, Precedence(ts), ts);
    hide ParseInfix;
  }

  /** The literal stands in the next operand. */
  lemma NextOperandCut(u: Unicode, op: BinaryOp, word: string, left: Expr, n: nat, rest: seq<Token>, slot: (nat, nat), v: string)
    requires IsConnectiveWord(op, word) && Counts(u, left, n)
    requires ParseSub(WordPrecedence(op), rest).Some? ==> Carried(u, ParseSub(WordPrecedence(op), rest).value.0, slot, v)
    ensures var r := Climb(0, left, [Word(word)] + rest); r.Some? ==> Carried(u, r.value.0, (n + slot.0, slot.1), v)
  {
    assert op == AndOp || op == OrOp;
    ClimbOn(op, word, left, rest);
    hide ParseSub, Climb, Counts, Carried;
    var operand := ParseSub(WordPrecedence(op), rest);
    if operand.Some? {
      var pair := Binary(op, left, operand.value.0);
      PairRight(u, op, left, operand.value.0, n, slot, v);
      if Climb(0, pair, operand.value.1).Some? { ClimbCarries(u, 0, pair, operand.value.1, (n + slot.0, slot.1), v); }
    }
  }

  /** A connective binds no more strongly than its like. */
  lemma WordStops(op: BinaryOp, word: string, e: Expr, cut: seq<Token>)
    requires IsConnectiveWord(op, word)
    ensures Climb(WordPrecedence(op), e, [Word(word)] + cut) == Some((e, [Word(word)] + cut))
  {
    WordBinds(op, word, cut);
    hide Precedence;
    ClimbStops(WordPrecedence(op), e, [Word(word)] + cut);
  }

  /** The next operand is whole. */
  lemma NextOperand(u: Unicode, op: BinaryOp, word: string, left: Expr, n: nat, node: ConditionNode, cut: seq<Token>)
    requires u.Valid() && HeaderFreeNode(node) && IsConnectiveWord(op, word) && Counts(u, left, n)
    ensures var back := [Word(word)] + cut;
            Climb(0, left, [Word(word)] + (GroupOf(NodeTokens(node)) + back)) ==
            if Readable(node) then Climb(0, Binary(op, left, Nested(NodeExpr(node))), back) else None
    ensures Readable(node) ==> Counts(u, Binary(op, left, Nested(NodeExpr(node))), n + |Leaves(node)|)
  {
    IsPair(op, word);
    hide *;
    var back := [Word(word)] + cut;
    var rest := GroupOf(NodeTokens(node)) + back;
    ClimbOn(op, word, left, rest);
    WholeOperand(u, WordPrecedence(op), node, back);
    if Readable(node) {
      WordStops(op, word, Nested(NodeExpr(node)), cut);
      PairCounts(u, op, left, Nested(NodeExpr(node)), n, |Leaves(node)|);
    }
  }

  lemma IsPair(op: BinaryOp, word: string)
    requires IsConnectiveWord(op, word)
    ensures op == AndOp || op == OrOp
  {
  }

  lemma {:induction false} TailCut(u: Unicode, op: BinaryOp, word: string, left: Expr, n: nat, nodes: seq<ConditionNode>,
                                   k: nat, below: Place, v: string, more: seq<Token>)
    requires u.Valid() && HeaderFreeNodes(nodes) && IsConnectiveWord(op, word)
    requires LiteralIn(nodes, k, below) && InPlaceIn(nodes, k, below) && Counts(u, left, n)
    ensures var r := Climb(0, left, [Word(word)] + Cut(FrontIn(word, nodes, k, below), v, more));
            r.Some? ==> Carried(u, r.value.0, (n + SlotIn(nodes, k, below).0, SlotIn(nodes, k, below).1), v)
    decreases nodes, 0
  {
    hide *;
    LiteralNeedsNodes(nodes, k, below);
    FirstOfNodes(nodes);
    if k == 0 {
      InFirst(word, nodes, below, v, more);
      GroupCut(u, WordPrecedence(op), nodes[0], below, v, more);
      NextOperandCut(u, op, word, left, n, Cut(FrontIn(word, nodes, k, below), v, more), Slot(nodes[0], below), v);
    } else {
      InRest(word, nodes, k, below, v, more);
      NextOperand(u, op, word, left, n, nodes[0], Cut(FrontIn(word, nodes[1..], k - 1, below), v, more));
      if Readable(nodes[0]) {
        TailCut(u, op, word, Binary(op, left, Nested(NodeExpr(nodes[0]))), n + |Leaves(nodes[0])|, nodes[1..], k - 1, below, v, more);
      }
    }
  }

  /** The tree itself carries its literal there. */
  lemma {:induction false} LiteralCarried(node: ConditionNode, place: Place)
    requires LiteralAt(node, place)
    ensures CarriedIn(node, Slot(node, place), LiteralOf(node, place))
    decreases node, 1
  {
    match node {
      case Leaf(_) =>
      case And(children) => LiteralCarriedIn(children, place.k, place.below);
      case Or(children) => LiteralCarriedIn(children, place.k, place.below);
      case Not(inner) => LiteralCarried(inner, place.below);
    }
  }

  lemma {:induction false} LiteralCarriedIn(nodes: seq<ConditionNode>, k: nat, below: Place)
    requires LiteralIn(nodes, k, below)
    ensures var slot := SlotIn(nodes, k, below);
            slot.0 < |LeavesOf(nodes)| && Carries(LeavesOf(nodes)[slot.0], slot.1, LiteralOfIn(nodes, k, below))
    decreases nodes, 0
  {
    hide Carries, LiteralAt, Slot, LiteralOf, Leaves;
    if k == 0 {
      LiteralCarried(nodes[0], below);
    } else {
      LiteralCarriedIn(nodes[1..], k - 1, below);
    }
  }
}
