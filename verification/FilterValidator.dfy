/** The validator passes that speak about conditions, against the evaluator. */
module FilterValidator {
  import opened Wrappers
  import Text
  import opened NsqlAst
  import NsqlConvert
  import NsqlRule
  import opened FilterEval
  import opened FilterSemantics

  datatype ValidationError = FieldTypeMismatch | ReDoSOrDepth | ContradictionDetected

  type Verdict = Result<(), ValidationError>

  // ---------------------------------------------------------------- pass 1: field types

  predicate FieldTypesFit(leaf: ConditionLeaf) {
    match leaf.field
    case Size => leaf.value.Number?
    case Date => leaf.value.Number?
    case HasAttachment => leaf.value.Boolean?
    case Header(_) => false
    case _ => leaf.value.String? || leaf.value.List?
  }

  /** `pass1_field_types`. */
  function Pass1(node: ConditionNode): Verdict
    decreases node
  {
    match node
    case Leaf(leaf) => if FieldTypesFit(leaf) then Ok(()) else Err(FieldTypeMismatch)
    case And(children) => Pass1All(children)
    case Or(children) => Pass1All(children)
    case Not(inner) => Pass1(inner)
  }

  function Pass1All(nodes: seq<ConditionNode>): Verdict
    decreases nodes
  {
    if nodes == [] then Ok(()) else if Pass1(nodes[0]).Err? then Pass1(nodes[0]) else Pass1All(nodes[1..])
  }

  /** What passes has only leaves whose value fits the field: the evaluator never meets a header condition,
      nor a size, date or attachment condition it would answer with false for want of a number or a flag. */
  lemma {:induction false} Pass1Sound(node: ConditionNode, leaf: ConditionLeaf)
    requires Pass1(node).Ok? && Occurs(leaf, node)
    ensures FieldTypesFit(leaf) && !leaf.field.Header?
    decreases node
  {
    match node {
      case Leaf(_) =>
      case And(children) => Pass1AllSound(children, leaf);
      case Or(children) => Pass1AllSound(children, leaf);
      case Not(inner) => Pass1Sound(inner, leaf);
    }
  }

  lemma {:induction false} Pass1AllSound(nodes: seq<ConditionNode>, leaf: ConditionLeaf)
    requires Pass1All(nodes).Ok? && exists i | 0 <= i < |nodes| :: Occurs(leaf, nodes[i])
    ensures FieldTypesFit(leaf) && !leaf.field.Header?
    decreases nodes
  {
    var i :| 0 <= i < |nodes| && Occurs(leaf, nodes[i]);
    if i == 0 {
      Pass1Sound(nodes[0], leaf);
    } else {
      assert nodes[i] == nodes[1..][i - 1];
      Pass1AllSound(nodes[1..], leaf);
    }
  }

  lemma {:induction false} Pass1Rejects(node: ConditionNode) returns (leaf: ConditionLeaf)
    requires Pass1(node).Err?
    ensures Occurs(leaf, node) && !FieldTypesFit(leaf)
    ensures Pass1(node) == Err(FieldTypeMismatch)
    decreases node
  {
    match node {
      case Leaf(l) => leaf := l;
      case And(children) => var i; i, leaf := Pass1AllRejects(children);
      case Or(children) => var i; i, leaf := Pass1AllRejects(children);
      case Not(inner) => leaf := Pass1Rejects(inner);
    }
  }

  lemma {:induction false} Pass1AllRejects(nodes: seq<ConditionNode>) returns (i: nat, leaf: ConditionLeaf)
    requires Pass1All(nodes).Err?
    ensures i < |nodes| && Occurs(leaf, nodes[i]) && !FieldTypesFit(leaf)
    ensures Pass1All(nodes) == Err(FieldTypeMismatch)
    decreases nodes
  {
    if Pass1(nodes[0]).Err? {
      i := 0;
      leaf := Pass1Rejects(nodes[0]);
    } else {
      var k, l := Pass1AllRejects(nodes[1..]);
      i, leaf := k + 1, l;
    }
  }

  /** Pass 1 accepts exactly the conditions in which every condition on the size or the date holds a number, every one
      on attachments a flag, every one on a text a string or a list, and none is on a header. */
  lemma Pass1IsExact(node: ConditionNode)
    ensures Pass1(node).Ok? <==>
            forall leaf | Occurs(leaf, node) ::
              && (leaf.field == Size || leaf.field == Date ==> leaf.value.Number?)
              && (leaf.field == HasAttachment ==> leaf.value.Boolean?)
              && (leaf.field in {Subject, From, To, Body, Folder, Account} ==> leaf.value.String? || leaf.value.List?)
              && !leaf.field.Header?
    ensures Pass1(node).Err? ==> Pass1(node) == Err(FieldTypeMismatch)
  {
    if Pass1(node).Ok? {
      forall leaf | Occurs(leaf, node)
        ensures FieldTypesFit(leaf)
      {
        Pass1Sound(node, leaf);
      }
    } else {
      var leaf := Pass1Rejects(node);
    }
  }

  /** After pass 1 a comparison of the size or the date is decided by its number, and one of attachments by its flag. */
  lemma Pass1Decides(lib: Libraries, node: ConditionNode, leaf: ConditionLeaf, email: Email, size: nat)
    requires Pass1(node).Ok? && Occurs(leaf, node) && IsSize(email, size)
    ensures leaf.field == Size ==> leaf.value.Number? && (EvalFresh(lib, Leaf(leaf), email) <==> NumberMeets(size, leaf.operator, leaf.value))
    ensures leaf.field == Date ==> leaf.value.Number? && (EvalFresh(lib, Leaf(leaf), email) <==> NumberMeets(email.receivedAt, leaf.operator, leaf.value))
    ensures leaf.field == HasAttachment ==>
              leaf.value.Boolean? && (EvalFresh(lib, Leaf(leaf), email) <==> (leaf.operator == Equals <==> (email.attachments != []) == leaf.value.flag))
  {
    Pass1IsExact(node);
    LeafMeaning(lib, leaf, email);
    assert forall n: nat | IsSize(email, n) :: n == size;
  }

  /** A size that is no number is rejected, wherever it stands. */
  lemma SizeMustBeNumber(node: ConditionNode, operator: FilterOperator, text: string)
    requires Occurs(ConditionLeaf(Size, operator, String(text)), node)
    ensures Pass1(node) == Err(FieldTypeMismatch)
  {
    Pass1IsExact(node);
  }

  // ---------------------------------------------------------------- pass 4: patterns and depth

  predicate NestedQuantifier(pattern: string) {
    HasSubstring(pattern, "+)+") || HasSubstring(pattern, "*)*") || HasSubstring(pattern, "+)*") || HasSubstring(pattern, "*)+")
  }

  /** Some group ends in a quantifier and is itself quantified. */
  lemma NestedQuantifierMeaning(pattern: string)
    ensures NestedQuantifier(pattern) <==>
            exists i | 0 <= i < |pattern| - 2 ::
              && (pattern[i] == '+' || pattern[i] == '*') && pattern[i + 1] == ')'
              && (pattern[i + 2] == '+' || pattern[i + 2] == '*')
  {
    hide HasSubstring, FoundIn;
    ThreeFound(pattern, '+', ')', '+');
    ThreeFound(pattern, '*', ')', '*');
    ThreeFound(pattern, '+', ')', '*');
    ThreeFound(pattern, '*', ')', '+');
  }

  lemma ThreeFound(s: string, a: char, b: char, c: char)
    ensures HasSubstring(s, [a, b, c]) <==> exists i | 0 <= i < |s| - 2 :: s[i] == a && s[i + 1] == b && s[i + 2] == c
  {
    SubstringFound(s, [a, b, c]);
    hide HasSubstring;
    if FoundIn([a, b, c], s) {
      var i :| 0 <= i <= |s| && StandsAt([a, b, c], s, i);
      assert s[i] == s[i..i + 3][0] && s[i + 1] == s[i..i + 3][1] && s[i + 2] == s[i..i + 3][2];
    }
    if i :| 0 <= i < |s| - 2 && s[i] == a && s[i + 1] == b && s[i + 2] == c {
      assert s[i..i + 3] == [a, b, c];
      assert StandsAt([a, b, c], s, i);
    }
  }

  function CheckLeafPattern(lib: Libraries, leaf: ConditionLeaf): Verdict {
    if leaf.operator == Matches && leaf.value.String? && (NestedQuantifier(leaf.value.text) || lib.compile(leaf.value.text).None?)
    then Err(ReDoSOrDepth)
    else Ok(())
  }

  /** `check_regex_patterns`. */
  function CheckPatterns(lib: Libraries, node: ConditionNode): Verdict
    decreases node
  {
    match node
    case Leaf(leaf) => CheckLeafPattern(lib, leaf)
    case And(children) => CheckPatternsOf(lib, children)
    case Or(children) => CheckPatternsOf(lib, children)
    case Not(inner) => CheckPatterns(lib, inner)
  }

  function CheckPatternsOf(lib: Libraries, nodes: seq<ConditionNode>): Verdict
    decreases nodes
  {
    if nodes == [] then Ok(())
    else
      var front := CheckPatternsOf(lib, nodes[..|nodes| - 1]);
      if front.Err? then front else CheckPatterns(lib, nodes[|nodes| - 1])
  }

  /** `pass4_redos_and_depth`. */
  function Pass4(lib: Libraries, node: ConditionNode): Verdict {
    if Depth(node) > 10 then Err(ReDoSOrDepth) else CheckPatterns(lib, node)
  }

  predicate PatternsAccepted(lib: Libraries, patterns: seq<string>) {
    forall p | p in patterns :: !NestedQuantifier(p) && lib.compile(p).Some?
  }

  /** The pattern check passes exactly when each pattern the engine will collect compiles and holds no nested
      quantifier. */
  lemma {:induction false} PatternCheckIsExact(lib: Libraries, node: ConditionNode)
    ensures CheckPatterns(lib, node).Ok? <==> PatternsAccepted(lib, Patterns(node))
    decreases node
  {
    hide NestedQuantifier;
    match node {
      case Leaf(leaf) =>
        if leaf.operator == Matches && leaf.value.String? { assert leaf.value.text in Patterns(node); }
      case And(children) => PatternChecksAreExact(lib, children);
      case Or(children) => PatternChecksAreExact(lib, children);
      case Not(inner) => PatternCheckIsExact(lib, inner);
    }
  }

  lemma {:induction false} PatternChecksAreExact(lib: Libraries, nodes: seq<ConditionNode>)
    ensures CheckPatternsOf(lib, nodes).Ok? <==> PatternsAccepted(lib, PatternsOf(nodes))
    decreases nodes
  {
    if nodes == [] {
    } else {
      hide NestedQuantifier, CheckPatterns, Patterns;
      var front, last := nodes[..|nodes| - 1], nodes[|nodes| - 1];
      PatternChecksAreExact(lib, front);
      PatternCheckIsExact(lib, last);
      assert forall p :: p in PatternsOf(nodes) <==> p in PatternsOf(front) || p in Patterns(last);
    }
  }

  /** Pass 4 accepts exactly the trees at most ten deep in which every pattern, wherever it stands, compiles and holds
      no quantified group that ends in a quantifier. */
  lemma Pass4IsExact(lib: Libraries, node: ConditionNode)
    ensures Pass4(lib, node).Ok? <==>
            && Depth(node) <= 10
            && forall p, field | Occurs(ConditionLeaf(field, Matches, String(p)), node) :: !NestedQuantifier(p) && lib.compile(p).Some?
  {
    hide NestedQuantifier, CheckPatterns, Patterns, Occurs;
    PatternCheckIsExact(lib, node);
    forall p
      ensures p in Patterns(node) <==> exists field :: Occurs(ConditionLeaf(field, Matches, String(p)), node)
    {
      PatternsAreMatches(node, p);
    }
  }

  /** Conditions that pass 4 accepts can be compiled, so a validated rule never makes the filter set fail. */
  lemma Pass4Compiles(lib: Libraries, rule: FilterRule)
    requires Pass4(lib, rule.conditions).Ok?
    ensures Compiles(lib, rule) && Depth(rule.conditions) <= NsqlConvert.MAX_AST_DEPTH
  {
    PatternCheckIsExact(lib, rule.conditions);
  }

  /** On conditions that were parsed, pass 4 is the pattern check alone: the depth was bounded before. */
  lemma Pass4OnParsed(u: Text.Unicode, lib: Libraries, text: string)
    requires NsqlRule.ParseConditions(u, text).Ok?
    ensures var node := NsqlRule.ParseConditions(u, text).value;
            Pass4(lib, node) == CheckPatterns(lib, node) && (Pass4(lib, node).Ok? <==> PatternsAccepted(lib, Patterns(node)))
  {
    hide NsqlRule.ParseConditions, Depth, CheckPatterns, PatternsAccepted;
    NsqlRule.ParsedConditionsWithinDepth(u, text);
    PatternCheckIsExact(lib, NsqlRule.ParseConditions(u, text).value);
  }

  // ---------------------------------------------------------------- pass 5: contradictions

  /** A size bound, if the conjunct is one: the number, whether it is an upper bound, and whether strict. */
  datatype Bound = Bound(number: i64, upper: bool, strict: bool)

  function SizeBound(node: ConditionNode): Option<Bound> {
    if node.Leaf? && node.leaf.field == Size && node.leaf.value.Number? then
      match node.leaf.operator
      case GreaterThan => Some(Bound(node.leaf.value.number, false, true))
      case GreaterThanOrEqual => Some(Bound(node.leaf.value.number, false, false))
      case LessThan => Some(Bound(node.leaf.value.number, true, true))
      case LessThanOrEqual => Some(Bound(node.leaf.value.number, true, false))
      case _ => None
    else None
  }

  /** The last bound of each kind: the loop of pass 5 overwrites earlier ones. */
  function LastBound(nodes: seq<ConditionNode>, upper: bool): Option<Bound> {
    if nodes == [] then None
    else
      var last := SizeBound(nodes[|nodes| - 1]);
      if last.Some? && last.value.upper == upper then last else LastBound(nodes[..|nodes| - 1], upper)
  }

  predicate Contradicts(node: ConditionNode) {
    && node.And?
    && var (lower, upper) := (LastBound(node.children, false), LastBound(node.children, true));
    && lower.Some? && upper.Some? && lower.value.number >= upper.value.number
  }

  /** `pass5_contradictions`. */
  method Pass5(node: ConditionNode) returns (r: Verdict)
    ensures r == if Contradicts(node) then Err(ContradictionDetected) else Ok(())
  {
    if node.And? {
      var children := node.children;
      var sizeGt: Option<i64> := None;
      var sizeLt: Option<i64> := None;
      for i := 0 to |children|
        invariant sizeGt == match LastBound(children[..i], false) case None => None case Some(b) => Some(b.number)
        invariant sizeLt == match LastBound(children[..i], true) case None => None case Some(b) => Some(b.number)
      {
        assert children[..i + 1][..i] == children[..i];
        var c := children[i];
        if c.Leaf? && c.leaf.field == Size && c.leaf.value.Number? {
          var n := c.leaf.value.number;
          if c.leaf.operator == GreaterThan || c.leaf.operator == GreaterThanOrEqual {
            sizeGt := Some(n);
          } else if c.leaf.operator == LessThan || c.leaf.operator == LessThanOrEqual {
            sizeLt := Some(n);
          }
        }
      }
      assert children[..|children|] == children;
      if sizeGt.Some? && sizeLt.Some? && sizeGt.value >= sizeLt.value {
        return Err(ContradictionDetected);
      }
    }
    r := Ok(());
  }

  /** The size lies on the right side of the bound. */
  predicate Meets(size: int, b: Bound) {
    if b.upper then (if b.strict then size < b.number else size <= b.number)
    else if b.strict then size > b.number else size >= b.number
  }

  lemma SizeBoundMeaning(lib: Libraries, node: ConditionNode, email: Email, cache: Cache)
    requires SizeBound(node).Some?
    ensures Eval(lib, node, email, cache) <==> Meets(SizeOf(email), SizeBound(node).value)
  {
  }

  lemma {:induction false} LastBoundStands(nodes: seq<ConditionNode>, upper: bool) returns (i: nat)
    requires LastBound(nodes, upper).Some?
    ensures i < |nodes| && SizeBound(nodes[i]) == LastBound(nodes, upper) && LastBound(nodes, upper).value.upper == upper
    decreases |nodes|
  {
    var last := SizeBound(nodes[|nodes| - 1]);
    if last.Some? && last.value.upper == upper {
      i := |nodes| - 1;
    } else {
      i := LastBoundStands(nodes[..|nodes| - 1], upper);
    }
  }

  /** A message that satisfies a conjunction meets its last bounds. */
  lemma ConjunctionMeetsBounds(lib: Libraries, children: seq<ConditionNode>, email: Email, cache: Cache, upper: bool)
    requires Eval(lib, And(children), email, cache) && LastBound(children, upper).Some?
    ensures Meets(SizeOf(email), LastBound(children, upper).value)
    ensures LastBound(children, upper).value.upper == upper
  {
    var i := LastBoundStands(children, upper);
    assert Eval(lib, children[i], email, cache);
    SizeBoundMeaning(lib, children[i], email, cache);
  }

  /** A conjunction that pass 5 rejects holds for no message when the bounds cross strictly or one of them is
      strict; when both allow the same number, only for messages of exactly that size. */
  lemma ContradictionSound(lib: Libraries, node: ConditionNode, email: Email, cache: Cache)
    requires Contradicts(node)
    ensures var lower, upper := LastBound(node.children, false).value, LastBound(node.children, true).value;
            && (lower.number > upper.number || lower.strict || upper.strict ==> !Eval(lib, node, email, cache))
            && (Eval(lib, node, email, cache) ==> SizeOf(email) == lower.number)
  {
    if Eval(lib, node, email, cache) {
      ConjunctionMeetsBounds(lib, node.children, email, cache, false);
      ConjunctionMeetsBounds(lib, node.children, email, cache, true);
    }
  }

  // ---------------------------------------------------------------- exactness on one pair of bounds

  ghost predicate Satisfiable(lib: Libraries, node: ConditionNode) {
    exists email :: EvalFresh(lib, node, email)
  }

  function Repeat(n: nat): string { if n == 0 then "" else "x" + Repeat(n - 1) }

  lemma {:induction false} RepeatLength(n: nat)
    ensures Text.Utf8Len(Repeat(n)) == n
  {
    if n == 0 {
    } else {
      RepeatLength(n - 1);
      assert ("x" + Repeat(n - 1))[1..] == Repeat(n - 1);
    }
  }

  /** There is a message of every size. */
  function MessageOfSize(n: nat): Email {
    Email("", "", "", "", "", "", Some(Repeat(n)), None, [], 0)
  }

  /** The smallest size a lower bound admits, and the largest an upper bound does. */
  function Smallest(b: Bound): int { if b.strict then b.number + 1 else b.number as int }

  function Largest(b: Bound): int { if b.strict then b.number - 1 else b.number as int }

  /** A lower and an upper bound, in either order. */
  function Pair(lower: ConditionNode, upper: ConditionNode, swapped: bool): seq<ConditionNode> {
    if swapped then [upper, lower] else [lower, upper]
  }

  lemma PairMeaning(lib: Libraries, lower: ConditionNode, upper: ConditionNode, swapped: bool, email: Email)
    requires SizeBound(lower).Some? && !SizeBound(lower).value.upper && SizeBound(upper).Some? && SizeBound(upper).value.upper
    ensures EvalFresh(lib, And(Pair(lower, upper, swapped)), email) <==>
            Smallest(SizeBound(lower).value) <= SizeOf(email) <= Largest(SizeBound(upper).value)
  {
    var children := Pair(lower, upper, swapped);
    assert children == [children[0], children[1]] && {children[0], children[1]} == {lower, upper};
    SizeBoundMeaning(lib, lower, email, []);
    SizeBoundMeaning(lib, upper, email, []);
    assert EvalFresh(lib, And(children), email) <==> Eval(lib, children[0], email, []) && Eval(lib, children[1], email, []);
  }

  lemma PairBounds(lower: ConditionNode, upper: ConditionNode, swapped: bool)
    requires SizeBound(lower).Some? && !SizeBound(lower).value.upper && SizeBound(upper).Some? && SizeBound(upper).value.upper
    ensures LastBound(Pair(lower, upper, swapped), true) == SizeBound(upper)
    ensures LastBound(Pair(lower, upper, swapped), false) == SizeBound(lower)
  {
    assert [lower, upper][..1] == [lower] && [upper, lower][..1] == [upper];
  }

  /** For one lower and one upper bound in either order: when the conjunction can hold at all, when pass 5
      rejects it, and the one family in which it rejects what can hold: both bounds allow the same
      non-negative size. */
  lemma PairOfBounds(lib: Libraries, lower: ConditionNode, upper: ConditionNode, swapped: bool)
    requires SizeBound(lower).Some? && !SizeBound(lower).value.upper && SizeBound(upper).Some? && SizeBound(upper).value.upper
    ensures var (node, l, h) := (And(Pair(lower, upper, swapped)), SizeBound(lower).value, SizeBound(upper).value);
            && (Satisfiable(lib, node) <==> Largest(h) >= 0 && Smallest(l) <= Largest(h))
            && (Contradicts(node) <==> l.number >= h.number)
            && (Contradicts(node) && Satisfiable(lib, node) <==> l.number == h.number && h.number >= 0 && !l.strict && !h.strict)
  {
    var (node, l, h) := (And(Pair(lower, upper, swapped)), SizeBound(lower).value, SizeBound(upper).value);
    PairBounds(lower, upper, swapped);
    hide EvalFresh, Pair, LastBound;
    if Satisfiable(lib, node) {
      var email :| EvalFresh(lib, node, email);
      PairMeaning(lib, lower, upper, swapped, email);
    }
    if Largest(h) >= 0 && Smallest(l) <= Largest(h) {
      var size := if Smallest(l) < 0 then 0 else Smallest(l);
      RepeatLength(size);
      PairMeaning(lib, lower, upper, swapped, MessageOfSize(size));
    }
  }

  // ---------------------------------------------------------------- exactness on any size conditions

  /** The conjunct compares the size with a number. */
  predicate OnSize(node: ConditionNode) { node.Leaf? && node.leaf.field == Size && node.leaf.value.Number? }

  /** Every conjunct compares the size with a number, by any operator: pass 1 leaves no other size conditions. */
  predicate SizesOnly(nodes: seq<ConditionNode>) { forall i | 0 <= i < |nodes| :: OnSize(nodes[i]) }

  /** Every size condition among the conjuncts is met. */
  predicate Admits(nodes: seq<ConditionNode>, size: int) {
    forall i | 0 <= i < |nodes| && OnSize(nodes[i]) :: EvalNumber(size, nodes[i].leaf.operator, nodes[i].leaf.value)
  }

  /** The smallest and the largest size a conjunct leaves; `size = n` leaves one. */
  function Floor(node: ConditionNode): Option<int>
    requires OnSize(node)
  {
    var n := node.leaf.value.number as int;
    match node.leaf.operator
    case Equals => Some(n)
    case GreaterThan => Some(n + 1)
    case GreaterThanOrEqual => Some(n)
    case _ => None
  }

  function Ceiling(node: ConditionNode): Option<int>
    requires OnSize(node)
  {
    var n := node.leaf.value.number as int;
    match node.leaf.operator
    case Equals => Some(n)
    case LessThan => Some(n - 1)
    case LessThanOrEqual => Some(n)
    case _ => None
  }

  /** The highest floor, never negative, and the lowest ceiling, if there is one. */
  function Lowest(nodes: seq<ConditionNode>): nat
    requires SizesOnly(nodes)
  {
    if nodes == [] then 0
    else
      var (rest, floor) := (Lowest(nodes[..|nodes| - 1]), Floor(nodes[|nodes| - 1]));
      if floor.Some? && floor.value > rest then floor.value else rest
  }

  function Highest(nodes: seq<ConditionNode>): Option<int>
    requires SizesOnly(nodes)
  {
    if nodes == [] then None
    else
      var (rest, ceiling) := (Highest(nodes[..|nodes| - 1]), Ceiling(nodes[|nodes| - 1]));
      if ceiling.Some? && (rest.None? || ceiling.value < rest.value) then ceiling else rest
  }

  /** The sizes ruled out one by one, by `size != n`. */
  function Excluded(nodes: seq<ConditionNode>): set<int>
    requires SizesOnly(nodes)
  {
    if nodes == [] then {}
    else
      var (rest, leaf) := (Excluded(nodes[..|nodes| - 1]), nodes[|nodes| - 1].leaf);
      if leaf.operator == NotEquals then rest + {leaf.value.number as int} else rest
  }

  /** No conjunct asks of a number what is asked of texts, such as CONTAINS: the engine answers that with false. */
  predicate AllComparable(nodes: seq<ConditionNode>)
    requires SizesOnly(nodes)
  {
    forall i | 0 <= i < |nodes| :: Comparable(nodes[i].leaf.operator)
  }

  predicate Within(size: int, nodes: seq<ConditionNode>)
    requires SizesOnly(nodes)
  {
    Lowest(nodes) <= size && (Highest(nodes).Some? ==> size <= Highest(nodes).value) && size !in Excluded(nodes)
  }

  lemma LastLeaves(node: ConditionNode, size: int)
    requires OnSize(node)
    ensures EvalNumber(size, node.leaf.operator, node.leaf.value) <==>
            && Comparable(node.leaf.operator)
            && (Floor(node).Some? ==> Floor(node).value <= size)
            && (Ceiling(node).Some? ==> size <= Ceiling(node).value)
            && (node.leaf.operator == NotEquals ==> size != node.leaf.value.number)
  {
  }

  /** A size meets all conditions exactly when they are comparisons and it lies between the highest floor and the
      lowest ceiling and is not one of those ruled out. */
  lemma {:induction false} AdmitsWithin(nodes: seq<ConditionNode>, size: nat)
    requires SizesOnly(nodes)
    ensures Admits(nodes, size) <==> AllComparable(nodes) && Within(size, nodes)
    decreases |nodes|
  {
    if nodes == [] {
    } else {
      var front, last := nodes[..|nodes| - 1], nodes[|nodes| - 1];
      AdmitsWithin(front, size);
      LastLeaves(last, size);
      hide EvalNumber, Comparable, Floor, Ceiling;
      assert nodes == front + [last];
      assert forall i | 0 <= i < |front| :: nodes[i] == front[i];
    }
  }

  lemma SizesMeaning(lib: Libraries, nodes: seq<ConditionNode>, email: Email)
    requires SizesOnly(nodes)
    ensures EvalFresh(lib, And(nodes), email) <==> Admits(nodes, SizeOf(email))
  {
    hide EvalNumber;
    assert forall i | 0 <= i < |nodes| ::
        Eval(lib, nodes[i], email, []) <==> EvalNumber(SizeOf(email), nodes[i].leaf.operator, nodes[i].leaf.value);
  }

  /** The first size from `from` on that is not ruled out. */
  function FirstFree(excluded: set<int>, from: nat): (size: nat)
    ensures from <= size && size !in excluded
    ensures forall k | from <= k < size :: k in excluded
    decreases |excluded|
  {
    if from in excluded then
      var size := FirstFree(excluded - {from}, from + 1);
      assert forall k | from < k < size :: k in excluded by {
        forall k | from < k < size ensures k in excluded { assert k in excluded - {from}; }
      }
      size
    else from
  }

  /** The least size the floors and the exclusions leave. */
  function Least(nodes: seq<ConditionNode>): nat
    requires SizesOnly(nodes)
  {
    FirstFree(Excluded(nodes), Lowest(nodes))
  }

  /** A conjunction of size conditions can hold exactly when all of them are comparisons and the least size the
      others leave is not above the lowest ceiling. */
  lemma SizesSatisfiable(lib: Libraries, nodes: seq<ConditionNode>)
    requires SizesOnly(nodes)
    ensures Satisfiable(lib, And(nodes)) <==>
            AllComparable(nodes) && (Highest(nodes).Some? ==> Least(nodes) <= Highest(nodes).value)
  {
    hide EvalFresh, Admits, SizesOnly, AllComparable, Lowest, Highest, Excluded;
    if Satisfiable(lib, And(nodes)) {
      var email :| EvalFresh(lib, And(nodes), email);
      SizesMeaning(lib, nodes, email);
      AdmitsWithin(nodes, SizeOf(email));
    }
    if AllComparable(nodes) && (Highest(nodes).Some? ==> Least(nodes) <= Highest(nodes).value) {
      RepeatLength(Least(nodes));
      AdmitsWithin(nodes, Least(nodes));
      SizesMeaning(lib, nodes, MessageOfSize(Least(nodes)));
    }
  }

  /** The last bounds of both kinds allow one and the same size, and no other. */
  predicate LastBoundsMeet(nodes: seq<ConditionNode>) {
    var (lower, upper) := (LastBound(nodes, false), LastBound(nodes, true));
    && lower.Some? && upper.Some? && lower.value.number == upper.value.number >= 0
    && !lower.value.strict && !upper.value.strict
  }

  /** For any number of size conditions in any order: exactly when pass 5 rejects a conjunction that can hold. The
      last bounds allow one size, and every other condition admits it. */
  lemma RejectedThoughPossible(lib: Libraries, nodes: seq<ConditionNode>)
    requires SizesOnly(nodes)
    ensures Contradicts(And(nodes)) && Satisfiable(lib, And(nodes)) <==>
            LastBoundsMeet(nodes) && Admits(nodes, LastBound(nodes, false).value.number)
  {
    hide EvalFresh, Admits, SizesOnly, LastBound;
    if Contradicts(And(nodes)) && Satisfiable(lib, And(nodes)) {
      var email :| EvalFresh(lib, And(nodes), email);
      SoundOnFresh(lib, nodes, email);
      SizesMeaning(lib, nodes, email);
    }
    if LastBoundsMeet(nodes) && Admits(nodes, LastBound(nodes, false).value.number) {
      var n := LastBound(nodes, false).value.number;
      RepeatLength(n);
      SizesMeaning(lib, nodes, MessageOfSize(n));
    }
  }

  lemma SoundOnFresh(lib: Libraries, nodes: seq<ConditionNode>, email: Email)
    requires Contradicts(And(nodes)) && EvalFresh(lib, And(nodes), email)
    ensures LastBoundsMeet(nodes) && SizeOf(email) == LastBound(nodes, false).value.number
  {
    ContradictionSound(lib, And(nodes), email, []);
  }

  /** And exactly when pass 5 accepts a conjunction that cannot hold: a condition is no comparison, or the least
      size left lies above the lowest ceiling, while the last bounds, if both kinds occur, do not cross. */
  lemma AcceptedThoughImpossible(lib: Libraries, nodes: seq<ConditionNode>)
    requires SizesOnly(nodes)
    ensures !Contradicts(And(nodes)) && !Satisfiable(lib, And(nodes)) <==>
            && (AllComparable(nodes) ==> Highest(nodes).Some? && Least(nodes) > Highest(nodes).value)
            && (LastBound(nodes, false).Some? && LastBound(nodes, true).Some? ==>
                  LastBound(nodes, false).value.number < LastBound(nodes, true).value.number)
  {
    hide Lowest, Highest, Excluded, SizesOnly, AllComparable, LastBound;
    SizesSatisfiable(lib, nodes);
  }

  function SizeLeaf(operator: FilterOperator, n: i64): ConditionNode { Leaf(ConditionLeaf(Size, operator, Number(n))) }

  /** An overwritten bound: `size > 10 AND size > 1 AND size < 5` is accepted and holds for no message. */
  lemma OverwrittenBound(lib: Libraries)
    ensures var node := And([SizeLeaf(GreaterThan, 10), SizeLeaf(GreaterThan, 1), SizeLeaf(LessThan, 5)]);
            !Contradicts(node) && !Satisfiable(lib, node)
  {
    var a, b, c := SizeLeaf(GreaterThan, 10), SizeLeaf(GreaterThan, 1), SizeLeaf(LessThan, 5);
    var nodes := [a, b, c];
    assert nodes[..2] == [a, b] && [a, b][..1] == [a] && [a][..0] == [];
    assert LastBound(nodes, true) == Some(Bound(5, true, true));
    assert LastBound(nodes, false) == LastBound([a, b], false) == Some(Bound(1, false, true));
    assert forall email :: EvalFresh(lib, And(nodes), email) ==> Eval(lib, nodes[0], email, []) && Eval(lib, nodes[2], email, []);
  }

  /** An exact size is no bound to pass 5: `size = 5 AND size > 10` is accepted and holds for no message. */
  lemma FixedSizeOverlooked(lib: Libraries)
    ensures var node := And([SizeLeaf(Equals, 5), SizeLeaf(GreaterThan, 10)]);
            !Contradicts(node) && !Satisfiable(lib, node)
  {
    var nodes := [SizeLeaf(Equals, 5), SizeLeaf(GreaterThan, 10)];
    assert nodes[..1] == [SizeLeaf(Equals, 5)] && [SizeLeaf(Equals, 5)][..0] == [];
    assert LastBound(nodes, true) == None;
    assert forall email :: EvalFresh(lib, And(nodes), email) ==> Eval(lib, nodes[0], email, []) && Eval(lib, nodes[1], email, []);
  }
}
