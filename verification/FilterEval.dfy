/** Evaluating conditions on messages, and the cache of compiled patterns. */
module FilterEval {
  import opened Wrappers
  import Text
  import opened NsqlAst

  datatype Email = Email(
    id: string,
    accountId: string,
    folderId: string,
    subject: string,
    sender: string,
    recipient: string,
    bodyPlain: Option<string>,
    bodyHtml: Option<string>,
    attachments: seq<string>,
    receivedAt: i64
  )

  /** A compiled pattern, known by the texts it matches. */
  datatype Regex = Regex(isMatch: string -> bool)

  /** The libraries the engine calls: text case tables and the compiler of patterns. */
  datatype Libraries = Libraries(unicode: Text.Unicode, compile: string -> Option<Regex>)

  type Cache = seq<(string, Regex)>

  // ---------------------------------------------------------------- evaluation

  /** `str::contains`. */
  predicate HasSubstring(s: string, part: string) {
    part <= s || (s != "" && HasSubstring(s[1..], part))
  }

  function BodyText(email: Email): string {
    match email.bodyPlain
    case Some(text) => text
    case None => match email.bodyHtml case Some(html) => html case None => ""
  }

  /** The size of a message is that of its plain text, in bytes. */
  function SizeOf(email: Email): nat {
    match email.bodyPlain case Some(text) => Text.Utf8Len(text) case None => 0
  }

  /** The first cached entry for the pattern. */
  function Lookup(cache: Cache, pattern: string): Option<Regex> {
    if cache == [] then None else if cache[0].0 == pattern then Some(cache[0].1) else Lookup(cache[1..], pattern)
  }

  predicate EvalInSet(haystack: string, value: FilterValue) {
    value.List? && exists i :: 0 <= i < |value.items| && Text.SameIgnoreCase(haystack, value.items[i])
  }

  predicate EvalPattern(lib: Libraries, haystack: string, pattern: string, cache: Cache) {
    match Lookup(cache, pattern)
    case Some(regex) => regex.isMatch(haystack)
    case None => match lib.compile(pattern) case Some(regex) => regex.isMatch(haystack) case None => false
  }

  predicate EvalString(lib: Libraries, haystack: string, operator: FilterOperator, value: FilterValue, cache: Cache) {
    match operator
    case Equals => value.String? && Text.SameIgnoreCase(haystack, value.text)
    case NotEquals => value.String? && !Text.SameIgnoreCase(haystack, value.text)
    case Contains => value.String? && HasSubstring(lib.unicode.lower(haystack), lib.unicode.lower(value.text))
    case NotContains => value.String? && !HasSubstring(lib.unicode.lower(haystack), lib.unicode.lower(value.text))
    case Matches => value.String? && EvalPattern(lib, haystack, value.text, cache)
    case In => EvalInSet(haystack, value)
    case NotIn => !EvalInSet(haystack, value)
    case _ => false
  }

  predicate EvalNumber(actual: int, operator: FilterOperator, value: FilterValue) {
    value.Number? &&
    match operator
    case Equals => actual == value.number
    case NotEquals => actual != value.number
    case GreaterThan => actual > value.number
    case LessThan => actual < value.number
    case GreaterThanOrEqual => actual >= value.number
    case LessThanOrEqual => actual <= value.number
    case _ => false
  }

  predicate EvalLeaf(lib: Libraries, leaf: ConditionLeaf, email: Email, cache: Cache) {
    match leaf.field
    case Subject => EvalString(lib, email.subject, leaf.operator, leaf.value, cache)
    case From => EvalString(lib, email.sender, leaf.operator, leaf.value, cache)
    case To => EvalString(lib, email.recipient, leaf.operator, leaf.value, cache)
    case Body => EvalString(lib, BodyText(email), leaf.operator, leaf.value, cache)
    case Folder => EvalString(lib, email.folderId, leaf.operator, leaf.value, cache)
    case Account => EvalString(lib, email.accountId, leaf.operator, leaf.value, cache)
    case HasAttachment =>
      && leaf.value.Boolean?
      && (if leaf.operator == Equals then (email.attachments != []) == leaf.value.flag else (email.attachments != []) != leaf.value.flag)
    case Size => EvalNumber(SizeOf(email), leaf.operator, leaf.value)
    case Date => EvalNumber(email.receivedAt, leaf.operator, leaf.value)
    case Header(_) => false
  }

  /** `eval_node`. */
  predicate Eval(lib: Libraries, node: ConditionNode, email: Email, cache: Cache)
    decreases node
  {
    match node
    case Leaf(leaf) => EvalLeaf(lib, leaf, email, cache)
    case And(children) => forall i | 0 <= i < |children| :: Eval(lib, children[i], email, cache)
    case Or(children) => exists i | 0 <= i < |children| :: Eval(lib, children[i], email, cache)
    case Not(inner) => !Eval(lib, inner, email, cache)
  }

  /** Evaluation that compiles every pattern where it stands: with nothing cached, every lookup misses. */
  predicate EvalFresh(lib: Libraries, node: ConditionNode, email: Email) { Eval(lib, node, email, []) }

  /** The operator that denies another, where there is one. */
  function Opposite(operator: FilterOperator): Option<FilterOperator> {
    match operator
    case Equals => Some(NotEquals)
    case NotEquals => Some(Equals)
    case Contains => Some(NotContains)
    case NotContains => Some(Contains)
    case GreaterThan => Some(LessThanOrEqual)
    case LessThanOrEqual => Some(GreaterThan)
    case LessThan => Some(GreaterThanOrEqual)
    case GreaterThanOrEqual => Some(LessThan)
    case In => Some(NotIn)
    case NotIn => Some(In)
    case Matches => None
  }

  /** The operator decides the value: sizes and dates are compared with numbers, texts with a string, or
      looked up in anything at all. */
  predicate Decides(leaf: ConditionLeaf) {
    match leaf.field
    case Size => leaf.value.Number? && Comparable(leaf.operator)
    case Date => leaf.value.Number? && Comparable(leaf.operator)
    case HasAttachment => leaf.value.Boolean? && (leaf.operator == Equals || leaf.operator == NotEquals)
    case Header(_) => false
    case _ =>
      || leaf.operator == In || leaf.operator == NotIn
      || (leaf.value.String? && (leaf.operator == Equals || leaf.operator == NotEquals || leaf.operator == Contains || leaf.operator == NotContains))
  }

  predicate Comparable(operator: FilterOperator) {
    operator != Contains && operator != NotContains && operator != Matches && operator != In && operator != NotIn
  }

  /** Where the operator decides, the opposite operator says the opposite: NOT IN is the exact complement of
      IN, for a list or any other value, and on text, number and flag fields the other pairs are too. */
  lemma OppositeOperator(lib: Libraries, leaf: ConditionLeaf, email: Email, cache: Cache)
    requires Decides(leaf)
    ensures Opposite(leaf.operator).Some?
    ensures EvalLeaf(lib, leaf.(operator := Opposite(leaf.operator).value), email, cache) == !EvalLeaf(lib, leaf, email, cache)
  {
    hide Text.SameIgnoreCase, HasSubstring, EvalInSet, EvalPattern;
  }

  // ---------------------------------------------------------------- the patterns of a tree

  function LeafPatterns(leaf: ConditionLeaf): seq<string> {
    if leaf.operator == Matches && leaf.value.String? then [leaf.value.text] else []
  }

  /** The MATCHES patterns in the order the tree is walked. */
  function Patterns(node: ConditionNode): seq<string>
    decreases node
  {
    match node
    case Leaf(leaf) => LeafPatterns(leaf)
    case And(children) => PatternsOf(children)
    case Or(children) => PatternsOf(children)
    case Not(inner) => Patterns(inner)
  }

  function PatternsOf(nodes: seq<ConditionNode>): seq<string>
    decreases nodes
  {
    if nodes == [] then [] else PatternsOf(nodes[..|nodes| - 1]) + Patterns(nodes[|nodes| - 1])
  }

  predicate AllCompile(lib: Libraries, patterns: seq<string>) {
    forall p | p in patterns :: lib.compile(p).Some?
  }

  function CacheOf(lib: Libraries, patterns: seq<string>): (cache: Cache)
    requires AllCompile(lib, patterns)
    ensures |cache| == |patterns|
  {
    seq(|patterns|, i requires 0 <= i < |patterns| => (patterns[i], lib.compile(patterns[i]).value))
  }

  lemma CacheOfConcat(lib: Libraries, a: seq<string>, b: seq<string>)
    ensures AllCompile(lib, a + b) <==> AllCompile(lib, a) && AllCompile(lib, b)
    ensures AllCompile(lib, a + b) ==> CacheOf(lib, a + b) == CacheOf(lib, a) + CacheOf(lib, b)
  {
    assert forall p | p in a :: p in a + b;
    assert forall p | p in b :: p in a + b;
  }

  lemma {:induction false} PatternsOfPrefix(nodes: seq<ConditionNode>, k: nat)
    requires k <= |nodes|
    ensures PatternsOf(nodes[..k]) <= PatternsOf(nodes)
    decreases |nodes|
  {
    if k == |nodes| {
      assert nodes[..k] == nodes;
    } else {
      assert nodes[..|nodes| - 1][..k] == nodes[..k];
      PatternsOfPrefix(nodes[..|nodes| - 1], k);
    }
  }

  /** `collect_regexes`: succeeds exactly when every pattern of the tree compiles, and then has appended
      each with its compiled form, in order. */
  method CollectRegexes(lib: Libraries, node: ConditionNode, acc: Cache) returns (r: Result<Cache, string>)
    ensures r.Ok? <==> AllCompile(lib, Patterns(node))
    ensures r.Ok? ==> r.value == acc + CacheOf(lib, Patterns(node))
    decreases node, 1
  {
    match node {
      case Leaf(leaf) =>
        if leaf.operator == Matches && leaf.value.String? {
          var regex := lib.compile(leaf.value.text);
          if regex.None? {
            assert leaf.value.text in Patterns(node);
            return Err("regex compile error");
          }
          assert Patterns(node) == [leaf.value.text];
          return Ok(acc + [(leaf.value.text, regex.value)]);
        }
        r := Ok(acc);
        assert Patterns(node) == [];
      case And(children) => r := CollectFromChildren(lib, children, acc);
      case Or(children) => r := CollectFromChildren(lib, children, acc);
      case Not(inner) => r := CollectRegexes(lib, inner, acc);
    }
  }

  method CollectFromChildren(lib: Libraries, children: seq<ConditionNode>, acc: Cache) returns (r: Result<Cache, string>)
    ensures r.Ok? <==> AllCompile(lib, PatternsOf(children))
    ensures r.Ok? ==> r.value == acc + CacheOf(lib, PatternsOf(children))
    decreases children, 0
  {
    var collected := acc;
    for i := 0 to |children|
      invariant AllCompile(lib, PatternsOf(children[..i]))
      invariant collected == acc + CacheOf(lib, PatternsOf(children[..i]))
    {
      assert children[..i + 1][..i] == children[..i];
      CacheOfConcat(lib, PatternsOf(children[..i]), Patterns(children[i]));
      var next := CollectRegexes(lib, children[i], collected);
      if next.Err? {
        PatternsOfPrefix(children, i + 1);
        assert forall p | p in PatternsOf(children[..i + 1]) :: p in PatternsOf(children);
        return Err(next.error);
      }
      collected := next.value;
    }
    assert children[..|children|] == children;
    r := Ok(collected);
  }

  // ---------------------------------------------------------------- the cache agrees with fresh compilation

  /** Every pattern of the tree is found in the cache, and as it compiles. */
  ghost predicate CoversAll(lib: Libraries, patterns: seq<string>, cache: Cache) {
    forall p | p in patterns :: Lookup(cache, p) == lib.compile(p) && lib.compile(p).Some?
  }

  lemma {:induction false} LookupInCache(lib: Libraries, patterns: seq<string>, p: string)
    requires AllCompile(lib, patterns) && p in patterns
    ensures Lookup(CacheOf(lib, patterns), p) == lib.compile(p)
    decreases |patterns|
  {
    var cache := CacheOf(lib, patterns);
    if patterns[0] == p {
    } else {
      var rest := patterns[1..];
      assert patterns == [patterns[0]] + rest;
      assert cache[1..] == CacheOf(lib, rest);
      LookupInCache(lib, rest, p);
    }
  }

  /** The collected cache covers the tree, so the fallback of the evaluator is never taken. */
  lemma CollectedCacheCovers(lib: Libraries, patterns: seq<string>)
    requires AllCompile(lib, patterns)
    ensures CoversAll(lib, patterns, CacheOf(lib, patterns))
  {
    forall p | p in patterns
      ensures Lookup(CacheOf(lib, patterns), p) == lib.compile(p)
    {
      LookupInCache(lib, patterns, p);
    }
  }

  lemma {:induction false} ChildPatterns(nodes: seq<ConditionNode>, i: nat)
    requires i < |nodes|
    ensures forall p | p in Patterns(nodes[i]) :: p in PatternsOf(nodes)
    decreases |nodes|
  {
    if i == |nodes| - 1 {
    } else {
      ChildPatterns(nodes[..|nodes| - 1], i);
    }
  }

  /** Under a cache that covers the tree, evaluation is that of freshly compiled patterns. */
  lemma {:induction false} CoveringCacheAgrees(lib: Libraries, node: ConditionNode, email: Email, cache: Cache)
    requires CoversAll(lib, Patterns(node), cache)
    ensures Eval(lib, node, email, cache) == EvalFresh(lib, node, email)
    decreases node
  {
    match node {
      case Leaf(leaf) => LeafAgrees(lib, leaf, email, cache);
      case And(children) => ChildrenAgree(lib, children, email, cache);
      case Or(children) => ChildrenAgree(lib, children, email, cache);
      case Not(inner) => CoveringCacheAgrees(lib, inner, email, cache);
    }
  }

  lemma LeafAgrees(lib: Libraries, leaf: ConditionLeaf, email: Email, cache: Cache)
    requires CoversAll(lib, LeafPatterns(leaf), cache)
    ensures EvalLeaf(lib, leaf, email, cache) == EvalLeaf(lib, leaf, email, [])
  {
    hide Text.SameIgnoreCase, HasSubstring, EvalInSet;
    if leaf.operator == Matches && leaf.value.String? {
      assert leaf.value.text in LeafPatterns(leaf);
      assert Lookup([], leaf.value.text) == None;
    }
  }

  lemma {:induction false} ChildrenAgree(lib: Libraries, nodes: seq<ConditionNode>, email: Email, cache: Cache)
    requires CoversAll(lib, PatternsOf(nodes), cache)
    ensures forall i | 0 <= i < |nodes| :: Eval(lib, nodes[i], email, cache) == Eval(lib, nodes[i], email, [])
    decreases nodes
  {
    forall i | 0 <= i < |nodes|
      ensures Eval(lib, nodes[i], email, cache) == Eval(lib, nodes[i], email, [])
    {
      ChildPatterns(nodes, i);
      CoveringCacheAgrees(lib, nodes[i], email, cache);
    }
  }

  // ---------------------------------------------------------------- compiled filters

  datatype CompiledFilter = CompiledFilter(rule: FilterRule, compiledRegexes: Cache)

  predicate Compiles(lib: Libraries, rule: FilterRule) { AllCompile(lib, Patterns(rule.conditions)) }

  function Compiled(lib: Libraries, rule: FilterRule): CompiledFilter
    requires Compiles(lib, rule)
  {
    CompiledFilter(rule, CacheOf(lib, Patterns(rule.conditions)))
  }

  /** `CompiledFilter::compile`. */
  method Compile(lib: Libraries, rule: FilterRule) returns (r: Result<CompiledFilter, string>)
    ensures r.Ok? <==> Compiles(lib, rule)
    ensures r.Ok? ==> r.value == Compiled(lib, rule)
  {
    var regexes := CollectRegexes(lib, rule.conditions, []);
    if regexes.Err? {
      return Err(regexes.error);
    }
    assert [] + CacheOf(lib, Patterns(rule.conditions)) == CacheOf(lib, Patterns(rule.conditions));
    r := Ok(CompiledFilter(rule, regexes.value));
  }

  /** `evaluate_condition`. */
  predicate EvaluateCondition(lib: Libraries, filter: CompiledFilter, email: Email) {
    Eval(lib, filter.rule.conditions, email, filter.compiledRegexes)
  }

  /** A compiled filter decides every message as its conditions do with every pattern compiled afresh. */
  lemma CompiledAgreesWithFresh(lib: Libraries, rule: FilterRule, email: Email)
    requires Compiles(lib, rule)
    ensures EvaluateCondition(lib, Compiled(lib, rule), email) == EvalFresh(lib, rule.conditions, email)
    ensures CoversAll(lib, Patterns(rule.conditions), Compiled(lib, rule).compiledRegexes)
  {
    CollectedCacheCovers(lib, Patterns(rule.conditions));
    CoveringCacheAgrees(lib, rule.conditions, email, CacheOf(lib, Patterns(rule.conditions)));
  }
}
