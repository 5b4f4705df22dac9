/** Priority order, the active filter set, and the engine over it. */
module FilterEngine {
  import opened Wrappers
  import Text
  import opened NsqlAst
  import opened FilterEval
  import opened FilterSemantics

  // ---------------------------------------------------------------- account scope

  /** `replace(['*', '%'], ".*")`. */
  function Wildcards(s: string): string {
    if s == "" then "" else (if s[0] == '*' || s[0] == '%' then ".*" else [s[0]]) + Wildcards(s[1..])
  }

  /** `matches_account`. */
  predicate MatchesAccount(lib: Libraries, rule: FilterRule, account: string) {
    var target := rule.targetAccount;
    || target == "*" || target == "%" || target == ""
    || Text.SameIgnoreCase(target, account)
    || (HasWildcard(target) &&
        match lib.compile("(?i)^" + Wildcards(target) + "$")
        case Some(regex) => regex.isMatch(account)
        case None => false)
  }

  predicate HasWildcard(target: string) { '*' in target || '%' in target }

  lemma {:induction false} WildcardParts(target: string) returns (parts: seq<string>)
    ensures IsGlob(target, Wildcards(target), parts)
  {
    if target == "" {
      parts := [];
    } else {
      var rest := WildcardParts(target[1..]);
      var first := if target[0] == '*' || target[0] == '%' then ".*" else [target[0]];
      parts := [first] + rest;
      assert parts[1..] == rest && first + "" == first;
      assert forall i | 0 < i < |target| :: target[i] == target[1..][i - 1];
    }
  }

  lemma {:induction false} GlobIsOne(target: string, glob: string, parts: seq<string>)
    requires IsGlob(target, glob, parts)
    ensures glob == Wildcards(target)
  {
    if target == "" {
    } else {
      assert forall i | 0 < i < |target| :: target[i] == target[1..][i - 1];
      GlobIsOne(target[1..], Text.Join(parts[1..], ""), parts[1..]);
      assert parts[0] + "" == parts[0];
      assert |parts| == 1 ==> parts[1..] == [] && parts[0] + "" == parts[0];
    }
  }

  /** The scope check asks for the accounts the target stands for. */
  lemma ScopeMeaning(lib: Libraries, rule: FilterRule, account: string)
    ensures MatchesAccount(lib, rule, account) <==> InScope(lib, rule.targetAccount, account)
  {
    var t := rule.targetAccount;
    Text.LettersIgnoreCase(t, account);
    var parts := WildcardParts(t);
    forall glob, ps | IsGlob(t, glob, ps)
      ensures glob == Wildcards(t)
    {
      GlobIsOne(t, glob, ps);
    }
    hide Wildcards, IsGlob, Text.SameLetters, Text.SameIgnoreCase;
  }

  // ---------------------------------------------------------------- stable priority order

  /** Smaller priority first; equal priorities in input order. */
  predicate Precedes(rules: seq<FilterRule>, a: nat, b: nat)
    requires a < |rules| && b < |rules|
  {
    rules[a].priority < rules[b].priority || (rules[a].priority == rules[b].priority && a < b)
  }

  /** Positions of rules, each at most once, in stable priority order. */
  predicate InOrder(rules: seq<FilterRule>, order: seq<nat>) {
    && (forall i | 0 <= i < |order| :: order[i] < |rules|)
    && (forall i, j | 0 <= i < j < |order| :: Precedes(rules, order[i], order[j]))
  }

  function Insert(rules: seq<FilterRule>, order: seq<nat>, k: nat): seq<nat>
    requires k < |rules| && InOrder(rules, order)
  {
    if order == [] || Precedes(rules, order[|order| - 1], k) then order + [k]
    else Insert(rules, order[..|order| - 1], k) + [order[|order| - 1]]
  }

  /** The first `n` rules in the order of the library's stable sort. */
  function SortedPrefix(rules: seq<FilterRule>, n: nat): (order: seq<nat>)
    requires n <= |rules|
    ensures InOrder(rules, order) && forall i :: i in order <==> 0 <= i < n
  {
    if n == 0 then []
    else
      InsertKeepsOrder(rules, SortedPrefix(rules, n - 1), n - 1);
      Insert(rules, SortedPrefix(rules, n - 1), n - 1)
  }

  lemma {:induction false} InsertKeepsOrder(rules: seq<FilterRule>, order: seq<nat>, k: nat)
    requires k < |rules| && InOrder(rules, order) && k !in order
    ensures InOrder(rules, Insert(rules, order, k))
    ensures forall i :: i in Insert(rules, order, k) <==> i in order || i == k
    decreases |order|
  {
    if order != [] && !Precedes(rules, order[|order| - 1], k) {
      var front, last := order[..|order| - 1], order[|order| - 1];
      assert order == front + [last];
      InsertKeepsOrder(rules, front, k);
      forall i | i in Insert(rules, front, k)
        ensures i < |rules| && Precedes(rules, i, last)
      {
        if i in front { BeforeLast(rules, order, i); }
      }
      AppendKeepsOrder(rules, Insert(rules, front, k), last);
    } else {
      forall i | i in order
        ensures Precedes(rules, i, k)
      {
        if i != order[|order| - 1] {
          assert order == order[..|order| - 1] + [order[|order| - 1]];
          BeforeLast(rules, order, i);
        }
      }
      AppendKeepsOrder(rules, order, k);
    }
  }

  lemma BeforeLast(rules: seq<FilterRule>, order: seq<nat>, i: nat)
    requires InOrder(rules, order) && order != [] && i in order[..|order| - 1]
    ensures i < |rules| && Precedes(rules, i, order[|order| - 1])
  {
    var front := order[..|order| - 1];
    var j :| 0 <= j < |front| && front[j] == i;
    assert order[j] == i;
  }

  lemma AppendKeepsOrder(rules: seq<FilterRule>, order: seq<nat>, k: nat)
    requires k < |rules| && InOrder(rules, order)
    requires forall i | i in order :: i < |rules| && Precedes(rules, i, k)
    ensures InOrder(rules, order + [k])
  {
    assert forall i | 0 <= i < |order| :: order[i] in order;
  }

  /** `sort_by_key` on the priority, as positions. */
  function SortOrder(rules: seq<FilterRule>): (order: seq<nat>)
    ensures InOrder(rules, order) && forall i :: i in order <==> 0 <= i < |rules|
  {
    SortedPrefix(rules, |rules|)
  }

  // ---------------------------------------------------------------- selecting positions

  function Select(order: seq<nat>, keep: nat -> bool): (s: seq<nat>)
    ensures |s| <= |order|
  {
    if order == [] then []
    else
      var front := Select(order[..|order| - 1], keep);
      if keep(order[|order| - 1]) then front + [order[|order| - 1]] else front
  }

  lemma {:induction false} SelectKeepsOrder(rules: seq<FilterRule>, order: seq<nat>, keep: nat -> bool)
    requires InOrder(rules, order)
    ensures InOrder(rules, Select(order, keep))
    ensures forall i :: i in Select(order, keep) <==> i in order && keep(i)
    decreases |order|
  {
    if order == [] {
    } else {
      var front, last := order[..|order| - 1], order[|order| - 1];
      assert order == front + [last];
      SelectKeepsOrder(rules, front, keep);
      forall i | i in Select(front, keep)
        ensures i < |rules| && Precedes(rules, i, last)
      {
        BeforeLast(rules, order, i);
      }
      AppendKeepsOrder(rules, Select(front, keep), last);
    }
  }

  lemma FirstIsLeast(rules: seq<FilterRule>, order: seq<nat>, i: nat)
    requires InOrder(rules, order) && i in order
    ensures i < |rules| && (i == order[0] || Precedes(rules, order[0], i))
  {
    var k :| 0 <= k < |order| && order[k] == i;
  }

  lemma TailMembers(rules: seq<FilterRule>, order: seq<nat>, i: nat)
    requires InOrder(rules, order) && order != []
    ensures i in order[1..] <==> i in order && i != order[0]
  {
    assert order == [order[0]] + order[1..];
    if i in order[1..] {
      var k :| 0 <= k < |order[1..]| && order[1..][k] == i;
      assert Precedes(rules, order[0], order[k + 1]);
    }
  }

  /** The same positions in stable order are the same list. */
  lemma {:induction false} OrderIsUnique(rules: seq<FilterRule>, a: seq<nat>, b: seq<nat>)
    requires InOrder(rules, a) && InOrder(rules, b) && forall i :: i in a <==> i in b
    ensures a == b
    decreases |a|
  {
    assert a != [] ==> a[0] in b;
    assert b != [] ==> b[0] in a;
    if a == [] {
    } else {
      FirstIsLeast(rules, a, b[0]);
      FirstIsLeast(rules, b, a[0]);
      forall i
        ensures i in a[1..] <==> i in b[1..]
      {
        TailMembers(rules, a, i);
        TailMembers(rules, b, i);
      }
      OrderIsUnique(rules, a[1..], b[1..]);
      assert a == [a[0]] + a[1..] && b == [b[0]] + b[1..];
    }
  }

  lemma SelectStep(rules: seq<FilterRule>, order: seq<nat>, keep: nat -> bool, k: nat)
    requires InOrder(rules, order) && k < |order|
    ensures Select(order[..k + 1], keep) == if keep(order[k]) then Select(order[..k], keep) + [order[k]] else Select(order[..k], keep)
    ensures InOrder(rules, Select(order[..k + 1], keep)) && InOrder(rules, Select(order[..k], keep))
  {
    assert order[..k + 1][..k] == order[..k];
    SelectKeepsOrder(rules, order[..k + 1], keep);
    SelectKeepsOrder(rules, order[..k], keep);
  }

  // ---------------------------------------------------------------- the active set

  function EnabledAt(rules: seq<FilterRule>): nat -> bool {
    (i: nat) => i < |rules| && rules[i].enabled
  }

  /** Positions of the enabled rules in stable priority order. */
  function ActiveOrder(rules: seq<FilterRule>): (order: seq<nat>)
    ensures InOrder(rules, order)
    ensures forall i :: i in order <==> 0 <= i < |rules| && rules[i].enabled
  {
    SelectKeepsOrder(rules, SortOrder(rules), EnabledAt(rules));
    Select(SortOrder(rules), EnabledAt(rules))
  }

  predicate AllEnabledCompile(lib: Libraries, rules: seq<FilterRule>) {
    forall i | 0 <= i < |rules| && rules[i].enabled :: Compiles(lib, rules[i])
  }

  function CompiledAt(lib: Libraries, rules: seq<FilterRule>, order: seq<nat>): (filters: seq<CompiledFilter>)
    requires forall i | 0 <= i < |order| :: order[i] < |rules| && Compiles(lib, rules[order[i]])
    ensures |filters| == |order|
  {
    seq(|order|, i requires 0 <= i < |order| => Compiled(lib, rules[order[i]]))
  }

  /** The filters of the active set. */
  function ActiveSet(lib: Libraries, rules: seq<FilterRule>): seq<CompiledFilter>
    requires AllEnabledCompile(lib, rules)
  {
    assert forall i | 0 <= i < |ActiveOrder(rules)| :: ActiveOrder(rules)[i] in ActiveOrder(rules);
    CompiledAt(lib, rules, ActiveOrder(rules))
  }

  /** `CompiledFilterSet::new`: fails exactly when some enabled rule does not compile; disabled rules are
      neither compiled nor kept. */
  method NewFilterSet(lib: Libraries, rules: seq<FilterRule>) returns (r: Result<seq<CompiledFilter>, string>)
    ensures r.Ok? <==> AllEnabledCompile(lib, rules)
    ensures r.Ok? ==> r.value == ActiveSet(lib, rules)
  {
    hide Compiles, Compiled, SortOrder, Select;
    var order := SortOrder(rules);
    var filters := [];
    SelectNothing(EnabledAt(rules));
    for k := 0 to |order|
      invariant forall i | 0 <= i < k :: order[i] < |rules| && (rules[order[i]].enabled ==> Compiles(lib, rules[order[i]]))
      invariant forall i | 0 <= i < |Select(order[..k], EnabledAt(rules))| ::
                  Select(order[..k], EnabledAt(rules))[i] < |rules| && Compiles(lib, rules[Select(order[..k], EnabledAt(rules))[i]])
      invariant filters == CompiledAt(lib, rules, Select(order[..k], EnabledAt(rules)))
    {
      assert order[k] in order;
      SelectStep(rules, order, EnabledAt(rules), k);
      var rule := rules[order[k]];
      if rule.enabled {
        var filter := Compile(lib, rule);
        if filter.Err? {
          return Err(filter.error);
        }
        filters := filters + [filter.value];
      }
    }
    assert order[..|order|] == order;
    EachCompiles(lib, rules, order);
    r := Ok(filters);
  }

  lemma EachCompiles(lib: Libraries, rules: seq<FilterRule>, order: seq<nat>)
    requires order == SortOrder(rules)
    requires forall i | 0 <= i < |order| :: order[i] < |rules| && (rules[order[i]].enabled ==> Compiles(lib, rules[order[i]]))
    ensures AllEnabledCompile(lib, rules)
  {
    hide Compiles;
    forall i | 0 <= i < |rules| && rules[i].enabled
      ensures Compiles(lib, rules[i])
    {
      assert i in order;
    }
  }

  // ---------------------------------------------------------------- evaluation

  /** The rule is enabled, in scope for the account, and its conditions hold, every pattern compiled afresh. */
  predicate Fires(lib: Libraries, rule: FilterRule, email: Email) {
    rule.enabled && MatchesAccount(lib, rule, email.accountId) && EvalFresh(lib, rule.conditions, email)
  }

  function FiresAt(lib: Libraries, rules: seq<FilterRule>, email: Email): nat -> bool {
    (i: nat) => i < |rules| && Fires(lib, rules[i], email)
  }

  /** Positions of the rules that fire, in stable priority order. */
  function FiringOrder(lib: Libraries, rules: seq<FilterRule>, email: Email): (order: seq<nat>)
    ensures InOrder(rules, order)
    ensures forall i :: i in order <==> 0 <= i < |rules| && Fires(lib, rules[i], email)
  {
    SelectKeepsOrder(rules, ActiveOrder(rules), FiresAt(lib, rules, email));
    Select(ActiveOrder(rules), FiresAt(lib, rules, email))
  }

  type Outcome = (FilterRule, seq<RuleAction>)

  function OutcomesAt(rules: seq<FilterRule>, order: seq<nat>): (outcomes: seq<Outcome>)
    requires forall i | 0 <= i < |order| :: order[i] < |rules|
    ensures |outcomes| == |order|
  {
    seq(|order|, i requires 0 <= i < |order| => (rules[order[i]], rules[order[i]].actions))
  }

  /** The positions in the order of priority, equal priorities in input order. */
  predicate ByPriority(rules: seq<FilterRule>, order: seq<nat>) {
    && (forall k | 0 <= k < |order| :: order[k] < |rules|)
    && forall j, k | 0 <= j < k < |order| ::
         || rules[order[j]].priority < rules[order[k]].priority
         || (rules[order[j]].priority == rules[order[k]].priority && order[j] < order[k])
  }

  /** What evaluation has to return: each enabled rule that is in scope and whose conditions hold, with its actions,
      by priority, and nothing else. */
  ghost predicate IsEvaluation(lib: Libraries, rules: seq<FilterRule>, email: Email, results: seq<Outcome>, order: seq<nat>) {
    && ByPriority(rules, order)
    && (forall i :: i in order <==>
          && 0 <= i < |rules| && rules[i].enabled
          && InScope(lib, rules[i].targetAccount, email.accountId) && Holds(lib, rules[i].conditions, email))
    && |results| == |order|
    && forall k | 0 <= k < |order| :: results[k] == (rules[order[k]], rules[order[k]].actions)
  }

  lemma FiringIsEvaluation(lib: Libraries, rules: seq<FilterRule>, email: Email)
    ensures IsEvaluation(lib, rules, email, OutcomesAt(rules, FiringOrder(lib, rules, email)), FiringOrder(lib, rules, email))
  {
    hide MatchesAccount, InScope, EvalFresh, Holds, FiringOrder;
    forall i | 0 <= i < |rules|
      ensures Fires(lib, rules[i], email) <==>
                && rules[i].enabled
                && InScope(lib, rules[i].targetAccount, email.accountId) && Holds(lib, rules[i].conditions, email)
    {
      ScopeMeaning(lib, rules[i], email.accountId);
      EvaluationMeansHolds(lib, rules[i].conditions, email);
    }
  }

  /** A single rule with a single condition: it is returned exactly when it is enabled and in scope and the part of
      the message its field names meets its operator. */
  lemma OneLeafRule(lib: Libraries, rule: FilterRule, leaf: ConditionLeaf, email: Email)
    requires rule.conditions == Leaf(leaf)
    ensures OutcomesAt([rule], FiringOrder(lib, [rule], email)) ==
            if rule.enabled && InScope(lib, rule.targetAccount, email.accountId) && LeafHolds(lib, leaf, email)
            then [(rule, rule.actions)] else []
  {
    var order := FiringOrder(lib, [rule], email);
    OneMember(lib, rule, leaf, email);
    OnePosition([rule], order);
    hide *;
    OneOutcome(rule, order);
  }

  lemma OneMember(lib: Libraries, rule: FilterRule, leaf: ConditionLeaf, email: Email)
    requires rule.conditions == Leaf(leaf)
    ensures 0 in FiringOrder(lib, [rule], email) <==>
            rule.enabled && InScope(lib, rule.targetAccount, email.accountId) && LeafHolds(lib, leaf, email)
  {
    ScopeMeaning(lib, rule, email.accountId);
    LeafMeaning(lib, leaf, email);
    assert 0 in FiringOrder(lib, [rule], email) <==> Fires(lib, [rule][0], email);
    hide InScope, LeafHolds, FiringOrder, MatchesAccount, EvalFresh;
  }

  lemma OneOutcome(rule: FilterRule, order: seq<nat>)
    requires order == [] || order == [0]
    ensures OutcomesAt([rule], order) == if 0 in order then [(rule, rule.actions)] else []
  {
  }

  lemma OnePosition(rules: seq<FilterRule>, order: seq<nat>)
    requires |rules| == 1 && InOrder(rules, order)
    ensures order == [] || order == [0]
  {
    assert forall i | i in order :: i == 0;
    if order != [] {
      assert order[0] in order;
      OrderIsUnique(rules, order, [0]);
    }
  }

  lemma SelectNothing(keep: nat -> bool)
    ensures Select([], keep) == []
  {
  }

  lemma ActiveLength(lib: Libraries, rules: seq<FilterRule>)
    requires AllEnabledCompile(lib, rules)
    ensures |ActiveSet(lib, rules)| == |ActiveOrder(rules)|
  {
  }

  predicate IsDecided(filter: CompiledFilter, lib: Libraries, email: Email) {
    MatchesAccount(lib, filter.rule, email.accountId) && EvaluateCondition(lib, filter, email)
  }

  lemma ActiveDecides(lib: Libraries, rules: seq<FilterRule>, email: Email, k: nat)
    requires AllEnabledCompile(lib, rules) && k < |ActiveOrder(rules)|
    ensures var i := ActiveOrder(rules)[k];
            && i < |rules|
            && |ActiveSet(lib, rules)| == |ActiveOrder(rules)|
            && ActiveSet(lib, rules)[k].rule == rules[i] && rules[i].enabled
            && IsDecided(ActiveSet(lib, rules)[k], lib, email) == Fires(lib, rules[i], email)
  {
    hide MatchesAccount, Eval, ActiveOrder, Patterns;
    var i := ActiveOrder(rules)[k];
    assert i in ActiveOrder(rules);
    CompiledAgreesWithFresh(lib, rules[i], email);
  }

  /** The loop of `evaluate` over the active set: the rules that fire, with their actions, in stable priority
      order. */
  method EvaluateSet(lib: Libraries, ghost rules: seq<FilterRule>, filters: seq<CompiledFilter>, email: Email)
    returns (results: seq<Outcome>)
    requires AllEnabledCompile(lib, rules) && filters == ActiveSet(lib, rules)
    ensures results == OutcomesAt(rules, FiringOrder(lib, rules, email))
    ensures exists order :: IsEvaluation(lib, rules, email, results, order)
  {
    FiringIsEvaluation(lib, rules, email);
    hide Fires, MatchesAccount, EvaluateCondition, Compiles, Compiled, ActiveOrder, Select, AllEnabledCompile, ActiveSet, IsEvaluation;
    results := [];
    ghost var order, fires := ActiveOrder(rules), FiresAt(lib, rules, email);
    SelectNothing(fires);
    ActiveLength(lib, rules);
    for k := 0 to |filters|
      invariant InOrder(rules, Select(order[..k], fires))
      invariant results == OutcomesAt(rules, Select(order[..k], fires))
    {
      SelectStep(rules, order, fires, k);
      ActiveDecides(lib, rules, email, k);
      if MatchesAccount(lib, filters[k].rule, email.accountId) && EvaluateCondition(lib, filters[k], email) {
        results := results + [(filters[k].rule, filters[k].rule.actions)];
      }
    }
    assert order[..|order|] == order;
  }

  // ---------------------------------------------------------------- preview

  function PriorityText(priority: i32): string { NumberText(priority as int) }

  function Verdict(lib: Libraries, rule: FilterRule, email: Email): string {
    if !MatchesAccount(lib, rule, email.accountId) then "SKIPPED (account scope mismatch)"
    else if EvalFresh(lib, rule.conditions, email) then "MATCH"
    else "NO MATCH"
  }

  function TraceOf(rule: FilterRule, verdict: string): string {
    "Rule '" + rule.name + "' (priority " + PriorityText(rule.priority) + "): " + verdict
  }

  function TracesAt(lib: Libraries, rules: seq<FilterRule>, order: seq<nat>, email: Email): (traces: seq<string>)
    requires forall i | 0 <= i < |order| :: order[i] < |rules|
    ensures |traces| == |order|
  {
    seq(|order|, i requires 0 <= i < |order| => TraceOf(rules[order[i]], Verdict(lib, rules[order[i]], email)))
  }

  /** What is traced: for each enabled rule by priority its name, priority and verdict. */
  ghost predicate IsTraced(lib: Libraries, rules: seq<FilterRule>, email: Email, traces: seq<string>, order: seq<nat>) {
    && ByPriority(rules, order)
    && (forall i :: i in order <==> 0 <= i < |rules| && rules[i].enabled)
    && |traces| == |order|
    && forall k | 0 <= k < |order| ::
         var rule := rules[order[k]];
         traces[k] == "Rule '" + rule.name + "' (priority " + NumberText(rule.priority as int) + "): "
                      + if !InScope(lib, rule.targetAccount, email.accountId) then "SKIPPED (account scope mismatch)"
                        else if Holds(lib, rule.conditions, email) then "MATCH" else "NO MATCH"
  }

  lemma TracesAreTraced(lib: Libraries, rules: seq<FilterRule>, email: Email)
    ensures IsTraced(lib, rules, email, TracesAt(lib, rules, ActiveOrder(rules), email), ActiveOrder(rules))
  {
    hide MatchesAccount, InScope, EvalFresh, Holds, ActiveOrder, NumberText;
    forall i | 0 <= i < |rules|
      ensures MatchesAccount(lib, rules[i], email.accountId) <==> InScope(lib, rules[i].targetAccount, email.accountId)
      ensures EvalFresh(lib, rules[i].conditions, email) <==> Holds(lib, rules[i].conditions, email)
    {
      ScopeMeaning(lib, rules[i], email.accountId);
      EvaluationMeansHolds(lib, rules[i].conditions, email);
    }
  }

  datatype FilterPreview = FilterPreview(
    messageId: string,
    matched: bool,
    matchedRuleId: Option<string>,
    matchedRuleName: Option<string>,
    actionsEvaluated: seq<RuleAction>,
    conditionTraces: seq<string>
  )

  /** The preview reports the head of the list `evaluate` returns. */
  predicate ReportsHead(preview: FilterPreview, outcomes: seq<Outcome>) {
    if outcomes == [] then !preview.matched && preview.matchedRuleId.None? && preview.matchedRuleName.None? && preview.actionsEvaluated == []
    else
      && preview.matched
      && preview.matchedRuleId == Some(outcomes[0].0.id)
      && preview.matchedRuleName == Some(outcomes[0].0.name)
      && preview.actionsEvaluated == outcomes[0].1
  }

  /** What is reported so far, whatever the traces. */
  predicate Reports(matched: bool, ruleId: Option<string>, ruleName: Option<string>, actions: seq<RuleAction>,
                    rules: seq<FilterRule>, order: seq<nat>)
    requires forall k | 0 <= k < |order| :: order[k] < |rules|
  {
    ReportsHead(FilterPreview("", matched, ruleId, ruleName, actions, []), OutcomesAt(rules, order))
  }

  /** One more rule at the end of the list changes the report only while there is none. */
  lemma ReportStep(matched: bool, ruleId: Option<string>, ruleName: Option<string>, actions: seq<RuleAction>,
                   rules: seq<FilterRule>, order: seq<nat>, i: nat)
    requires (forall k | 0 <= k < |order| :: order[k] < |rules|) && i < |rules|
    requires Reports(matched, ruleId, ruleName, actions, rules, order)
    ensures if matched then Reports(matched, ruleId, ruleName, actions, rules, order + [i])
            else Reports(true, Some(rules[i].id), Some(rules[i].name), rules[i].actions, rules, order + [i])
  {
  }

  lemma TracesStep(lib: Libraries, rules: seq<FilterRule>, order: seq<nat>, email: Email, k: nat)
    requires InOrder(rules, order) && k < |order|
    ensures TracesAt(lib, rules, order[..k + 1], email) ==
            TracesAt(lib, rules, order[..k], email) + [TraceOf(rules[order[k]], Verdict(lib, rules[order[k]], email))]
  {
    hide TraceOf, Verdict;
  }

  /** The loop of `preview`: one trace per active rule, and the first rule that fires. */
  method PreviewSet(lib: Libraries, ghost rules: seq<FilterRule>, filters: seq<CompiledFilter>, email: Email)
    returns (preview: FilterPreview)
    requires AllEnabledCompile(lib, rules) && filters == ActiveSet(lib, rules)
    ensures preview.messageId == email.id
    ensures ReportsHead(preview, OutcomesAt(rules, FiringOrder(lib, rules, email)))
    ensures preview.conditionTraces == TracesAt(lib, rules, ActiveOrder(rules), email)
    ensures exists order :: IsTraced(lib, rules, email, preview.conditionTraces, order)
    ensures exists results, order :: IsEvaluation(lib, rules, email, results, order) && ReportsHead(preview, results)
  {
    FiringIsEvaluation(lib, rules, email);
    TracesAreTraced(lib, rules, email);
    hide MatchesAccount, Compiles, EvalFresh, TraceOf, Verdict, ActiveOrder, Select, AllEnabledCompile, ActiveSet, EvaluateCondition, Fires,
         Reports, TracesAt, OutcomesAt, Precedes, IsEvaluation, IsTraced;
    var matched, ruleId, ruleName, actions, traces := false, None, None, [], [];
    ghost var order, fires := ActiveOrder(rules), FiresAt(lib, rules, email);
    SelectNothing(fires);
    ActiveLength(lib, rules);
    NothingReported(rules);
    for k := 0 to |filters|
      invariant InOrder(rules, Select(order[..k], fires))
      invariant Reports(matched, ruleId, ruleName, actions, rules, Select(order[..k], fires))
      invariant traces == TracesAt(lib, rules, order[..k], email)
    {
      SelectStep(rules, order, fires, k);
      TracesStep(lib, rules, order, email, k);
      ActiveDecides(lib, rules, email, k);
      VerdictOf(lib, rules[order[k]], email);
      ReportStep(matched, ruleId, ruleName, actions, rules, Select(order[..k], fires), order[k]);
      var rule := filters[k].rule;
      if !MatchesAccount(lib, rule, email.accountId) {
        traces := traces + [TraceOf(rule, "SKIPPED (account scope mismatch)")];
        continue;
      }
      var isMatch := EvaluateCondition(lib, filters[k], email);
      traces := traces + [TraceOf(rule, if isMatch then "MATCH" else "NO MATCH")];
      if isMatch && !matched {
        matched, ruleId, ruleName, actions := true, Some(rule.id), Some(rule.name), rule.actions;
      }
    }
    assert order[..|order|] == order;
    preview := FilterPreview(email.id, matched, ruleId, ruleName, actions, traces);
    ReportIsComplete(preview, rules, FiringOrder(lib, rules, email));
  }

  lemma NothingReported(rules: seq<FilterRule>)
    ensures Reports(false, None, None, [], rules, [])
  {
  }

  lemma ReportIsComplete(preview: FilterPreview, rules: seq<FilterRule>, order: seq<nat>)
    requires InOrder(rules, order)
    requires Reports(preview.matched, preview.matchedRuleId, preview.matchedRuleName, preview.actionsEvaluated, rules, order)
    ensures ReportsHead(preview, OutcomesAt(rules, order))
  {
  }

  lemma VerdictOf(lib: Libraries, rule: FilterRule, email: Email)
    requires rule.enabled
    ensures Verdict(lib, rule, email) ==
            if !MatchesAccount(lib, rule, email.accountId) then "SKIPPED (account scope mismatch)"
            else if Fires(lib, rule, email) then "MATCH" else "NO MATCH"
  {
    hide MatchesAccount, EvalFresh;
  }

  /** The rule a preview reports comes before every other rule that fires: it has the smallest priority and,
      among those, the smallest position. */
  lemma HeadIsMinimum(lib: Libraries, rules: seq<FilterRule>, email: Email, other: nat)
    requires other < |rules| && Fires(lib, rules[other], email)
    ensures var order := FiringOrder(lib, rules, email);
            order != [] && (other == order[0] || Precedes(rules, order[0], other))
  {
    hide Fires;
    FirstIsLeast(rules, FiringOrder(lib, rules, email), other);
  }

  /** `evaluate` returns exactly the rules that fire in stable priority order: any list of positions in that
      order that holds exactly those rules is the list behind its result. */
  lemma EvaluationIsExact(lib: Libraries, rules: seq<FilterRule>, email: Email, order: seq<nat>)
    requires InOrder(rules, order)
    ensures (forall i :: i in order <==> 0 <= i < |rules| && Fires(lib, rules[i], email)) <==> order == FiringOrder(lib, rules, email)
  {
    hide Fires;
    if forall i :: i in order <==> 0 <= i < |rules| && Fires(lib, rules[i], email) {
      OrderIsUnique(rules, order, FiringOrder(lib, rules, email));
    }
  }

  // ---------------------------------------------------------------- the engine

  /** The engine's field holds the active set; `active` remembers the rules it was built from. */
  class Engine {
    const lib: Libraries
    var cache: seq<CompiledFilter>
    ghost var active: seq<FilterRule>

    ghost predicate Valid()
      reads this
    {
      AllEnabledCompile(lib, active) && cache == ActiveSet(lib, active)
    }

    constructor (lib: Libraries, filters: seq<CompiledFilter>, ghost rules: seq<FilterRule>)
      requires AllEnabledCompile(lib, rules) && filters == ActiveSet(lib, rules)
      ensures Valid() && active == rules && this.lib == lib
    {
      this.lib := lib;
      cache := filters;
      active := rules;
    }

    /** `FilterEngine::new`. */
    static method New(lib: Libraries, rules: seq<FilterRule>) returns (r: Result<Engine, string>)
      ensures r.Ok? <==> AllEnabledCompile(lib, rules)
      ensures r.Ok? ==> fresh(r.value) && r.value.Valid() && r.value.active == rules && r.value.lib == lib
    {
      var built := NewFilterSet(lib, rules);
      if built.Err? {
        return Err(built.error);
      }
      var engine := new Engine(lib, built.value, rules);
      r := Ok(engine);
    }

    /** `reload_rules`: all or nothing. */
    method ReloadRules(rules: seq<FilterRule>) returns (r: Result<(), string>)
      requires Valid()
      modifies this
      ensures Valid()
      ensures r.Ok? <==> AllEnabledCompile(lib, rules)
      ensures r.Ok? ==> active == rules
      ensures r.Err? ==> cache == old(cache) && active == old(active)
    {
      var built := NewFilterSet(lib, rules);
      if built.Err? {
        return Err(built.error);
      }
      cache := built.value;
      active := rules;
      r := Ok(());
    }

    /** `evaluate`. */
    method Evaluate(email: Email) returns (results: seq<Outcome>)
      requires Valid()
      ensures results == OutcomesAt(active, FiringOrder(lib, active, email))
      ensures exists order :: IsEvaluation(lib, active, email, results, order)
    {
      results := EvaluateSet(lib, active, cache, email);
    }

    /** `evaluate_with_timeout`; `expired` tells whether the timer won. */
    method EvaluateWithTimeout(email: Email, expired: bool) returns (results: seq<Outcome>)
      requires Valid()
      ensures results == if expired then [] else OutcomesAt(active, FiringOrder(lib, active, email))
      ensures !expired ==> exists order :: IsEvaluation(lib, active, email, results, order)
    {
      if expired {
        return [];
      }
      results := EvaluateSet(lib, active, cache, email);
    }

    /** `preview`. */
    method Preview(email: Email) returns (preview: FilterPreview)
      requires Valid()
      ensures preview.messageId == email.id
      ensures ReportsHead(preview, OutcomesAt(active, FiringOrder(lib, active, email)))
      ensures preview.conditionTraces == TracesAt(lib, active, ActiveOrder(active), email)
      ensures exists order :: IsTraced(lib, active, email, preview.conditionTraces, order)
      ensures exists results, order :: IsEvaluation(lib, active, email, results, order) && ReportsHead(preview, results)
    {
      preview := PreviewSet(lib, active, cache, email);
    }
  }
}
