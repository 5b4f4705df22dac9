/** What conditions mean: the part of a message each field names, and what each operator asks of it. */
module FilterSemantics {
  import opened Wrappers
  import Text
  import opened NsqlAst
  import opened FilterEval

  // ---------------------------------------------------------------- texts

  predicate StandsAt(part: string, text: string, i: nat) { i + |part| <= |text| && text[i..i + |part|] == part }

  /** From some position on the text goes on with the part. */
  predicate FoundIn(part: string, text: string) { exists i | 0 <= i <= |text| :: StandsAt(part, text, i) }

  lemma TailSlice(s: string, i: nat, n: nat)
    requires i + 1 + n <= |s|
    ensures s[1..][i..i + n] == s[i + 1..i + 1 + n]
  {
  }

  lemma {:induction false} SubstringFound(s: string, part: string)
    ensures HasSubstring(s, part) <==> FoundIn(part, s)
  {
    if part <= s {
      assert StandsAt(part, s, 0);
    } else if s == "" {
    } else {
      SubstringFound(s[1..], part);
      if FoundIn(part, s[1..]) {
        var i :| 0 <= i <= |s[1..]| && StandsAt(part, s[1..], i);
        TailSlice(s, i, |part|);
        assert StandsAt(part, s, i + 1);
      }
      if FoundIn(part, s) {
        var i :| 0 <= i <= |s| && StandsAt(part, s, i);
        assert i > 0 by { assert s[0..0 + |part|] == s[..|part|]; }
        TailSlice(s, i - 1, |part|);
        assert StandsAt(part, s[1..], i - 1);
      }
    }
  }

  // ---------------------------------------------------------------- operators

  /** What an operator asks of a text. A value of the wrong kind is never met, except by NOT IN, and the
      orderings are never met. */
  predicate TextMeets(lib: Libraries, text: string, operator: FilterOperator, value: FilterValue) {
    match value
    case String(v) =>
      (match operator
       case Equals => Text.SameLetters(text, v)
       case NotEquals => !Text.SameLetters(text, v)
       case Contains => FoundIn(lib.unicode.lower(v), lib.unicode.lower(text))
       case NotContains => !FoundIn(lib.unicode.lower(v), lib.unicode.lower(text))
       case Matches => lib.compile(v).Some? && lib.compile(v).value.isMatch(text)
       case _ => operator == NotIn)
    case List(items) =>
      (match operator
       case In => exists k | 0 <= k < |items| :: Text.SameLetters(text, items[k])
       case NotIn => forall k | 0 <= k < |items| :: !Text.SameLetters(text, items[k])
       case _ => false)
    case _ => operator == NotIn
  }

  predicate NumberMeets(actual: int, operator: FilterOperator, value: FilterValue) {
    value.Number? &&
    var n := value.number as int;
    || (operator == Equals && actual == n)
    || (operator == NotEquals && actual != n)
    || (operator == GreaterThan && actual > n)
    || (operator == LessThan && actual < n)
    || (operator == GreaterThanOrEqual && actual >= n)
    || (operator == LessThanOrEqual && actual <= n)
  }

  /** Every operator but equality is read as "differs from". */
  predicate FlagMeets(actual: bool, operator: FilterOperator, value: FilterValue) {
    value.Boolean? && (operator == Equals <==> actual == value.flag)
  }

  lemma TextOperators(lib: Libraries, text: string, operator: FilterOperator, value: FilterValue)
    ensures EvalString(lib, text, operator, value, []) <==> TextMeets(lib, text, operator, value)
  {
    hide FoundIn, HasSubstring, Text.SameLetters, Text.SameIgnoreCase;
    if value.String? {
      Text.LettersIgnoreCase(text, value.text);
      SubstringFound(lib.unicode.lower(text), lib.unicode.lower(value.text));
    } else if value.List? {
      forall k | 0 <= k < |value.items|
        ensures Text.SameIgnoreCase(text, value.items[k]) <==> Text.SameLetters(text, value.items[k])
      {
        Text.LettersIgnoreCase(text, value.items[k]);
      }
    }
  }

  // ---------------------------------------------------------------- fields

  /** The plain body, or else the HTML body, or else nothing. */
  predicate IsBody(email: Email, text: string) {
    if email.bodyPlain.Some? then text == email.bodyPlain.value
    else if email.bodyHtml.Some? then text == email.bodyHtml.value
    else text == ""
  }

  /** The size is that of the plain body alone, in bytes. */
  predicate IsSize(email: Email, size: nat) {
    if email.bodyPlain.Some? then size == Text.Utf8Len(email.bodyPlain.value) else size == 0
  }

  /** A condition on one field of a message. */
  ghost predicate LeafHolds(lib: Libraries, leaf: ConditionLeaf, email: Email) {
    match leaf.field
    case Subject => TextMeets(lib, email.subject, leaf.operator, leaf.value)
    case From => TextMeets(lib, email.sender, leaf.operator, leaf.value)
    case To => TextMeets(lib, email.recipient, leaf.operator, leaf.value)
    case Body => exists text :: IsBody(email, text) && TextMeets(lib, text, leaf.operator, leaf.value)
    case Folder => TextMeets(lib, email.folderId, leaf.operator, leaf.value)
    case Account => TextMeets(lib, email.accountId, leaf.operator, leaf.value)
    case HasAttachment => FlagMeets(|email.attachments| > 0, leaf.operator, leaf.value)
    case Size => exists size: nat :: IsSize(email, size) && NumberMeets(size, leaf.operator, leaf.value)
    case Date => NumberMeets(email.receivedAt, leaf.operator, leaf.value)
    case Header(_) => false
  }

  ghost predicate Holds(lib: Libraries, node: ConditionNode, email: Email) {
    match node
    case Leaf(leaf) => LeafHolds(lib, leaf, email)
    case And(children) => forall i | 0 <= i < |children| :: Holds(lib, children[i], email)
    case Or(children) => !forall i | 0 <= i < |children| :: !Holds(lib, children[i], email)
    case Not(inner) => !Holds(lib, inner, email)
  }

  lemma LeafMeaning(lib: Libraries, leaf: ConditionLeaf, email: Email)
    ensures EvalFresh(lib, Leaf(leaf), email) <==> LeafHolds(lib, leaf, email)
  {
    hide EvalString, TextMeets;
    TextOperators(lib, email.subject, leaf.operator, leaf.value);
    TextOperators(lib, email.sender, leaf.operator, leaf.value);
    TextOperators(lib, email.recipient, leaf.operator, leaf.value);
    TextOperators(lib, BodyText(email), leaf.operator, leaf.value);
    TextOperators(lib, email.folderId, leaf.operator, leaf.value);
    TextOperators(lib, email.accountId, leaf.operator, leaf.value);
    assert IsBody(email, BodyText(email)) && IsSize(email, SizeOf(email));
  }

  /** The evaluator decides every condition on every message as the meaning of its fields and operators asks. */
  lemma {:induction false} EvaluationMeansHolds(lib: Libraries, node: ConditionNode, email: Email)
    ensures EvalFresh(lib, node, email) <==> Holds(lib, node, email)
    decreases node
  {
    match node {
      case Leaf(leaf) =>
        LeafMeaning(lib, leaf, email);
      case And(children) =>
        forall i | 0 <= i < |children|
          ensures EvalFresh(lib, children[i], email) <==> Holds(lib, children[i], email)
        {
          EvaluationMeansHolds(lib, children[i], email);
        }
      case Or(children) =>
        forall i | 0 <= i < |children|
          ensures EvalFresh(lib, children[i], email) <==> Holds(lib, children[i], email)
        {
          EvaluationMeansHolds(lib, children[i], email);
        }
      case Not(inner) =>
        EvaluationMeansHolds(lib, inner, email);
    }
  }

  // ---------------------------------------------------------------- accounts

  /** The target with every wildcard spelled `.*`. */
  predicate IsGlob(target: string, glob: string, parts: seq<string>) {
    && |parts| == |target|
    && Text.Join(parts, "") == glob
    && forall i | 0 <= i < |target| :: parts[i] == if target[i] == '*' || target[i] == '%' then ".*" else [target[i]]
  }

  /** The rule's target is for all accounts, or names this one, or its pattern matches it. */
  ghost predicate InScope(lib: Libraries, target: string, account: string) {
    || target == "" || target == "*" || target == "%"
    || Text.SameLetters(target, account)
    || (('*' in target || '%' in target) &&
        exists glob, parts ::
          && IsGlob(target, glob, parts)
          && lib.compile("(?i)^" + glob + "$").Some?
          && lib.compile("(?i)^" + glob + "$").value.isMatch(account))
  }

  // ---------------------------------------------------------------- nothing else matters

  /** The messages agree on the one part that the field names. */
  predicate AgreeOn(field: FilterField, a: Email, b: Email) {
    match field
    case Subject => a.subject == b.subject
    case From => a.sender == b.sender
    case To => a.recipient == b.recipient
    case Body => a.bodyPlain == b.bodyPlain && (a.bodyPlain.None? ==> a.bodyHtml == b.bodyHtml)
    case Folder => a.folderId == b.folderId
    case Account => a.accountId == b.accountId
    case HasAttachment => |a.attachments| == 0 <==> |b.attachments| == 0
    case Size => a.bodyPlain == b.bodyPlain
    case Date => a.receivedAt == b.receivedAt
    case Header(_) => true
  }

  /** Messages that agree on the part get the same verdict, whatever else differs and whatever is cached. */
  lemma FieldDecides(lib: Libraries, leaf: ConditionLeaf, a: Email, b: Email, cache: Cache)
    requires AgreeOn(leaf.field, a, b)
    ensures Eval(lib, Leaf(leaf), a, cache) <==> Eval(lib, Leaf(leaf), b, cache)
  {
    hide EvalString, EvalNumber;
  }

  // ---------------------------------------------------------------- patterns

  /** The leaf occurs in the tree. */
  predicate Occurs(leaf: ConditionLeaf, node: ConditionNode)
    decreases node
  {
    match node
    case Leaf(l) => l == leaf
    case And(children) => exists i | 0 <= i < |children| :: Occurs(leaf, children[i])
    case Or(children) => exists i | 0 <= i < |children| :: Occurs(leaf, children[i])
    case Not(inner) => Occurs(leaf, inner)
  }

  /** The patterns to compile are the strings that MATCHES conditions hold, wherever these stand. */
  lemma {:induction false} PatternsAreMatches(node: ConditionNode, p: string)
    ensures p in Patterns(node) <==> exists field :: Occurs(ConditionLeaf(field, Matches, String(p)), node)
    decreases node
  {
    match node {
      case Leaf(leaf) =>
        if p in Patterns(node) { assert Occurs(ConditionLeaf(leaf.field, Matches, String(p)), node); }
      case And(children) => PatternsOfMatches(children, p);
      case Or(children) => PatternsOfMatches(children, p);
      case Not(inner) => PatternsAreMatches(inner, p);
    }
  }

  lemma {:induction false} PatternsOfMatches(nodes: seq<ConditionNode>, p: string)
    ensures p in PatternsOf(nodes) <==>
            exists field, i | 0 <= i < |nodes| :: Occurs(ConditionLeaf(field, Matches, String(p)), nodes[i])
    decreases nodes
  {
    if nodes == [] {
    } else {
      var front, last := nodes[..|nodes| - 1], nodes[|nodes| - 1];
      hide Patterns, Occurs;
      PatternsOfMatches(front, p);
      PatternsAreMatches(last, p);
      assert forall i | 0 <= i < |front| :: nodes[i] == front[i];
    }
  }
}
