/** From SQL expressions to condition trees, and the depth bound. */
module NsqlConvert {
  import opened Wrappers
  import opened Text
  import Decimal
  import opened NsqlAst
  import NsqlActions
  import opened SqlSubset

  const MAX_AST_DEPTH: nat := 10

  /** `FilterField::parse_str` on an identifier. */
  function ParseField(u: Unicode, name: string): Option<FilterField> {
    if "header[" <= u.lower(name) && EndsInBracket(u.lower(name)) && |name| >= 8
    then Some(Header(NsqlActions.Unwrap(name[7..|name| - 1])))
    else FieldOf(u.lower(name))
  }

  /** Only a name between quotes can hold brackets. */
  predicate EndsInBracket(s: string) { s != "" && s[|s| - 1] == ']' }

  function FieldOf(lower: string): Option<FilterField> {
    match lower
    case "subject" => Some(Subject)
    case "from" => Some(From)
    case "sender" => Some(From)
    case "to" => Some(To)
    case "recipient" => Some(To)
    case "body" => Some(Body)
    case "has_attachment" => Some(HasAttachment)
    case "has_attachments" => Some(HasAttachment)
    case "attachment" => Some(HasAttachment)
    case "size" => Some(Size)
    case "folder" => Some(Folder)
    case "date" => Some(Date)
    case "received_at" => Some(Date)
    case "account" => Some(Account)
    case "account_id" => Some(Account)
    case _ => None
  }

  const HEADER_PREFIX: string := "header__"

  function ExtractField(u: Unicode, e: Expr): Result<FilterField, ParseError> {
    if !e.Identifier? then Err(InvalidExpression)
    else if HEADER_PREFIX <= e.name then Ok(Header(ReplaceChar(e.name[|HEADER_PREFIX|..], '_', '-')))
    else
      match ParseField(u, e.name)
      case Some(f) => Ok(f)
      case None => Err(InvalidExpression)
  }

  /** The strings and identifiers of a tuple; other elements are dropped. */
  function TupleStrings(es: seq<Expr>): seq<string> {
    if es == [] then []
    else (match es[0] case StringLit(s) => [s] case Identifier(n) => [n] case _ => []) + TupleStrings(es[1..])
  }

  function ExtractValue(u: Unicode, e: Expr): Result<FilterValue, ParseError> {
    match e
    case StringLit(s) => Ok(String(s))
    case NumberLit(d) =>
      (match Decimal.ParseUnsigned(d, MAX_I64)
       case Some(n) => Ok(FilterValue.Number(n))
       case None => Err(InvalidExpression))
    case BoolLit(b) => Ok(Boolean(b))
    case Identifier(n) =>
      if u.lower(n) == "true" then Ok(Boolean(true))
      else if u.lower(n) == "false" then Ok(Boolean(false))
      else Ok(String(n))
    case TupleOf(es) => Ok(List(TupleStrings(es)))
    case _ => Err(InvalidExpression)
  }

  function ConvertLeaf(u: Unicode, left: Expr, operator: FilterOperator, right: Expr): Result<ConditionNode, ParseError> {
    match ExtractField(u, left)
    case Err(e) => Err(e)
    case Ok(field) =>
      match ExtractValue(u, right)
      case Err(e) => Err(e)
      case Ok(value) => Ok(Leaf(ConditionLeaf(field, operator, value)))
  }

  /** The elements of an IN list, which must be strings or identifiers. */
  function ListItems(es: seq<Expr>): Result<seq<string>, ParseError> {
    if es == [] then Ok([])
    else
      match ListItems(es[..|es| - 1])
      case Err(e) => Err(e)
      case Ok(values) =>
        match es[|es| - 1]
        case StringLit(s) => Ok(values + [s])
        case Identifier(n) => Ok(values + [n])
        case _ => Err(InvalidExpression)
  }

  lemma ListStep(es: seq<Expr>, i: nat)
    requires i < |es| && ListItems(es[..i]).Ok?
    ensures ListItems(es[..i + 1]) ==
            if es[i].StringLit? then Ok(ListItems(es[..i]).value + [es[i].value])
            else if es[i].Identifier? then Ok(ListItems(es[..i]).value + [es[i].name])
            else Err(InvalidExpression)
  {
    assert es[..i + 1][..i] == es[..i];
  }

  /** The loop over an IN list. */
  method ConvertList(es: seq<Expr>) returns (r: Result<seq<string>, ParseError>)
    ensures r == ListItems(es)
    ensures r.Ok? <==> forall i | 0 <= i < |es| :: es[i].StringLit? || es[i].Identifier?
  {
    var values := [];
    assert ListItems(es[..0]) == Ok([]);
    hide ListItems;
    for i := 0 to |es|
      invariant ListItems(es[..i]) == Ok(values)
      invariant forall j | 0 <= j < i :: es[j].StringLit? || es[j].Identifier?
    {
      ListStep(es, i);
      match es[i] {
        case StringLit(s) =>
          values := values + [s];
        case Identifier(n) =>
          values := values + [n];
        case _ =>
          ListErrorStays(es, i + 1);
          return Err(InvalidExpression);
      }
    }
    assert es[..|es|] == es;
    r := Ok(values);
  }

  lemma {:induction false} ListErrorStays(es: seq<Expr>, k: nat)
    requires k <= |es| && ListItems(es[..k]).Err?
    ensures ListItems(es) == ListItems(es[..k])
    decreases |es|
  {
    if k == |es| {
      assert es[..k] == es;
    } else {
      assert es[..|es| - 1][..k] == es[..k];
      ListErrorStays(es[..|es| - 1], k);
    }
  }

  function OperatorOf(op: BinaryOp): FilterOperator
    requires op != AndOp && op != OrOp
  {
    match op
    case EqOp => Equals
    case NotEqOp => NotEquals
    case GtOp => GreaterThan
    case LtOp => LessThan
    case GtEqOp => GreaterThanOrEqual
    case LtEqOp => LessThanOrEqual
    case RegexMatchOp => Matches
  }

  /** An expression that is not a connective, as one condition. */
  function ConvertCondition(u: Unicode, e: Expr): Result<ConditionNode, ParseError>
    requires !IsConnective(e)
  {
    match e
    case Binary(op, l, r) => ConvertLeaf(u, l, OperatorOf(op), r)
    case Like(l, negated, r) => ConvertLeaf(u, l, if negated then NotContains else Contains, r)
    case InList(l, negated, list) =>
      (match ExtractField(u, l)
       case Err(x) => Err(x)
       case Ok(field) =>
         match ListItems(list)
         case Err(x) => Err(x)
         case Ok(values) => Ok(Leaf(ConditionLeaf(field, if negated then NotIn else In, List(values)))))
    case Identifier(name) =>
      (match ParseField(u, name)
       case Some(field) => Ok(Leaf(ConditionLeaf(field, Equals, Boolean(true))))
       case None => Err(InvalidExpression))
    case _ => Err(InvalidExpression)
  }

  predicate IsConnective(e: Expr) {
    e.Nested? || e.UnaryNot? || (e.Binary? && (e.op == AndOp || e.op == OrOp))
  }

  /** `convert_expr`: parentheses cost no depth, every connective costs one level. */
  function ConvertExpr(u: Unicode, e: Expr, depth: nat): Result<ConditionNode, ParseError>
    decreases e
  {
    if depth > MAX_AST_DEPTH then Err(MaxDepthExceeded)
    else if !IsConnective(e) then ConvertCondition(u, e)
    else
      match e
      case Nested(inner) => ConvertExpr(u, inner, depth)
      case UnaryNot(inner) =>
        (match ConvertExpr(u, inner, depth + 1)
         case Err(x) => Err(x)
         case Ok(node) => Ok(Not(node)))
      case Binary(op, l, r) =>
        match ConvertExpr(u, l, depth + 1)
        case Err(x) => Err(x)
        case Ok(a) =>
          match ConvertExpr(u, r, depth + 1)
          case Err(x) => Err(x)
          case Ok(b) => Ok(if op == AndOp then And([a, b]) else Or([a, b]))
  }

  // ---------------------------------------------------------------- depth discipline

  /** Nesting of connectives; parentheses do not count. */
  function LogicalDepth(e: Expr): (d: nat)
    ensures d >= 1
  {
    match e
    case Nested(inner) => LogicalDepth(inner)
    case UnaryNot(inner) => 1 + LogicalDepth(inner)
    case Binary(op, l, r) => if IsConnective(e) then 1 + Max(LogicalDepth(l), LogicalDepth(r)) else 1
    case _ => 1
  }

  /** Every condition under the connectives can be converted. */
  predicate Convertible(u: Unicode, e: Expr) {
    if !IsConnective(e) then ConvertCondition(u, e).Ok?
    else
      match e
      case Nested(inner) => Convertible(u, inner)
      case UnaryNot(inner) => Convertible(u, inner)
      case Binary(_, l, r) => Convertible(u, l) && Convertible(u, r)
  }

  /** The tree of a convertible expression, depth aside. */
  function Strip(u: Unicode, e: Expr): ConditionNode
    requires Convertible(u, e)
  {
    if !IsConnective(e) then ConvertCondition(u, e).value
    else
      match e
      case Nested(inner) => Strip(u, inner)
      case UnaryNot(inner) => Not(Strip(u, inner))
      case Binary(op, l, r) => if op == AndOp then And([Strip(u, l), Strip(u, r)]) else Or([Strip(u, l), Strip(u, r)])
  }

  lemma ConditionIsLeaf(u: Unicode, e: Expr)
    requires !IsConnective(e)
    ensures ConvertCondition(u, e).Ok? ==> ConvertCondition(u, e).value.Leaf?
  {
    hide ExtractField, ExtractValue, ListItems, ParseField;
  }

  lemma DepthOfPair(a: ConditionNode, b: ConditionNode)
    ensures Depth(And([a, b])) == 1 + Max(Depth(a), Depth(b)) == Depth(Or([a, b]))
  {
    assert [a, b][1..] == [b] && [b][1..] == [];
    assert MaxDepth([b]) == Max(Depth(b), MaxDepth([b][1..])) == Depth(b);
  }

  /** Conversion from level `d` succeeds exactly when every condition is convertible and the logical nesting
      stays within the limit; it then builds the stripped tree, which is as deep as that nesting. */
  lemma {:induction false} DepthDiscipline(u: Unicode, e: Expr, d: nat)
    requires 1 <= d
    ensures ConvertExpr(u, e, d).Ok? <==> Convertible(u, e) && d + LogicalDepth(e) - 1 <= MAX_AST_DEPTH
    ensures ConvertExpr(u, e, d).Ok? ==> ConvertExpr(u, e, d).value == Strip(u, e)
    ensures Convertible(u, e) ==> Depth(Strip(u, e)) == LogicalDepth(e)
    decreases e
  {
    hide ConvertCondition, MaxDepth;
    if !IsConnective(e) {
      ConditionIsLeaf(u, e);
    } else {
      match e {
        case Nested(inner) =>
          DepthDiscipline(u, inner, d);
        case UnaryNot(inner) =>
          DepthDiscipline(u, inner, d + 1);
        case Binary(op, l, r) =>
          DepthDiscipline(u, l, d + 1);
          DepthDiscipline(u, r, d + 1);
          if Convertible(u, e) { DepthOfPair(Strip(u, l), Strip(u, r)); }
      }
    }
  }
}
