/** The filter language: its syntax tree and its printers. */
module NsqlAst {
  import Text
  import Decimal

  type i64 = n: int | -0x8000_0000_0000_0000 <= n < 0x8000_0000_0000_0000

  type i32 = n: int | -0x8000_0000 <= n < 0x8000_0000

  const MAX_I64: nat := 0x7FFF_FFFF_FFFF_FFFF

  datatype FilterField =
    | Subject | From | To | Body | Header(name: string)
    | HasAttachment | Size | Folder | Date | Account

  datatype FilterOperator =
    | Equals | NotEquals | Contains | NotContains | Matches
    | GreaterThan | LessThan | GreaterThanOrEqual | LessThanOrEqual
    | In | NotIn

  datatype FilterValue =
    | String(text: string)
    | Number(number: i64)
    | Boolean(flag: bool)
    | List(items: seq<string>)

  datatype ConditionLeaf = ConditionLeaf(field: FilterField, operator: FilterOperator, value: FilterValue)

  datatype ConditionNode =
    | Leaf(leaf: ConditionLeaf)
    | And(children: seq<ConditionNode>)
    | Or(children: seq<ConditionNode>)
    | Not(inner: ConditionNode)

  datatype RuleAction =
    | MoveTo(target: string)
    | CopyTo(target: string)
    | MarkRead
    | MarkUnread
    | Flag
    | Unflag
    | Delete
    | ForwardTo(target: string)
    | CallWebhook(target: string)

  datatype FilterRule = FilterRule(
    id: string,
    name: string,
    targetAccount: string,
    priority: i32,
    enabled: bool,
    conditions: ConditionNode,
    actions: seq<RuleAction>
  )

  // ---------------------------------------------------------------- depth

  function Max(a: nat, b: nat): nat { if a < b then b else a }

  function Depth(node: ConditionNode): (d: nat)
    ensures d >= 1
  {
    match node
    case Leaf(_) => 1
    case And(children) => 1 + MaxDepth(children)
    case Or(children) => 1 + MaxDepth(children)
    case Not(inner) => 1 + Depth(inner)
  }

  function MaxDepth(nodes: seq<ConditionNode>): nat {
    if nodes == [] then 0 else Max(Depth(nodes[0]), MaxDepth(nodes[1..]))
  }

  // ---------------------------------------------------------------- printers

  function FieldText(field: FilterField): string {
    match field
    case Subject => "subject"
    case From => "from"
    case To => "to"
    case Body => "body"
    case Header(name) => "header['" + name + "']"
    case HasAttachment => "has_attachment"
    case Size => "size"
    case Folder => "folder"
    case Date => "date"
    case Account => "account"
  }

  function OperatorText(operator: FilterOperator): string {
    match operator
    case Equals => "="
    case NotEquals => "!="
    case Contains => "CONTAINS"
    case NotContains => "NOT CONTAINS"
    case Matches => "MATCHES"
    case GreaterThan => ">"
    case LessThan => "<"
    case GreaterThanOrEqual => ">="
    case LessThanOrEqual => "<="
    case In => "IN"
    case NotIn => "NOT IN"
  }

  /** `s.replace('\'', "\\'")`. */
  function EscapeQuotes(s: string): string {
    if s == "" then "" else (if s[0] == '\'' then "\\'" else [s[0]]) + EscapeQuotes(s[1..])
  }

  function Quoted(s: string): string { "'" + EscapeQuotes(s) + "'" }

  function QuotedAll(items: seq<string>): (texts: seq<string>)
    ensures |texts| == |items|
  {
    if items == [] then [] else [Quoted(items[0])] + QuotedAll(items[1..])
  }

  /** `i64::to_string`. */
  function NumberText(n: i64): string {
    if n < 0 then "-" + Decimal.NatToString(-(n as int)) else Decimal.NatToString(n)
  }

  function ValueText(value: FilterValue): string {
    match value
    case String(s) => Quoted(s)
    case Number(n) => NumberText(n)
    case Boolean(b) => if b then "true" else "false"
    case List(items) => "(" + Text.Join(QuotedAll(items), ", ") + ")"
  }

  function LeafText(leaf: ConditionLeaf): string {
    FieldText(leaf.field) + " " + OperatorText(leaf.operator) + " " + ValueText(leaf.value)
  }

  function NodeText(node: ConditionNode): string {
    match node
    case Leaf(leaf) => LeafText(leaf)
    case And(children) => Text.Join(Parenthesized(children), " AND ")
    case Or(children) => Text.Join(Parenthesized(children), " OR ")
    case Not(inner) => "NOT (" + NodeText(inner) + ")"
  }

  function Parenthesized(nodes: seq<ConditionNode>): (texts: seq<string>)
    ensures |texts| == |nodes|
  {
    if nodes == [] then [] else ["(" + NodeText(nodes[0]) + ")"] + Parenthesized(nodes[1..])
  }

  function ActionText(action: RuleAction): string {
    match action
    case MoveTo(folder) => "MOVE TO '" + folder + "'"
    case CopyTo(folder) => "COPY TO '" + folder + "'"
    case MarkRead => "MARK READ"
    case MarkUnread => "MARK UNREAD"
    case Flag => "FLAG"
    case Unflag => "UNFLAG"
    case Delete => "DELETE"
    case ForwardTo(email) => "FORWARD TO '" + email + "'"
    case CallWebhook(url) => "CALL WEBHOOK '" + url + "'"
  }

  function ActionTexts(actions: seq<RuleAction>): (texts: seq<string>)
    ensures |texts| == |actions|
  {
    if actions == [] then [] else [ActionText(actions[0])] + ActionTexts(actions[1..])
  }

  function ActionsClause(actions: seq<RuleAction>): string { Text.Join(ActionTexts(actions), ", ") }

  const SELECT_PREFIX: string := "SELECT * FROM emails WHERE "

  /** `FilterRule::to_nsql`. */
  function RuleText(conditions: ConditionNode, actions: seq<RuleAction>): string {
    if ActionsClause(actions) == "" then SELECT_PREFIX + NodeText(conditions)
    else SELECT_PREFIX + NodeText(conditions) + " ACTION " + ActionsClause(actions)
  }

  // ---------------------------------------------------------------- errors of the parser

  /** `Panic` stands for a byte slice past the end of the text or inside a character. */
  datatype ParseError = Syntax | InvalidExpression | InvalidAction | MaxDepthExceeded | Panic
}
