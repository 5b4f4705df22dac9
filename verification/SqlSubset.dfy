/** The part of SQL that filter conditions use, as the SQL library reads it under the filter dialect:
    tokens, and expressions built by precedence climbing. Text outside this part is a syntax error here. */
module SqlSubset {
  import opened Wrappers
  import opened Text

  // ---------------------------------------------------------------- tokens

  datatype Symbol = EqSign | NotEqSign | GtSign | LtSign | GtEqSign | LtEqSign | Tilde | LParen | RParen | Comma | Star | Minus

  datatype Token = Word(text: string) | Delimited(name: string) | Number(digits: string) | Str(value: string) | Sym(symbol: Symbol)

  predicate IsIdentStart(u: Unicode, c: char) { u.alphabetic(c) || c == '_' || c == '$' }

  predicate IsIdentPart(u: Unicode, c: char) {
    u.alphanumeric(c) || c == '_' || c == '$' || c == '-' || c == '*' || c == '%'
  }

  /** Length of the run of identifier characters at the start. */
  function IdentSpan(u: Unicode, s: string): (n: nat)
    ensures n <= |s|
  {
    if s != "" && IsIdentPart(u, s[0]) then 1 + IdentSpan(u, s[1..]) else 0
  }

  function DigitSpan(s: string): (n: nat)
    ensures n <= |s|
  {
    if s != "" && IsDigit(s[0]) then 1 + DigitSpan(s[1..]) else 0
  }

  /** The rest of a literal or a delimited name whose opening quote has been read, and the text behind it; a
      doubled quote stands for one. */
  function LexQuoted(quote: char, s: string): (r: Option<(string, string)>)
    ensures r.Some? ==> |r.value.1| < |s|
    decreases |s|
  {
    if s == "" then None
    else if s[0] != quote then WithFirst(s[0], LexQuoted(quote, s[1..]))
    else if |s| > 1 && s[1] == quote then WithFirst(quote, LexQuoted(quote, s[2..]))
    else Some(("", s[1..]))
  }

  function WithFirst(c: char, r: Option<(string, string)>): Option<(string, string)> {
    match r
    case None => None
    case Some((value, after)) => Some(([c] + value, after))
  }

  /** The dialect's default delimiters of names. */
  predicate IsDelimiter(c: char) { c == '"' || c == '`' }

  /** The text behind the end of the line. */
  function AfterLine(s: string): (rest: string)
    ensures |rest| <= |s|
  {
    if s == "" then "" else if s[0] == '\n' then s[1..] else AfterLine(s[1..])
  }

  /** The text behind the end of a block comment; the dialect does not nest them. */
  function AfterBlock(s: string): (rest: Option<string>)
    ensures rest.Some? ==> |rest.value| < |s|
  {
    if |s| < 2 then None else if s[0] == '*' && s[1] == '/' then Some(s[2..]) else AfterBlock(s[1..])
  }

  predicate StartsLineComment(s: string) { |s| > 1 && s[0] == '-' && s[1] == '-' }

  predicate StartsBlockComment(s: string) { |s| > 1 && s[0] == '/' && s[1] == '*' }

  /** A symbol at the start of the text, with its width. */
  function LexSymbol(s: string): (r: Option<(Symbol, nat)>)
    ensures r.Some? ==> 1 <= r.value.1 <= |s|
  {
    if s == "" then None
    else if "!=" <= s || "<>" <= s then Some((NotEqSign, 2))
    else if ">=" <= s then Some((GtEqSign, 2))
    else if "<=" <= s then Some((LtEqSign, 2))
    else if "==" <= s || "<<" <= s || ">>" <= s || "~~" <= s || "~*" <= s || "--" <= s || "->" <= s then None
    else
      match s[0]
      case '=' => Some((EqSign, 1))
      case '>' => Some((GtSign, 1))
      case '<' => Some((LtSign, 1))
      case '~' => Some((Tilde, 1))
      case '(' => Some((LParen, 1))
      case ')' => Some((RParen, 1))
      case ',' => Some((Comma, 1))
      case '*' => Some((Star, 1))
      case '-' => Some((Minus, 1))
      case _ => None
  }

  function Before(token: Token, r: Option<seq<Token>>): Option<seq<Token>> {
    match r
    case None => None
    case Some(tokens) => Some([token] + tokens)
  }

  function Lex(u: Unicode, s: string): Option<seq<Token>>
    decreases |s|
  {
    if s == "" then Some([])
    else if IsWhitespace(s[0]) then Lex(u, s[1..])
    else if IsIdentStart(u, s[0]) then
      var n := 1 + IdentSpan(u, s[1..]);
      Before(Word(s[..n]), Lex(u, s[n..]))
    else if IsDigit(s[0]) then
      var n := 1 + DigitSpan(s[1..]);
      Before(Number(s[..n]), Lex(u, s[n..]))
    else if s[0] == '\'' then
      match LexQuoted('\'', s[1..])
      case None => None
      case Some((value, after)) => Before(Str(value), Lex(u, after))
    else if IsDelimiter(s[0]) then
      match LexQuoted(s[0], s[1..])
      case None => None
      case Some((name, after)) => Before(Delimited(name), Lex(u, after))
    else if StartsLineComment(s) then Lex(u, AfterLine(s[2..]))
    else if StartsBlockComment(s) then
      match AfterBlock(s[2..])
      case None => None
      case Some(after) => Lex(u, after)
    else
      match LexSymbol(s)
      case None => None
      case Some((symbol, width)) => Before(Sym(symbol), Lex(u, s[width..]))
  }

  // ---------------------------------------------------------------- expressions

  datatype BinaryOp = AndOp | OrOp | EqOp | NotEqOp | GtOp | LtOp | GtEqOp | LtEqOp | RegexMatchOp

  datatype Expr =
    | Identifier(name: string)
    | NumberLit(digits: string)
    | StringLit(value: string)
    | BoolLit(flag: bool)
    | Nested(inner: Expr)
    | TupleOf(elements: seq<Expr>)
    | UnaryNot(operand: Expr)
    | UnaryMinus(operand: Expr)
    | Binary(op: BinaryOp, left: Expr, right: Expr)
    | Like(subject: Expr, negated: bool, pattern: Expr)
    | InList(subject: Expr, negated: bool, list: seq<Expr>)

  predicate IsWord(token: Token, kw: string) {
    token.Word? && SameIgnoreCase(token.text, kw)
  }

  const OR_PRECEDENCE: nat := 5
  const AND_PRECEDENCE: nat := 10
  const NOT_PRECEDENCE: nat := 15
  const LIKE_PRECEDENCE: nat := 19
  const COMPARE_PRECEDENCE: nat := 20
  const MINUS_PRECEDENCE: nat := 40

  function Comparison(symbol: Symbol): Option<BinaryOp> {
    match symbol
    case EqSign => Some(EqOp)
    case NotEqSign => Some(NotEqOp)
    case GtSign => Some(GtOp)
    case LtSign => Some(LtOp)
    case GtEqSign => Some(GtEqOp)
    case LtEqSign => Some(LtEqOp)
    case Tilde => Some(RegexMatchOp)
    case _ => None
  }

  /** How strongly the next operator binds; 0 when the next token is not an operator. */
  function Precedence(ts: seq<Token>): nat {
    if ts == [] then 0
    else if IsWord(ts[0], "OR") then OR_PRECEDENCE
    else if IsWord(ts[0], "AND") then AND_PRECEDENCE
    else if IsWord(ts[0], "LIKE") then LIKE_PRECEDENCE
    else if IsWord(ts[0], "IN") then COMPARE_PRECEDENCE
    else if IsWord(ts[0], "NOT") && |ts| > 1 && IsWord(ts[1], "IN") then COMPARE_PRECEDENCE
    else if IsWord(ts[0], "NOT") && |ts| > 1 && IsWord(ts[1], "LIKE") then LIKE_PRECEDENCE
    else if ts[0].Sym? && Comparison(ts[0].symbol).Some? then COMPARE_PRECEDENCE
    else 0
  }

  type Parsed = Option<(Expr, seq<Token>)>

  /** An expression all of whose top-level operators bind more strongly than `min`. */
  function ParseSub(min: nat, ts: seq<Token>): (r: Parsed)
    ensures r.Some? ==> |r.value.1| < |ts|
    decreases |ts|, 3
  {
    match ParsePrefix(ts)
    case None => None
    case Some((e, rest)) => Climb(min, e, rest)
  }

  function ParsePrefix(ts: seq<Token>): (r: Parsed)
    ensures r.Some? ==> |r.value.1| < |ts|
    decreases |ts|, 2
  {
    if ts == [] then None
    else
      match ts[0]
      case Word(w) =>
        if SameIgnoreCase(w, "NOT") then
          (match ParseSub(NOT_PRECEDENCE, ts[1..])
           case None => None
           case Some((e, rest)) => Some((UnaryNot(e), rest)))
        else if SameIgnoreCase(w, "TRUE") then Some((BoolLit(true), ts[1..]))
        else if SameIgnoreCase(w, "FALSE") then Some((BoolLit(false), ts[1..]))
        else if |ts| > 1 && ts[1] == Sym(LParen) then None
        else Some((Identifier(w), ts[1..]))
      case Delimited(name) => if |ts| > 1 && ts[1] == Sym(LParen) then None else Some((Identifier(name), ts[1..]))
      case Number(d) => Some((NumberLit(d), ts[1..]))
      case Str(s) => Some((StringLit(s), ts[1..]))
      case Sym(LParen) =>
        (match ParseList(ts[1..])
         case None => None
         case Some((es, rest)) =>
           if rest != [] && rest[0] == Sym(RParen)
           then Some((if |es| == 1 then Nested(es[0]) else TupleOf(es), rest[1..]))
           else None)
      case Sym(Minus) =>
        (match ParseSub(MINUS_PRECEDENCE, ts[1..])
         case None => None
         case Some((e, rest)) => Some((UnaryMinus(e), rest)))
      case Sym(_) => None
  }

  /** One or more expressions separated by commas. */
  function ParseList(ts: seq<Token>): (r: Option<(seq<Expr>, seq<Token>)>)
    ensures r.Some? ==> |r.value.1| < |ts| && r.value.0 != []
    decreases |ts|, 4
  {
    match ParseSub(0, ts)
    case None => None
    case Some((e, rest)) =>
      if rest != [] && rest[0] == Sym(Comma) then
        match ParseList(rest[1..])
        case None => None
        case Some((es, after)) => Some(([e] + es, after))
      else Some(([e], rest))
  }

  /** Keep taking operators that bind more strongly than `min`. */
  function Climb(min: nat, left: Expr, ts: seq<Token>): (r: Parsed)
    ensures r.Some? ==> |r.value.1| <= |ts|
    decreases |ts|, 1
  {
    var p := Precedence(ts);
    if p <= min then Some((left, ts))
    else
      match ParseInfix(left, p, ts)
      case None => None
      case Some((e, rest)) => Climb(min, e, rest)
  }

  function ParseInfix(left: Expr, p: nat, ts: seq<Token>): (r: Parsed)
    requires ts != [] && p == Precedence(ts) && p > 0
    ensures r.Some? ==> |r.value.1| < |ts|
    decreases |ts|, 0
  {
    if IsWord(ts[0], "LIKE") then ParseLike(left, false, ts[1..])
    else if IsWord(ts[0], "IN") then ParseIn(left, false, ts[1..])
    else if IsWord(ts[0], "NOT") && |ts| > 1 then
      if IsWord(ts[1], "LIKE") then ParseLike(left, true, ts[2..]) else ParseIn(left, true, ts[2..])
    else
      var op := if ts[0].Sym? then Comparison(ts[0].symbol).value
                else if IsWord(ts[0], "AND") then AndOp else OrOp;
      match ParseSub(p, ts[1..])
      case None => None
      case Some((e, rest)) => Some((Binary(op, left, e), rest))
  }

  function ParseLike(left: Expr, negated: bool, ts: seq<Token>): (r: Parsed)
    ensures r.Some? ==> |r.value.1| < |ts|
    decreases |ts|, 4
  {
    match ParseSub(LIKE_PRECEDENCE, ts)
    case None => None
    case Some((e, rest)) => Some((Like(left, negated, e), rest))
  }

  function ParseIn(left: Expr, negated: bool, ts: seq<Token>): (r: Parsed)
    ensures r.Some? ==> |r.value.1| < |ts|
    decreases |ts|, 5
  {
    if ts == [] || ts[0] != Sym(LParen) then None
    else
      match ParseList(ts[1..])
      case None => None
      case Some((es, rest)) =>
        if rest != [] && rest[0] == Sym(RParen) then Some((InList(left, negated, es), rest[1..])) else None
  }

  /** `SELECT * FROM <table> WHERE <expression>` and nothing behind it. */
  function ParseSelect(ts: seq<Token>): Option<Expr> {
    if |ts| > 5 && IsWord(ts[0], "SELECT") && ts[1] == Sym(Star) && IsWord(ts[2], "FROM") && (ts[3].Word? || ts[3].Delimited?) && IsWord(ts[4], "WHERE") then
      match ParseSub(0, ts[5..])
      case Some((e, rest)) => if rest == [] then Some(e) else None
      case None => None
    else None
  }
}
