/** What condition texts are read as, whoever wrote them: field names and aliases in any case, both spellings of
    inequality, names between quotes, header fields, and the three forms a statement may take. */
module NsqlTexts {
  import opened Wrappers
  import opened Text
  import Decimal
  import opened NsqlAst
  import NsqlPreprocess
  import opened SqlSubset
  import NsqlConvert
  import opened NsqlFields
  import NsqlRule
  import NsqlReading

  // ---------------------------------------------------------------- tokens

  predicate IsNameChar(c: char) {
    IsAsciiLetter(c) || IsDigit(c) || c == '_' || c == '$' || c == '-' || c == '*' || c == '%'
  }

  /** A name: letters, digits and the characters the dialect adds; it starts with a letter, `_` or `$`. */
  predicate IsName(w: string) {
    && w != "" && (IsAsciiLetter(w[0]) || w[0] == '_' || w[0] == '$')
    && forall i | 0 <= i < |w| :: IsNameChar(w[i])
  }

  /** Nothing, or a character that ends a name. */
  predicate EndsName(rest: string) { rest == "" || (IsAscii(rest[0]) && !IsNameChar(rest[0])) }

  lemma NameLexed(u: Unicode, w: string, rest: string)
    requires u.Valid() && IsName(w) && EndsName(rest)
    ensures Lex(u, w + rest) == Before(Word(w), Lex(u, rest))
  {
    hide Lex;
    var s := w + rest;
    assert s[0] == w[0] && s[1..] == w[1..] + rest && s[..|w|] == w && s[|w|..] == rest;
    assert !IsWhitespace(w[0]) && IsIdentStart(u, w[0]);
    NameSpan(u, w, rest);
    NameStep(u, s, |w|);
  }

  lemma NameSpan(u: Unicode, w: string, rest: string)
    requires u.Valid() && IsName(w) && EndsName(rest)
    ensures 1 + IdentSpan(u, w[1..] + rest) == |w|
  {
    forall i | 0 <= i < |w[1..]|
      ensures IsIdentPart(u, w[1..][i])
    {
      assert w[1..][i] == w[i + 1] && IsNameChar(w[i + 1]);
    }
    assert rest != "" ==> !IsIdentPart(u, rest[0]);
    NsqlReading.IdentSpanExact(u, w[1..], rest);
  }

  lemma NameStep(u: Unicode, s: string, n: nat)
    requires s != "" && !IsWhitespace(s[0]) && IsIdentStart(u, s[0]) && n == 1 + IdentSpan(u, s[1..])
    ensures n <= |s| && Lex(u, s) == Before(Word(s[..n]), Lex(u, s[n..]))
  {
  }

  lemma QuoteStep(u: Unicode, s: string, value: string, rest: string)
    requires u.Valid() && s != "" && LexQuoted(s[0], s[1..]) == Some((value, rest))
    ensures s[0] == '\'' ==> Lex(u, s) == Before(Str(value), Lex(u, rest))
    ensures s[0] == '"' || s[0] == '`' ==> Lex(u, s) == Before(Delimited(value), Lex(u, rest))
  {
    hide LexQuoted;
    assert s[0] in {'\'', '"', '`'} ==> !IsWhitespace(s[0]) && !IsIdentStart(u, s[0]) && !IsDigit(s[0]);
  }

  lemma SymbolStep(u: Unicode, s: string, symbol: Symbol, width: nat)
    requires s != "" && !IsWhitespace(s[0]) && !IsIdentStart(u, s[0]) && !IsDigit(s[0]) && s[0] != '\'' && !IsDelimiter(s[0])
    requires s[0] != '-' && s[0] != '/' && LexSymbol(s) == Some((symbol, width))
    ensures width <= |s| && Lex(u, s) == Before(Sym(symbol), Lex(u, s[width..]))
  {
    hide LexSymbol;
  }

  lemma {:induction false} QuotedExact(quote: char, s: string, rest: string)
    requires quote !in s && (rest == "" || rest[0] != quote)
    ensures LexQuoted(quote, s + [quote] + rest) == Some((s, rest))
  {
    var text := s + [quote] + rest;
    if s == "" {
      assert text == [quote] + rest && text[1..] == rest;
      assert |text| > 1 ==> text[1] == rest[0];
    } else {
      assert s[0] in s && text[0] == s[0] && [s[0]] + s[1..] == s;
      assert text[1..] == s[1..] + [quote] + rest;
      assert forall c | c in s[1..] :: c in s;
      QuotedExact(quote, s[1..], rest);
    }
  }

  /** Double quotes and backticks delimit names, whatever characters they hold. */
  lemma QuotedNameLexed(u: Unicode, quote: char, name: string, rest: string)
    requires u.Valid() && (quote == '"' || quote == '`') && quote !in name && (rest == "" || rest[0] != quote)
    ensures Lex(u, [quote] + (name + [quote] + rest)) == Before(Delimited(name), Lex(u, rest))
  {
    hide Lex, LexQuoted;
    var s := [quote] + (name + [quote] + rest);
    assert s[1..] == name + [quote] + rest;
    QuotedExact(quote, name, rest);
    QuoteStep(u, s, name, rest);
  }

  lemma StringLexed(u: Unicode, v: string, rest: string)
    requires u.Valid() && '\'' !in v && (rest == "" || rest[0] != '\'')
    ensures Lex(u, "'" + (v + "'" + rest)) == Before(Str(v), Lex(u, rest))
  {
    hide Lex, LexQuoted;
    var s := "'" + (v + "'" + rest);
    assert s[1..] == v + ['\''] + rest;
    QuotedExact('\'', v, rest);
    QuoteStep(u, s, v, rest);
  }

  lemma SpaceLexed(u: Unicode, rest: string)
    ensures Lex(u, " " + rest) == Lex(u, rest)
  {
    assert (" " + rest)[1..] == rest;
  }

  /** The comparison signs; inequality has two. */
  predicate IsSign(sign: string, operator: FilterOperator) {
    || (sign == "=" && operator == Equals)
    || ((sign == "!=" || sign == "<>") && operator == NotEquals)
    || (sign == ">" && operator == GreaterThan)
    || (sign == "<" && operator == LessThan)
    || (sign == ">=" && operator == GreaterThanOrEqual)
    || (sign == "<=" && operator == LessThanOrEqual)
  }

  lemma SignLexed(u: Unicode, sign: string, operator: FilterOperator, rest: string) returns (symbol: Symbol)
    requires u.Valid() && IsSign(sign, operator)
    ensures Lex(u, sign + (" " + rest)) == Before(Sym(symbol), Lex(u, rest))
    ensures Comparison(symbol).Some? && Comparison(symbol).value != AndOp && Comparison(symbol).value != OrOp
    ensures IsOperator(Comparison(symbol).value, operator)
  {
    var s := sign + (" " + rest);
    symbol := match operator
      case Equals => EqSign
      case NotEquals => NotEqSign
      case GreaterThan => GtSign
      case LessThan => LtSign
      case GreaterThanOrEqual => GtEqSign
      case _ => LtEqSign;
    SignRead(sign, operator, rest, symbol);
    SpaceLexed(u, rest);
    NoLetter(u, sign[0]);
    hide LexSymbol, Lex, IsWhitespace, IsIdentStart, IsDigit, IsDelimiter, IsSign;
    assert s[|sign|..] == " " + rest && s[0] == sign[0];
    SymbolStep(u, s, symbol, |sign|);
  }

  lemma NoLetter(u: Unicode, c: char)
    requires u.Valid() && c in {'=', '!', '<', '>'}
    ensures !IsWhitespace(c) && !IsIdentStart(u, c) && !IsDigit(c) && c != '\'' && !IsDelimiter(c) && c != '-' && c != '/'
  {
  }

  lemma SignRead(sign: string, operator: FilterOperator, rest: string, symbol: Symbol)
    requires IsSign(sign, operator)
    requires symbol == match operator
                       case Equals => EqSign
                       case NotEquals => NotEqSign
                       case GreaterThan => GtSign
                       case LessThan => LtSign
                       case GreaterThanOrEqual => GtEqSign
                       case _ => LtEqSign
    ensures sign != "" && sign[0] in {'=', '!', '<', '>'}
    ensures LexSymbol(sign + (" " + rest)) == Some((symbol, |sign|))
  {
    var s := sign + (" " + rest);
    assert s[..|sign|] == sign && s[|sign|] == ' ';
    if |sign| == 2 { assert sign <= s && s[0] == sign[0] && s[1] == sign[1]; } else { assert s[0] == sign[0] && s[1] == ' '; }
  }

  // ---------------------------------------------------------------- values

  /** A literal in single quotes, or digits. */
  predicate IsLiteral(text: string, value: FilterValue) {
    || (value.String? && '\'' !in value.text && text == "'" + value.text + "'")
    || (value.Number? && text != "" && Decimal.AllDigits(text) && Decimal.DigitsValue(text) == value.number)
  }

  lemma LiteralLexed(u: Unicode, text: string, value: FilterValue) returns (token: Token, e: Expr)
    requires u.Valid() && IsLiteral(text, value)
    ensures Lex(u, text) == Some([token])
    ensures ParsePrefix([token]) == Some((e, [])) && IsValue(e, value) && IsLexed(e)
  {
    assert Lex(u, "") == Some([]);
    hide Lex;
    if value.String? {
      token, e := Str(value.text), StringLit(value.text);
      assert "'" + (value.text + "'" + "") == text;
      StringLexed(u, value.text, "");
    } else {
      token, e := Token.Number(text), NumberLit(text);
      assert text + "" == text;
      NsqlReading.LexNumber(u, text, "");
    }
    assert [token][1..] == [] && [token] + [] == [token];
  }

  // ---------------------------------------------------------------- statements

  /** A condition may stand alone, behind `WHERE`, or behind `SELECT * FROM` a table `WHERE`. */
  datatype Form = Bare | Where(where: string) | Full(select: string, from: string, table: string, where: string)

  /** The words of the form, in any case. */
  predicate IsForm(form: Form) {
    && (!form.Bare? ==> SameLetters(form.where, "WHERE"))
    && (form.Full? ==> SameLetters(form.select, "SELECT") && SameLetters(form.from, "FROM") && IsName(form.table))
  }

  function FormText(form: Form, c: string): string {
    match form
    case Bare => c
    case Where(where) => where + (" " + c)
    case Full(select, from, table, where) =>
      select + (" " + ("* " + (from + (" " + (table + (" " + (where + (" " + c))))))))
  }

  /** The statement handed to the SQL library. */
  function Completed(form: Form): Form {
    match form
    case Bare => Full("SELECT", "FROM", "emails", "WHERE")
    case Where(where) => Full("SELECT", "FROM", "emails", where)
    case Full(_, _, _, _) => form
  }

  lemma LettersAreName(w: string, kw: string)
    requires SameLetters(w, kw) && kw != "" && forall i | 0 <= i < |kw| :: IsAsciiUpper(kw[i])
    ensures IsName(w) && IsWord(Word(w), kw)
  {
    LettersIgnoreCase(w, kw);
    forall i | 0 <= i < |w|
      ensures IsAsciiLetter(w[i])
    {
      assert SameLetter(w[i], kw[i]);
    }
  }

  lemma WordEnds(w: string, rest: string)
    ensures w + (" " + rest) == w + " " + rest && EndsName(" " + rest) && (" " + rest)[1..] == rest
  {
  }

  /** Word, space, rest. */
  lemma WordAndSpaceLexed(u: Unicode, w: string, rest: string)
    requires u.Valid() && IsName(w)
    ensures Lex(u, w + (" " + rest)) == Before(Word(w), Lex(u, rest))
  {
    WordEnds(w, rest);
    NameLexed(u, w, " " + rest);
    SpaceLexed(u, rest);
  }

  lemma StarLexed(u: Unicode, rest: string)
    requires u.Valid()
    ensures Lex(u, "* " + rest) == Before(Sym(Star), Lex(u, rest))
  {
    var s := "* " + rest;
    assert s[0] == '*' && s[1] == ' ' && s[1..] == " " + rest;
    assert LexSymbol(s) == Some((Star, 1));
    SpaceLexed(u, rest);
    StarIsSymbol(u);
    hide LexSymbol, Lex;
    SymbolStep(u, s, Star, 1);
  }

  lemma StarIsSymbol(u: Unicode)
    requires u.Valid()
    ensures !IsWhitespace('*') && !IsIdentStart(u, '*') && !IsDigit('*') && !IsDelimiter('*')
  {
  }

  lemma HeadLexed(u: Unicode, form: Form, rest: string, body: seq<Token>)
    requires u.Valid() && form.Full? && IsForm(form) && Lex(u, rest) == Some(body)
    ensures var ts := [Word(form.select), Sym(Star), Word(form.from), Word(form.table), Word(form.where)];
            && Lex(u, FormText(form, rest)) == Some(ts + body)
            && IsWord(ts[0], "SELECT") && IsWord(ts[2], "FROM") && IsWord(ts[4], "WHERE")
  {
    LettersAreName(form.select, "SELECT");
    LettersAreName(form.from, "FROM");
    LettersAreName(form.where, "WHERE");
    hide Lex, IsName, SameLetters, Unicode.Valid, IsWord;
    var r4 := form.where + (" " + rest);
    var r3 := form.table + (" " + r4);
    var r2 := form.from + (" " + r3);
    WordAndSpaceLexed(u, form.where, rest);
    WordAndSpaceLexed(u, form.table, r4);
    WordAndSpaceLexed(u, form.from, r3);
    StarLexed(u, r2);
    WordAndSpaceLexed(u, form.select, "* " + r2);
    FiveTokens(Word(form.select), Sym(Star), Word(form.from), Word(form.table), Word(form.where), body);
  }

  lemma FiveTokens(a: Token, b: Token, c: Token, d: Token, e: Token, body: seq<Token>)
    ensures [a] + ([b] + ([c] + ([d] + ([e] + body)))) == [a, b, c, d, e] + body
  {
  }

  lemma SelectParsed(ts: seq<Token>, body: seq<Token>, e: Expr)
    requires |ts| == 5 && IsWord(ts[0], "SELECT") && ts[1] == Sym(Star) && IsWord(ts[2], "FROM") && ts[3].Word? && IsWord(ts[4], "WHERE")
    requires body != [] && ParseSub(0, body) == Some((e, []))
    ensures ParseSelect(ts + body) == Some(e)
  {
    hide ParseSub, IsWord;
    assert (ts + body)[5..] == body;
    assert forall i | 0 <= i < 5 :: (ts + body)[i] == ts[i];
  }

  lemma UpperStarts(u: Unicode, w: string, kw: string, rest: string)
    requires u.Valid() && SameLetters(w, kw) && kw != "" && forall i | 0 <= i < |kw| :: IsAsciiUpper(kw[i])
    ensures kw <= u.Upper(w + rest) && u.Upper(w + rest)[0] == kw[0]
  {
    LettersAreName(w, kw);
    assert AllAscii(w);
    UpperAsciiPrefix(u, w, rest);
    UpperSpells(w, kw);
  }

  /** Text that starts like neither statement form. */
  predicate StartsPlain(u: Unicode, text: string) {
    !("SELECT" <= u.Upper(text)) && !("WHERE" <= u.Upper(text))
  }

  lemma WordUpper(u: Unicode, rest: string)
    requires u.Valid()
    ensures forall w | SameLetters(w, "WHERE") :: "WHERE" <= u.Upper(w + rest) && !("SELECT" <= u.Upper(w + rest))
    ensures forall w | SameLetters(w, "SELECT") :: "SELECT" <= u.Upper(w + rest)
  {
    forall w | SameLetters(w, "WHERE")
      ensures "WHERE" <= u.Upper(w + rest) && !("SELECT" <= u.Upper(w + rest))
    {
      UpperStarts(u, w, "WHERE", rest);
    }
    forall w | SameLetters(w, "SELECT")
      ensures "SELECT" <= u.Upper(w + rest)
    {
      UpperStarts(u, w, "SELECT", rest);
    }
  }

  /** Each form is completed to the full one. */
  lemma FormCompleted(u: Unicode, form: Form, c: string)
    requires u.Valid() && IsForm(form) && (form.Bare? ==> StartsPlain(u, c))
    ensures IsForm(Completed(form)) && NsqlRule.FullStatement(u, FormText(form, c)) == FormText(Completed(form), c)
  {
    KnownLetters();
    hide SameLetters, Unicode.Upper, Unicode.Valid, IsName;
    match form {
      case Bare =>
        FullPrefix("WHERE", c);
      case Where(where) =>
        WordUpper(u, " " + c);
        FullPrefix(where, c);
      case Full(select, from, table, where) =>
        WordUpper(u, " " + ("* " + (from + (" " + (table + (" " + (where + (" " + c))))))));
    }
  }

  lemma FullPrefix(where: string, c: string)
    ensures "SELECT * FROM emails " + (where + (" " + c)) == FormText(Full("SELECT", "FROM", "emails", where), c)
    ensures "SELECT * FROM emails WHERE " + c == FormText(Full("SELECT", "FROM", "emails", "WHERE"), c)
  {
    HeadPrefix();
    SevenParts("SELECT", " ", "* ", "FROM", " ", "emails", " ", where + (" " + c));
    SevenParts("SELECT", " ", "* ", "FROM", " ", "emails", " ", "WHERE" + (" " + c));
    assert "SELECT * FROM emails " + ("WHERE" + (" " + c)) == "SELECT * FROM emails " + ("WHERE" + " ") + c;
  }

  lemma HeadPrefix()
    ensures "SELECT" + " " + "* " + "FROM" + " " + "emails" + " " == "SELECT * FROM emails "
    ensures "SELECT * FROM emails " + ("WHERE" + " ") == "SELECT * FROM emails WHERE "
  {
  }

  lemma SevenParts(a: string, b: string, c: string, d: string, e: string, f: string, g: string, rest: string)
    ensures a + (b + (c + (d + (e + (f + (g + rest)))))) == a + b + c + d + e + f + g + rest
  {
  }

  /** Whatever its form, the statement is parsed as its condition is. */
  lemma StatementRead(u: Unicode, text: string, form: Form, c: string, body: seq<Token>, e: Expr)
    requires u.Valid() && IsForm(form) && (form.Bare? ==> StartsPlain(u, c))
    requires Trim(text) != "" && NsqlPreprocess.Preprocess(u, Trim(text)) == FormText(form, c)
    requires Lex(u, c) == Some(body) && body != [] && ParseSub(0, body) == Some((e, []))
    ensures NsqlRule.ParseConditions(u, text) == NsqlConvert.ConvertExpr(u, e, 1)
  {
    hide *;
    FormCompleted(u, form, c);
    var full := Completed(form);
    CompletedIsFull(form);
    HeadLexed(u, full, c, body);
    SelectParsed([Word(full.select), Sym(Star), Word(full.from), Word(full.table), Word(full.where)], body, e);
    ParsedFrom(u, text, FormText(form, c));
  }

  lemma CompletedIsFull(form: Form)
    ensures Completed(form).Full?
  {
  }

  lemma KnownLetters()
    ensures SameLetters("SELECT", "SELECT") && SameLetters("FROM", "FROM") && SameLetters("WHERE", "WHERE") && IsName("emails")
  {
  }

  lemma ParsedFrom(u: Unicode, text: string, preprocessed: string)
    requires Trim(text) != "" && NsqlPreprocess.Preprocess(u, Trim(text)) == preprocessed
    requires Lex(u, NsqlRule.FullStatement(u, preprocessed)).Some?
    requires ParseSelect(Lex(u, NsqlRule.FullStatement(u, preprocessed)).value).Some?
    ensures NsqlRule.ParseConditions(u, text) ==
            NsqlConvert.ConvertExpr(u, ParseSelect(Lex(u, NsqlRule.FullStatement(u, preprocessed)).value).value, 1)
  {
    hide Lex, ParseSelect, NsqlRule.FullStatement, NsqlPreprocess.Preprocess, Trim, NsqlConvert.ConvertExpr;
  }

  // ---------------------------------------------------------------- conditions

  /** A field as it may be written: its name, or its name between double quotes or backticks. */
  predicate IsSpelled(spelled: string, name: string) {
    || (spelled == name && IsName(name))
    || (spelled == "\"" + name + "\"" && '"' !in name)
    || (spelled == "`" + name + "`" && '`' !in name)
  }

  lemma SpelledLexed(u: Unicode, spelled: string, name: string, rest: string) returns (token: Token)
    requires u.Valid() && IsSpelled(spelled, name) && EndsName(rest) && (rest == "" || rest[0] == ' ')
    ensures token == Word(name) || token == Delimited(name)
    ensures Lex(u, spelled + rest) == Before(token, Lex(u, rest))
  {
    hide Lex;
    if spelled == name && IsName(name) {
      token := Word(name);
      NameLexed(u, name, rest);
    } else {
      token := Delimited(name);
      var quote := spelled[0];
      assert spelled + rest == [quote] + (name + [quote] + rest);
      QuotedNameLexed(u, quote, name, rest);
    }
  }

  /** No field is called like a keyword or starts like a statement. */
  lemma FieldIsPlain(name: string, field: FilterField)
    requires IsField(Identifier(name), field)
    ensures !SameIgnoreCase(name, "NOT") && !SameIgnoreCase(name, "TRUE") && !SameIgnoreCase(name, "FALSE")
    ensures |name| > 1 && IsAsciiLetter(name[0])
    ensures SameLetter(name[0], 's') ==> SameLetter(name[1], 'u') || SameLetter(name[1], 'i') || (|name| > 2 && SameLetter(name[2], 'n'))
    ensures !SameLetter(name[0], 'w')
  {
    LettersIgnoreCase(name, "NOT");
    LettersIgnoreCase(name, "TRUE");
    LettersIgnoreCase(name, "FALSE");
    if |name| >= 8 && name[..8] == "header__" {
      assert name[0] == 'h' && name[1] == 'e';
    }
  }

  lemma NamePlain(u: Unicode, spelled: string, name: string, field: FilterField, rest: string)
    requires u.Valid() && IsField(Identifier(name), field) && IsSpelled(spelled, name) && AllAscii(name)
    ensures StartsPlain(u, spelled + rest)
  {
    FieldIsPlain(name, field);
    assert AllAscii(spelled) && |spelled| > 1;
    UpperAsciiPrefix(u, spelled, rest);
    var upper := u.Upper(spelled + rest);
    hide Unicode.Upper, IsField, Unicode.Valid, SameIgnoreCase, IsName;
    assert upper[..|spelled|] == AsciiUpper(spelled);
    if spelled == name { NamesDiffer(spelled, upper); } else { assert upper[0] == spelled[0]; }
  }

  lemma NamesDiffer(name: string, upper: string)
    requires |name| > 1 && |name| <= |upper| && upper[..|name|] == AsciiUpper(name) && IsAsciiLetter(name[0])
    requires SameLetter(name[0], 's') ==> SameLetter(name[1], 'u') || SameLetter(name[1], 'i') || (|name| > 2 && SameLetter(name[2], 'n'))
    requires !SameLetter(name[0], 'w')
    ensures !("SELECT" <= upper) && !("WHERE" <= upper)
  {
    assert upper[0] == UpperChar(name[0]) && upper[1] == UpperChar(name[1]);
    assert |name| > 2 ==> upper[2] == UpperChar(name[2]);
  }

  /** Identifier, operator, literal. */
  lemma ComparisonParsed(name: Token, symbol: Symbol, token: Token, e: Expr)
    requires (name.Word? && !SameIgnoreCase(name.text, "NOT") && !SameIgnoreCase(name.text, "TRUE") && !SameIgnoreCase(name.text, "FALSE"))
             || name.Delimited?
    requires Comparison(symbol).Some? && ParsePrefix([token]) == Some((e, []))
    ensures ParseSub(0, [name, Sym(symbol), token]) ==
            Some((Binary(Comparison(symbol).value, Identifier(if name.Word? then name.text else name.name), e), []))
  {
    var ts := [name, Sym(symbol), token];
    var rest := ts[1..];
    assert rest == [Sym(symbol), token] && rest[1..] == [token];
    hide SameIgnoreCase;
    var left := Identifier(if name.Word? then name.text else name.name);
    assert symbol != LParen;
    assert ParsePrefix(ts) == Some((left, rest));
    RightParsed(token, e);
    assert Precedence(rest) == COMPARE_PRECEDENCE;
    assert ParseInfix(left, COMPARE_PRECEDENCE, rest) == Some((Binary(Comparison(symbol).value, left, e), []));
    assert Climb(0, Binary(Comparison(symbol).value, left, e), []) == Some((Binary(Comparison(symbol).value, left, e), []));
  }

  lemma RightParsed(token: Token, e: Expr)
    requires ParsePrefix([token]) == Some((e, []))
    ensures ParseSub(COMPARE_PRECEDENCE, [token]) == Some((e, []))
  {
    hide ParsePrefix;
    assert Precedence([]) == 0;
  }

  /** A field, a sign and a literal are that condition, whatever the case and spelling of the field's name, in any
      form of statement. */
  lemma ComparisonRead(u: Unicode, text: string, form: Form, spelled: string, name: string, field: FilterField,
                       sign: string, operator: FilterOperator, literal: string, value: FilterValue)
    requires u.Valid() && IsForm(form) && IsSpelled(spelled, name) && AllAscii(name) && IsField(Identifier(name), field)
    requires IsSign(sign, operator) && IsLiteral(literal, value)
    requires Trim(text) != "" && NsqlPreprocess.Preprocess(u, Trim(text)) == FormText(form, spelled + (" " + (sign + (" " + literal))))
    ensures NsqlRule.ParseConditions(u, text) == Ok(Leaf(ConditionLeaf(field, operator, value)))
  {
    hide *;
    var body, e, op := ComparisonTokens(u, spelled, name, field, sign, operator, literal, value);
    NamePlain(u, spelled, name, field, " " + (sign + (" " + literal)));
    StatementRead(u, text, form, spelled + (" " + (sign + (" " + literal))), body, Binary(op, Identifier(name), e));
    ComparisonConverted(u, op, name, e, ConditionLeaf(field, operator, value));
  }

  lemma ComparisonTokens(u: Unicode, spelled: string, name: string, field: FilterField,
                         sign: string, operator: FilterOperator, literal: string, value: FilterValue)
    returns (body: seq<Token>, e: Expr, op: BinaryOp)
    requires u.Valid() && IsSpelled(spelled, name) && IsField(Identifier(name), field) && IsSign(sign, operator) && IsLiteral(literal, value)
    ensures body != [] && Lex(u, spelled + (" " + (sign + (" " + literal)))) == Some(body)
    ensures ParseSub(0, body) == Some((Binary(op, Identifier(name), e), []))
    ensures op != AndOp && op != OrOp && IsOperator(op, operator) && IsValue(e, value) && IsLexed(e)
  {
    hide *;
    var rest := sign + (" " + literal);
    FieldIsPlain(name, field);
    BlankEnds(rest);
    var first := SpelledLexed(u, spelled, name, " " + rest);
    SpaceLexed(u, rest);
    var symbol := SignLexed(u, sign, operator, literal);
    var token;
    token, e := LiteralLexed(u, literal, value);
    ComparisonParsed(first, symbol, token, e);
    ThreeTokens(first, Sym(symbol), token);
    body, op := [first, Sym(symbol), token], Comparison(symbol).value;
  }

  lemma BlankEnds(rest: string)
    ensures EndsName(" " + rest) && (" " + rest)[0] == ' '
  {
  }

  lemma ThreeTokens(a: Token, b: Token, c: Token)
    ensures Before(a, Before(b, Some([c]))) == Some([a, b, c])
  {
    assert [b] + [c] == [b, c] && [a] + [b, c] == [a, b, c];
  }

  lemma ComparisonConverted(u: Unicode, op: BinaryOp, name: string, e: Expr, leaf: ConditionLeaf)
    requires u.Valid() && op != AndOp && op != OrOp && AllAscii(name) && IsLexed(e)
    requires IsField(Identifier(name), leaf.field) && IsOperator(op, leaf.operator) && IsValue(e, leaf.value)
    ensures NsqlConvert.ConvertExpr(u, Binary(op, Identifier(name), e), 1) == Ok(Leaf(leaf))
  {
    hide IsField, IsValue, NsqlConvert.ConvertCondition, IsOperator;
    ConditionsAreExact(u, Binary(op, Identifier(name), e), leaf);
  }

  /** The name of a field alone asks for its flag. */
  lemma BareFieldRead(u: Unicode, text: string, form: Form, spelled: string, name: string, field: FilterField)
    requires u.Valid() && IsForm(form) && IsSpelled(spelled, name) && AllAscii(name) && Names(name, field)
    requires Trim(text) != "" && NsqlPreprocess.Preprocess(u, Trim(text)) == FormText(form, spelled)
    ensures NsqlRule.ParseConditions(u, text) == Ok(Leaf(ConditionLeaf(field, Equals, Boolean(true))))
  {
    NamedIsField(name, field);
    hide *;
    var token := OneToken(u, spelled, name, field);
    NamePlain(u, spelled, name, field, "");
    NothingBehind(spelled);
    StatementRead(u, text, form, spelled, [token], Identifier(name));
    FlagConverted(u, name, field);
  }

  lemma NamedIsField(name: string, field: FilterField)
    requires Names(name, field)
    ensures IsField(Identifier(name), field)
  {
    if |name| >= 8 {
      assert name[0] == name[..8][0] && name[1] == name[..8][1] && name[2] == name[..8][2];
      assert "header__"[0] == 'h' && "header__"[1] == 'e';
      assert !SameLetter('e', 'a') && !SameLetter('h', 'a');
      assert name[6] == name[..8][6] == name[..7][6] && "header__"[6] == '_' && "header["[6] == '[';
    }
  }

  lemma NothingBehind(s: string)
    ensures s + "" == s && EndsName("")
  {
  }

  lemma OneToken(u: Unicode, spelled: string, name: string, field: FilterField) returns (token: Token)
    requires u.Valid() && IsSpelled(spelled, name) && IsField(Identifier(name), field)
    ensures Lex(u, spelled) == Some([token]) && ParseSub(0, [token]) == Some((Identifier(name), []))
  {
    FieldIsPlain(name, field);
    NothingBehind(spelled);
    token := SpelledLexed(u, spelled, name, "");
    assert Lex(u, "") == Some([]) && [token] + [] == [token];
    hide Lex, IsField, SameIgnoreCase;
    assert [token][1..] == [] && Precedence([]) == 0;
    assert ParsePrefix([token]) == Some((Identifier(name), []));
  }

  lemma FlagConverted(u: Unicode, name: string, field: FilterField)
    requires u.Valid() && AllAscii(name) && Names(name, field)
    ensures NsqlConvert.ConvertExpr(u, Identifier(name), 1) == Ok(Leaf(ConditionLeaf(field, Equals, Boolean(true))))
  {
    hide Names, NsqlConvert.ConvertCondition;
    ConditionsAreExact(u, Identifier(name), ConditionLeaf(field, Equals, Boolean(true)));
  }

  // ---------------------------------------------------------------- header fields

  /** `header['KEY']`, the word in any case, with whitespace anywhere between its parts. */
  predicate IsHeaderText(text: string, word: string, g: string, h: string, key: string, k: string) {
    && text == word + (g + ("[" + (h + ("'" + (key + ['\''] + (k + "]"))))))
    && SameLetters(word, "header") && key != "" && '\'' !in key
    && (forall c | c in g :: IsWhitespace(c)) && (forall c | c in h :: IsWhitespace(c)) && (forall c | c in k :: IsWhitespace(c))
  }

  lemma {:induction false} GapSkipped(gap: string, rest: string)
    requires (forall c | c in gap :: IsWhitespace(c)) && rest != "" && !IsWhitespace(rest[0])
    ensures TrimStart(gap + rest) == rest
  {
    if gap == "" {
      assert gap + rest == rest;
    } else {
      assert gap[0] in gap && forall c | c in gap[1..] :: c in gap;
      assert (gap + rest)[1..] == gap[1..] + rest;
      GapSkipped(gap[1..], rest);
    }
  }

  lemma Skipped(gap: string, c: char, rest: string)
    requires (forall d | d in gap :: IsWhitespace(d)) && c in {'[', '\'', ']'}
    ensures TrimStart(gap + ([c] + rest)) == [c] + rest && ([c] + rest)[1..] == rest
  {
    GapSkipped(gap, [c] + rest);
  }

  lemma QuoteBehind(key: string, rest: string)
    requires '\'' !in key
    ensures var b := key + ['\''] + rest;
            IndexOf(b, '\'') == |key| && |b| > |key| && b[..|key|] == key && b[|key| + 1..] == rest
  {
    var b := key + ['\''] + rest;
    IndexOfConcat(key, '\'', rest);
    assert b[..|key|] == key && b[|key| + 1..] == rest;
  }

  lemma HeaderMatched(text: string, word: string, g: string, h: string, key: string, k: string, tail: string)
    requires IsHeaderText(text, word, g, h, key, k)
    ensures NsqlPreprocess.HeaderMatch(text + tail) == Some((key, tail))
  {
    var s := text + tail;
    var behind := k + ("]" + tail);
    var quoted := key + ['\''] + behind;
    HeaderParts(text, word, g, h, key, k, tail);
    LettersIgnoreCase(word, "header");
    hide IndexOf, IsWhitespace, SameLetters, SameIgnoreCase, TrimStart;
    Skipped(g, '[', h + ("'" + quoted));
    Skipped(h, '\'', quoted);
    QuoteBehind(key, behind);
    Skipped(k, ']', tail);
  }

  lemma HeaderParts(text: string, word: string, g: string, h: string, key: string, k: string, tail: string)
    requires IsHeaderText(text, word, g, h, key, k)
    ensures var quoted := key + ['\''] + (k + ("]" + tail));
            && |text + tail| >= 6 && (text + tail)[..6] == word
            && (text + tail)[6..] == g + ("[" + (h + ("'" + quoted)))
  {
    var quoted := key + ['\''] + (k + ("]" + tail));
    assert text + tail == word + (g + ("[" + (h + ("'" + quoted))));
    assert |word| == 6;
  }

  /** A header field is rewritten to an identifier, its dashes to underscores. */
  lemma HeaderRewritten(text: string, word: string, g: string, h: string, key: string, k: string, tail: string)
    requires IsHeaderText(text, word, g, h, key, k)
    ensures NsqlPreprocess.ReplaceHeaders(text + tail) == "header__" + ReplaceChar(key, '-', '_') + NsqlPreprocess.ReplaceHeaders(tail)
  {
    HeaderMatched(text, word, g, h, key, k, tail);
    hide NsqlPreprocess.HeaderMatch;
    assert text != "" by { hide SameLetters; }
  }

  /** `header['X-Name']` names the header, dashes and underscores both read as dashes; a header's name is made of the
      characters of names. */
  lemma HeaderRead(u: Unicode, text: string, head: string, word: string, g: string, h: string, key: string, k: string,
                   header: string, sign: string, operator: FilterOperator, literal: string, value: FilterValue)
    requires u.Valid() && IsHeaderText(head, word, g, h, key, k) && IsSign(sign, operator) && IsLiteral(literal, value)
    requires forall i | 0 <= i < |key| :: IsNameChar(key[i])
    requires |header| == |key| && forall i | 0 <= i < |key| :: header[i] == if key[i] == '_' then '-' else key[i]
    requires Trim(text) == head + (" " + (sign + (" " + literal)))
    requires var rewritten := "header__" + ReplaceChar(key, '-', '_') + (" " + (sign + (" " + literal)));
             && NsqlPreprocess.ReplaceHeaders(" " + (sign + (" " + literal))) == " " + (sign + (" " + literal))
             && NsqlPreprocess.RewriteWords(u, rewritten) == rewritten
    ensures NsqlRule.ParseConditions(u, text) == Ok(Leaf(ConditionLeaf(Header(header), operator, value)))
  {
    hide *;
    var tail := " " + (sign + (" " + literal));
    var name := "header__" + ReplaceChar(key, '-', '_');
    HeaderRewritten(head, word, g, h, key, k, tail);
    HeaderIsField(key, header);
    Preprocessed(u, Trim(text), name + tail);
    BlankInside(head, tail);
    BareForm(name + tail);
    ComparisonRead(u, text, Bare, name, name, Header(header), sign, operator, literal, value);
  }

  lemma BlankInside(head: string, rest: string)
    requires rest != ""
    ensures head + rest != ""
  {
    assert |head + rest| > 0;
  }

  lemma BareForm(c: string)
    ensures IsForm(Bare) && FormText(Bare, c) == c
  {
  }

  lemma Preprocessed(u: Unicode, s: string, rewritten: string)
    requires NsqlPreprocess.ReplaceHeaders(s) == rewritten && NsqlPreprocess.RewriteWords(u, rewritten) == rewritten
    ensures NsqlPreprocess.Preprocess(u, s) == rewritten
  {
  }

  /** The rewrites take the long s for an S. */
  lemma LongSRewritten(u: Unicode)
    requires u.Valid()
    ensures NsqlPreprocess.ReplaceWord(u, false, "CONTAIN\U{17F}", NsqlPreprocess.CONTAINS_WORD, "LIKE") == "LIKE"
  {
    var s := "CONTAIN\U{17F}";
    assert s[8..] == "" && NsqlPreprocess.WordHere(u, s, NsqlPreprocess.CONTAINS_WORD);
    assert "LIKE" + "" == "LIKE";
  }

  lemma HeaderIsField(key: string, header: string)
    requires forall i | 0 <= i < |key| :: IsNameChar(key[i])
    requires |header| == |key| && forall i | 0 <= i < |key| :: header[i] == if key[i] == '_' then '-' else key[i]
    ensures var name := "header__" + ReplaceChar(key, '-', '_');
            IsName(name) && AllAscii(name) && IsSpelled(name, name) && IsField(Identifier(name), Header(header))
  {
    var (k, name) := (ReplaceChar(key, '-', '_'), "header__" + ReplaceChar(key, '-', '_'));
    assert name[..8] == "header__" && name[8..] == k;
    forall i | 0 <= i < |name|
      ensures IsNameChar(name[i]) && IsAscii(name[i])
    {
      if i < 8 { assert name[i] == "header__"[i]; } else { assert name[i] == k[i - 8]; }
    }
  }
}
