/** Which SQL expressions are conditions, and which condition each one is: field names and their aliases, header names,
    operators, values. */
module NsqlFields {
  import opened Wrappers
  import opened Text
  import Decimal
  import opened NsqlAst
  import opened NsqlActions
  import opened SqlSubset
  import opened NsqlConvert

  // ---------------------------------------------------------------- fields

  predicate AreAll(s: string, c: char) { forall i | 0 <= i < |s| :: s[i] == c }

  /** The text in a run of such characters on each side, none of which it has at its own ends. */
  ghost predicate IsStripped(s: string, c: char, t: string) {
    exists a, b | AreAll(a, c) && AreAll(b, c) :: s == a + (t + b) && (t == "" || (t[0] != c && t[|t| - 1] != c))
  }

  /** A key between brackets, less the single quotes at its ends and the double quotes inside these. */
  ghost predicate IsBracketed(name: string, header: string) {
    && |name| >= 8 && SameLetters(name[..7], "header[") && name[|name| - 1] == ']'
    && exists inner :: IsStripped(name[7..|name| - 1], '\'', inner) && IsStripped(inner, '"', header)
  }

  /** The names of the fields, in any case; a name between quotes may also be `header[KEY]`. */
  ghost predicate Names(name: string, field: FilterField) {
    match field
    case Subject => SameLetters(name, "subject")
    case From => SameLetters(name, "from") || SameLetters(name, "sender")
    case To => SameLetters(name, "to") || SameLetters(name, "recipient")
    case Body => SameLetters(name, "body")
    case HasAttachment =>
      SameLetters(name, "has_attachment") || SameLetters(name, "has_attachments") || SameLetters(name, "attachment")
    case Size => SameLetters(name, "size")
    case Folder => SameLetters(name, "folder")
    case Date => SameLetters(name, "date") || SameLetters(name, "received_at")
    case Account => SameLetters(name, "account") || SameLetters(name, "account_id")
    case Header(header) => IsBracketed(name, header)
  }

  lemma {:induction false} StartSkips(a: string, t: string, c: char)
    requires AreAll(a, c) && (t == "" || t[0] != c)
    ensures TrimCharStart(a + t, c) == t
  {
    if a == "" {
      assert a + t == t;
    } else {
      assert (a + t)[1..] == a[1..] + t;
      StartSkips(a[1..], t, c);
    }
  }

  lemma {:induction false} EndSkips(t: string, b: string, c: char)
    requires AreAll(b, c) && (t == "" || t[|t| - 1] != c)
    ensures TrimCharEnd(t + b, c) == t
  {
    if b == "" {
      assert t + b == t;
    } else {
      assert (t + b)[..|t + b| - 1] == t + b[..|b| - 1];
      EndSkips(t, b[..|b| - 1], c);
    }
  }

  lemma {:induction false} StartParts(s: string, c: char) returns (a: string)
    ensures AreAll(a, c) && s == a + TrimCharStart(s, c)
    ensures TrimCharStart(s, c) == "" || TrimCharStart(s, c)[0] != c
  {
    if s == "" || s[0] != c {
      a := "";
    } else {
      var rest := StartParts(s[1..], c);
      a := [c] + rest;
      assert s == [c] + s[1..];
    }
  }

  lemma {:induction false} EndParts(s: string, c: char) returns (b: string)
    ensures AreAll(b, c) && s == TrimCharEnd(s, c) + b
    ensures TrimCharEnd(s, c) == "" || TrimCharEnd(s, c)[|TrimCharEnd(s, c)| - 1] != c
  {
    if s == "" || s[|s| - 1] != c {
      b := "";
      assert s + b == s;
    } else {
      var rest := EndParts(s[..|s| - 1], c);
      b := rest + [c];
      assert s == s[..|s| - 1] + [c];
    }
  }

  /** Stripping is what trimming one character from both ends does. */
  lemma StrippedIsTrimmed(s: string, c: char, t: string)
    ensures IsStripped(s, c, t) <==> TrimChar(s, c) == t
  {
    var a := StartParts(s, c);
    var middle := TrimCharStart(s, c);
    var b := EndParts(middle, c);
    if TrimChar(s, c) == t {
      assert s == a + (t + b);
      assert t != "" ==> middle[0] == t[0];
    }
    if IsStripped(s, c, t) {
      var x, y :| AreAll(x, c) && AreAll(y, c) && s == x + (t + y) && (t == "" || (t[0] != c && t[|t| - 1] != c));
      if t == "" {
        assert s == (x + y) + "" && AreAll(x + y, c);
        StartSkips(x + y, "", c);
        assert TrimCharEnd("", c) == "";
      } else {
        StartSkips(x, t + y, c);
        EndSkips(t, y, c);
      }
    }
  }

  lemma BracketsRead(name: string, header: string)
    requires |name| >= 8
    ensures (exists inner :: IsStripped(name[7..|name| - 1], '\'', inner) && IsStripped(inner, '"', header)) <==>
            Unwrap(name[7..|name| - 1]) == header
  {
    var key := name[7..|name| - 1];
    forall inner
      ensures IsStripped(key, '\'', inner) <==> TrimChar(key, '\'') == inner
      ensures IsStripped(inner, '"', header) <==> TrimChar(inner, '"') == header
    {
      StrippedIsTrimmed(key, '\'', inner);
      StrippedIsTrimmed(inner, '"', header);
    }
    hide IsStripped, TrimChar;
  }

  /** The first branch of the parser: a name of that shape. */
  lemma BracketShape(name: string)
    ensures "header[" <= AsciiLower(name) && EndsInBracket(AsciiLower(name)) && |name| >= 8 <==>
            |name| >= 8 && SameLetters(name[..7], "header[") && name[|name| - 1] == ']'
  {
    if |name| >= 8 {
      assert AsciiLower(name)[..7] == AsciiLower(name[..7]);
      LowerSpells(name[..7], "header[");
      assert AsciiLower(name)[|name| - 1] == LowerChar(name[|name| - 1]);
    }
  }

  /** Text in lower case spells a word without capitals exactly when it is that word in any case. */
  lemma LowerSpells(s: string, word: string)
    requires forall i | 0 <= i < |word| :: !IsAsciiUpper(word[i])
    ensures AsciiLower(s) == word <==> SameLetters(s, word)
  {
    forall i | 0 <= i < |s| && |s| == |word|
      ensures LowerChar(s[i]) == word[i] <==> SameLetter(s[i], word[i])
    {
    }
    hide LowerChar, SameLetter;
  }

  lemma TextNames()
    ensures FieldOf("subject") == Some(Subject)
    ensures FieldOf("from") == Some(From)
    ensures FieldOf("sender") == Some(From)
    ensures FieldOf("to") == Some(To)
    ensures FieldOf("recipient") == Some(To)
  {
  }

  lemma AttachmentNames()
    ensures FieldOf("body") == Some(Body)
    ensures FieldOf("has_attachment") == Some(HasAttachment)
    ensures FieldOf("has_attachments") == Some(HasAttachment)
    ensures FieldOf("attachment") == Some(HasAttachment)
    ensures FieldOf("size") == Some(Size)
  {
  }

  lemma OtherNames()
    ensures FieldOf("folder") == Some(Folder)
    ensures FieldOf("date") == Some(Date)
    ensures FieldOf("received_at") == Some(Date)
    ensures FieldOf("account") == Some(Account)
    ensures FieldOf("account_id") == Some(Account)
  {
  }

  lemma OnlyNames(lower: string, field: FilterField)
    requires FieldOf(lower) == Some(field)
    ensures match field {
              case Subject => lower == "subject"
              case From => lower == "from" || lower == "sender"
              case To => lower == "to" || lower == "recipient"
              case Body => lower == "body"
              case HasAttachment => lower == "has_attachment" || lower == "has_attachments" || lower == "attachment"
              case Size => lower == "size"
              case Folder => lower == "folder"
              case Date => lower == "date" || lower == "received_at"
              case Account => lower == "account" || lower == "account_id"
              case Header(_) => false
            }
  {
  }

  /** The parser knows these names and no others. */
  lemma FieldNames(u: Unicode, name: string, field: FilterField)
    requires u.Valid() && AllAscii(name)
    ensures ParseField(u, name) == Some(field) <==> Names(name, field)
  {
    assert u.lower(name) == AsciiLower(name);
    BracketShape(name);
    if Names(name, field) && !field.Header? { NotBracketed(name, field); }
    if !field.Header? { NamesSpelled(name, field); }
    TextNames();
    AttachmentNames();
    OtherNames();
    hide FieldOf, AsciiLower, SameLetters, Unicode.Valid, AllAscii, Unwrap, IsStripped, EndsInBracket;
    if |name| >= 8 && field.Header? { BracketsRead(name, field.name); }
    if FieldOf(AsciiLower(name)) == Some(field) { OnlyNames(AsciiLower(name), field); }
    hide Names;
  }

  /** None of the plain names has that shape. */
  lemma NotBracketed(name: string, field: FilterField)
    requires Names(name, field) && !field.Header?
    ensures !(|name| >= 8 && SameLetters(name[..7], "header[") && name[|name| - 1] == ']')
  {
  }

  lemma NamesSpelled(name: string, field: FilterField)
    requires !field.Header?
    ensures var lower := AsciiLower(name);
            Names(name, field) <==>
            match field {
              case Subject => lower == "subject"
              case From => lower == "from" || lower == "sender"
              case To => lower == "to" || lower == "recipient"
              case Body => lower == "body"
              case HasAttachment => lower == "has_attachment" || lower == "has_attachments" || lower == "attachment"
              case Size => lower == "size"
              case Folder => lower == "folder"
              case Date => lower == "date" || lower == "received_at"
              case Account => lower == "account" || lower == "account_id"
              case Header(_) => true
            }
  {
    match field {
      case Subject =>
        LowerSpells(name, "subject");
      case From =>
        LowerSpells(name, "from");
        LowerSpells(name, "sender");
      case To =>
        LowerSpells(name, "to");
        LowerSpells(name, "recipient");
      case Body =>
        LowerSpells(name, "body");
      case HasAttachment =>
        LowerSpells(name, "has_attachment");
        LowerSpells(name, "has_attachments");
        LowerSpells(name, "attachment");
      case Size =>
        LowerSpells(name, "size");
      case Folder =>
        LowerSpells(name, "folder");
      case Date =>
        LowerSpells(name, "date");
        LowerSpells(name, "received_at");
      case Account =>
        LowerSpells(name, "account");
        LowerSpells(name, "account_id");
      case Header(_) =>
    }
    hide AsciiLower, SameLetters;
  }

  /** A header name is read with its underscores as dashes. */
  predicate NamesHeader(key: string, header: string) {
    |header| == |key| && forall i | 0 <= i < |key| :: header[i] == if key[i] == '_' then '-' else key[i]
  }

  /** The expression stands for the field: one of its names, or `header__` and a header's name. */
  ghost predicate IsField(e: Expr, field: FilterField) {
    e.Identifier? &&
    if |e.name| >= 8 && e.name[..8] == "header__" then field.Header? && NamesHeader(e.name[8..], field.name)
    else Names(e.name, field)
  }

  lemma FieldsAreExact(u: Unicode, e: Expr, field: FilterField)
    requires u.Valid() && (e.Identifier? ==> AllAscii(e.name))
    ensures ExtractField(u, e) == Ok(field) <==> IsField(e, field)
  {
    if e.Identifier? {
      FieldNames(u, e.name, field);
      hide Names, ParseField;
      if HEADER_PREFIX <= e.name {
        assert e.name[..8] == "header__";
        HeaderNames(e.name[8..], field);
      }
    }
  }

  lemma HeaderNames(key: string, field: FilterField)
    ensures field == Header(ReplaceChar(key, '_', '-')) <==> field.Header? && NamesHeader(key, field.name)
  {
  }

  // ---------------------------------------------------------------- values

  /** A string or an identifier stands for its text. */
  predicate IsText(e: Expr, s: string) { e == StringLit(s) || e == Identifier(s) }

  /** The items are the texts among the elements, in order; other elements are left out. */
  predicate AreTexts(es: seq<Expr>, items: seq<string>, at: seq<nat>) {
    && |at| == |items|
    && (forall k | 0 <= k < |at| :: at[k] < |es| && IsText(es[at[k]], items[k]))
    && Rising(at)
    && forall i | 0 <= i < |es| && (es[i].StringLit? || es[i].Identifier?) :: i in at
  }

  ghost predicate IsValue(e: Expr, value: FilterValue) {
    match e
    case StringLit(s) => value == String(s)
    case NumberLit(d) => value.Number? && d != "" && Decimal.AllDigits(d) && value.number == Decimal.DigitsValue(d)
    case BoolLit(b) => value == Boolean(b)
    case Identifier(n) =>
      if SameLetters(n, "true") then value == Boolean(true)
      else if SameLetters(n, "false") then value == Boolean(false)
      else value == String(n)
    case TupleOf(es) => value.List? && exists at :: AreTexts(es, value.items, at)
    case _ => false
  }

  lemma {:induction false} TupleTexts(es: seq<Expr>) returns (at: seq<nat>)
    ensures AreTexts(es, TupleStrings(es), at)
  {
    if es == [] {
      at := [];
    } else {
      var rest := TupleTexts(es[1..]);
      at := TextsInFront(es, TupleStrings(es[1..]), rest);
    }
  }

  lemma TextsInFront(es: seq<Expr>, items: seq<string>, rest: seq<nat>) returns (at: seq<nat>)
    requires es != [] && AreTexts(es[1..], items, rest)
    ensures AreTexts(es, (match es[0] case StringLit(s) => [s] case Identifier(n) => [n] case _ => []) + items, at)
  {
    var shifted := TextsBehind(es, items, rest);
    hide AreTexts;
    match es[0] {
      case StringLit(s) =>
        at := TextFirst(es, s, items, shifted);
      case Identifier(s) =>
        at := TextFirst(es, s, items, shifted);
      case _ =>
        at := shifted;
        assert [] + items == items;
        NoTextFirst(es, items, shifted);
    }
  }

  /** The positions of the texts behind the first element. */
  predicate TailTexts(es: seq<Expr>, items: seq<string>, at: seq<nat>) {
    && |at| == |items|
    && (forall k | 0 <= k < |at| :: 0 < at[k] < |es| && IsText(es[at[k]], items[k]))
    && Rising(at)
    && forall i | 0 < i < |es| && (es[i].StringLit? || es[i].Identifier?) :: i in at
  }

  lemma TextsBehind(es: seq<Expr>, items: seq<string>, rest: seq<nat>) returns (shifted: seq<nat>)
    requires es != [] && AreTexts(es[1..], items, rest)
    ensures TailTexts(es, items, shifted)
  {
    var tail := es[1..];
    assert |tail| == |es| - 1 && forall i | 0 < i < |es| :: tail[i - 1] == es[i];
    shifted := seq(|rest|, k requires 0 <= k < |rest| => rest[k] + 1);
    ShiftedMembers(rest, shifted);
    hide IsText;
  }

  lemma ShiftedMembers(rest: seq<nat>, shifted: seq<nat>)
    requires |shifted| == |rest| && forall k | 0 <= k < |rest| :: shifted[k] == rest[k] + 1
    ensures forall i: nat | i > 0 && i - 1 in rest :: i in shifted
  {
    forall i: nat | i > 0 && i - 1 in rest
      ensures i in shifted
    {
      var k :| 0 <= k < |rest| && rest[k] == i - 1;
      assert shifted[k] == i;
    }
  }

  lemma TextFirst(es: seq<Expr>, s: string, items: seq<string>, shifted: seq<nat>) returns (at: seq<nat>)
    requires es != [] && IsText(es[0], s) && TailTexts(es, items, shifted)
    ensures AreTexts(es, [s] + items, at)
  {
    at := [0] + shifted;
    hide IsText, Rising;
    ZeroFirst(shifted);
    forall k | 0 <= k < |at|
      ensures at[k] < |es| && IsText(es[at[k]], ([s] + items)[k])
    {
      if k > 0 { assert at[k] == shifted[k - 1] && ([s] + items)[k] == items[k - 1]; }
    }
  }

  lemma ZeroFirst(s: seq<nat>)
    requires Rising(s) && forall k | 0 <= k < |s| :: s[k] > 0
    ensures Rising([0] + s) && forall i: nat | i == 0 || i in s :: i in [0] + s
  {
    assert ([0] + s)[0] == 0;
  }

  lemma NoTextFirst(es: seq<Expr>, items: seq<string>, shifted: seq<nat>)
    requires es != [] && !es[0].StringLit? && !es[0].Identifier? && TailTexts(es, items, shifted)
    ensures AreTexts(es, items, shifted)
  {
    hide IsText;
  }

  predicate Rising(s: seq<nat>) { forall j, k | 0 <= j < k < |s| :: s[j] < s[k] }

  lemma BehindFirst(s: seq<nat>, x: nat)
    requires s != [] && Rising(s)
    ensures Rising(s[1..]) && (x in s[1..] <==> x in s && x != s[0])
    ensures x in s ==> s[0] <= x
  {
    assert s == [s[0]] + s[1..];
    assert forall k | 0 <= k < |s[1..]| :: s[1..][k] == s[k + 1] > s[0];
  }

  /** Positions in order with the same members are the same. */
  lemma {:induction false} SamePositions(a: seq<nat>, b: seq<nat>)
    requires Rising(a) && Rising(b) && forall i: nat :: i in a <==> i in b
    ensures a == b
  {
    hide Rising;
    assert b != [] ==> b[0] in b;
    if a == [] {
    } else {
      assert a[0] in a && a[0] in b && b[0] in a;
      BehindFirst(a, b[0]);
      BehindFirst(b, a[0]);
      var c, d := a[1..], b[1..];
      forall i: nat
        ensures i in c <==> i in d
      {
        BehindFirst(a, i);
        BehindFirst(b, i);
      }
      SamePositions(c, d);
      assert a == [a[0]] + c && b == [b[0]] + d;
    }
  }

  lemma TextsAreOne(es: seq<Expr>, a: seq<string>, at: seq<nat>, b: seq<string>, bt: seq<nat>)
    requires AreTexts(es, a, at) && AreTexts(es, b, bt)
    ensures a == b
  {
    forall i: nat
      ensures i in at <==> i in bt
    {
      if i in at { var k :| 0 <= k < |at| && at[k] == i; assert IsText(es[i], a[k]); }
      if i in bt { var k :| 0 <= k < |bt| && bt[k] == i; assert IsText(es[i], b[k]); }
    }
    SamePositions(at, bt);
    forall k | 0 <= k < |at|
      ensures a[k] == b[k]
    {
      assert IsText(es[at[k]], a[k]) && IsText(es[at[k]], b[k]);
    }
  }

  /** Numerals are digits, as the lexer makes them. */
  predicate IsLexed(e: Expr) {
    && (e.Identifier? ==> AllAscii(e.name))
    && (e.NumberLit? ==> Decimal.AllDigits(e.digits))
  }

  lemma ValuesAreExact(u: Unicode, e: Expr, value: FilterValue)
    requires u.Valid() && IsLexed(e)
    ensures ExtractValue(u, e) == Ok(value) <==> IsValue(e, value)
  {
    match e {
      case Identifier(n) =>
        LowerSpells(n, "true");
        LowerSpells(n, "false");
        hide AsciiLower, SameLetters;
      case TupleOf(es) =>
        var at := TupleTexts(es);
        hide AreTexts, TupleStrings;
        forall items, bt | AreTexts(es, items, bt)
          ensures items == TupleStrings(es)
        {
          TextsAreOne(es, TupleStrings(es), at, items, bt);
        }
      case NumberLit(d) =>
        if d != "" { assert d[0] != '+'; }
      case _ =>
    }
  }

  /** A numeral is a value exactly when it fits 64 bits, signed. */
  lemma NumbersFit(u: Unicode, digits: string)
    requires digits != "" && Decimal.AllDigits(digits)
    ensures ExtractValue(u, NumberLit(digits)).Ok? <==> Decimal.DigitsValue(digits) < 0x8000_0000_0000_0000
  {
    assert digits[0] != '+';
  }

  // ---------------------------------------------------------------- conditions

  predicate IsOperator(op: BinaryOp, operator: FilterOperator) {
    || (op == EqOp && operator == Equals)
    || (op == NotEqOp && operator == NotEquals)
    || (op == GtOp && operator == GreaterThan)
    || (op == LtOp && operator == LessThan)
    || (op == GtEqOp && operator == GreaterThanOrEqual)
    || (op == LtEqOp && operator == LessThanOrEqual)
    || (op == RegexMatchOp && operator == Matches)
  }

  /** The expression is that condition: a comparison of a field with a value, LIKE, IN with texts alone, or the name of
      a field, which asks for its flag. */
  ghost predicate IsCondition(e: Expr, leaf: ConditionLeaf) {
    match e
    case Binary(op, l, r) => IsField(l, leaf.field) && IsOperator(op, leaf.operator) && IsValue(r, leaf.value)
    case Like(l, negated, r) =>
      && IsField(l, leaf.field) && IsValue(r, leaf.value)
      && leaf.operator == (if negated then NotContains else Contains)
    case InList(l, negated, es) =>
      && IsField(l, leaf.field)
      && leaf.operator == (if negated then NotIn else In)
      && leaf.value.List? && |leaf.value.items| == |es| && forall i | 0 <= i < |es| :: IsText(es[i], leaf.value.items[i])
    case Identifier(name) => Names(name, leaf.field) && leaf.operator == Equals && leaf.value == Boolean(true)
    case _ => false
  }

  predicate Operands(e: Expr) {
    match e
    case Binary(_, l, r) => IsLexed(l) && IsLexed(r)
    case Like(l, _, r) => IsLexed(l) && IsLexed(r)
    case InList(l, _, _) => IsLexed(l)
    case _ => IsLexed(e)
  }

  lemma {:induction false} ListIsExact(es: seq<Expr>, items: seq<string>)
    ensures ListItems(es) == Ok(items) <==> |items| == |es| && forall i | 0 <= i < |es| :: IsText(es[i], items[i])
  {
    if es == [] {
    } else {
      var front, last := es[..|es| - 1], es[|es| - 1];
      if |items| == |es| {
        ListIsExact(front, items[..|es| - 1]);
        assert items == items[..|es| - 1] + [items[|es| - 1]];
      }
      if ListItems(front).Ok? { ListIsExact(front, ListItems(front).value); }
      hide ListItems;
      ListStepAt(es);
    }
  }

  lemma ListStepAt(es: seq<Expr>)
    requires es != []
    ensures ListItems(es) ==
            match ListItems(es[..|es| - 1]) {
              case Err(e) => Err(e)
              case Ok(values) =>
                if es[|es| - 1].StringLit? then Ok(values + [es[|es| - 1].value])
                else if es[|es| - 1].Identifier? then Ok(values + [es[|es| - 1].name])
                else Err(InvalidExpression)
            }
  {
  }

  /** Conversion accepts exactly the expressions that are conditions, and gives that condition. */
  lemma ConditionsAreExact(u: Unicode, e: Expr, leaf: ConditionLeaf)
    requires u.Valid() && !IsConnective(e) && Operands(e)
    ensures ConvertCondition(u, e) == Ok(Leaf(leaf)) <==> IsCondition(e, leaf)
  {
    hide IsField, IsValue, Names, ExtractField, ExtractValue, ListItems, ParseField;
    match e {
      case Binary(op, l, r) =>
        FieldsAreExact(u, l, leaf.field);
        ValuesAreExact(u, r, leaf.value);
      case Like(l, _, r) =>
        FieldsAreExact(u, l, leaf.field);
        ValuesAreExact(u, r, leaf.value);
      case InList(l, _, es) =>
        FieldsAreExact(u, l, leaf.field);
        if leaf.value.List? { ListIsExact(es, leaf.value.items); }
      case Identifier(name) =>
        FieldNames(u, name, leaf.field);
      case _ =>
    }
  }
}
