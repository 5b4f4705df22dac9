/** Words are parsed alike in any letter case: keywords are recognised, and names differ in their letters alone. */
module SqlCase {
  import opened Wrappers
  import opened Text
  import opened SqlSubset

  predicate SameToken(t: Token, v: Token) {
    t == v || (t.Word? && v.Word? && SameIgnoreCase(t.text, v.text))
  }

  predicate SameTokens(ts: seq<Token>, vs: seq<Token>) {
    |ts| == |vs| && forall i | 0 <= i < |ts| :: SameToken(ts[i], vs[i])
  }

  predicate SameExpr(a: Expr, b: Expr) {
    match a
    case Identifier(m) => b.Identifier? && SameIgnoreCase(m, b.name)
    case Nested(x) => b.Nested? && SameExpr(x, b.inner)
    case TupleOf(es) => b.TupleOf? && SameExprs(es, b.elements)
    case UnaryNot(x) => b.UnaryNot? && SameExpr(x, b.operand)
    case UnaryMinus(x) => b.UnaryMinus? && SameExpr(x, b.operand)
    case Binary(op, l, r) => b.Binary? && op == b.op && SameExpr(l, b.left) && SameExpr(r, b.right)
    case Like(l, negated, r) => b.Like? && negated == b.negated && SameExpr(l, b.subject) && SameExpr(r, b.pattern)
    case InList(l, negated, es) => b.InList? && negated == b.negated && SameExpr(l, b.subject) && SameExprs(es, b.list)
    case _ => a == b
  }

  predicate SameExprs(xs: seq<Expr>, bs: seq<Expr>) {
    |xs| == |bs| && forall i | 0 <= i < |xs| :: SameExpr(xs[i], bs[i])
  }

  /** Both fail, or both succeed alike and leave alike tokens. */
  predicate SameParsed(p: Parsed, q: Parsed) {
    (p.Some? <==> q.Some?) && (p.Some? ==> SameExpr(p.value.0, q.value.0) && SameTokens(p.value.1, q.value.1))
  }

  predicate SameList(p: Option<(seq<Expr>, seq<Token>)>, q: Option<(seq<Expr>, seq<Token>)>) {
    (p.Some? <==> q.Some?) && (p.Some? ==> SameExprs(p.value.0, q.value.0) && SameTokens(p.value.1, q.value.1))
  }

  lemma SameDrop(ts: seq<Token>, vs: seq<Token>, n: nat)
    requires SameTokens(ts, vs) && n <= |ts|
    ensures SameTokens(ts[n..], vs[n..])
  {
    hide SameToken;
  }

  lemma SameWord(t: Token, v: Token, kw: string)
    requires SameToken(t, v)
    ensures IsWord(t, kw) <==> IsWord(v, kw)
    ensures !t.Word? ==> t == v
    ensures t.Word? ==> v.Word? && (SameIgnoreCase(t.text, kw) <==> SameIgnoreCase(v.text, kw))
  {
  }

  lemma SamePrecedence(ts: seq<Token>, vs: seq<Token>)
    requires SameTokens(ts, vs)
    ensures Precedence(ts) == Precedence(vs)
  {
    hide SameIgnoreCase, SameToken, IsWord;
    if ts != [] {
      SameAtHead(ts, vs, 0);
      if |ts| > 1 { SameAtHead(ts, vs, 1); }
    }
  }

  /** The words the parser looks for at a position. */
  lemma SameAtHead(ts: seq<Token>, vs: seq<Token>, i: nat)
    requires SameTokens(ts, vs) && i < |ts|
    ensures IsWord(ts[i], "OR") <==> IsWord(vs[i], "OR")
    ensures IsWord(ts[i], "AND") <==> IsWord(vs[i], "AND")
    ensures IsWord(ts[i], "LIKE") <==> IsWord(vs[i], "LIKE")
    ensures IsWord(ts[i], "IN") <==> IsWord(vs[i], "IN")
    ensures IsWord(ts[i], "NOT") <==> IsWord(vs[i], "NOT")
    ensures !ts[i].Word? ==> ts[i] == vs[i]
    ensures ts[i].Word? ==> vs[i].Word?
  {
    hide SameIgnoreCase, IsWord;
    SameWord(ts[i], vs[i], "OR");
    SameWord(ts[i], vs[i], "AND");
    SameWord(ts[i], vs[i], "LIKE");
    SameWord(ts[i], vs[i], "IN");
    SameWord(ts[i], vs[i], "NOT");
  }

  lemma {:induction false} SameSub(min: nat, ts: seq<Token>, vs: seq<Token>)
    requires SameTokens(ts, vs)
    ensures SameParsed(ParseSub(min, ts), ParseSub(min, vs))
    decreases |ts|, 3
  {
    SamePrefix(ts, vs);
    var p, q := ParsePrefix(ts), ParsePrefix(vs);
    if p.Some? { SameClimb(min, p.value.0, q.value.0, p.value.1, q.value.1); }
    hide ParsePrefix, Climb, SameExpr, SameTokens;
  }

  lemma {:induction false} SamePrefix(ts: seq<Token>, vs: seq<Token>)
    requires SameTokens(ts, vs)
    ensures SameParsed(ParsePrefix(ts), ParsePrefix(vs))
    decreases |ts|, 2
  {
    if ts != [] {
      SameDrop(ts, vs, 1);
      SameSub(NOT_PRECEDENCE, ts[1..], vs[1..]);
      SameSub(MINUS_PRECEDENCE, ts[1..], vs[1..]);
      SameParseList(ts[1..], vs[1..]);
      SameWord(ts[0], vs[0], "NOT");
      SameWord(ts[0], vs[0], "TRUE");
      SameWord(ts[0], vs[0], "FALSE");
      if |ts| > 1 { SameAtHead(ts, vs, 1); }
      SamePrefixStep(ts, vs);
    }
  }

  /** One prefix, given what is behind its first token. */
  lemma SamePrefixStep(ts: seq<Token>, vs: seq<Token>)
    requires ts != [] && SameTokens(ts, vs) && SameTokens(ts[1..], vs[1..])
    requires SameParsed(ParseSub(NOT_PRECEDENCE, ts[1..]), ParseSub(NOT_PRECEDENCE, vs[1..]))
    requires SameParsed(ParseSub(MINUS_PRECEDENCE, ts[1..]), ParseSub(MINUS_PRECEDENCE, vs[1..]))
    requires SameList(ParseList(ts[1..]), ParseList(vs[1..]))
    requires ts[0].Word? ==>
               && vs[0].Word?
               && (SameIgnoreCase(ts[0].text, "NOT") <==> SameIgnoreCase(vs[0].text, "NOT"))
               && (SameIgnoreCase(ts[0].text, "TRUE") <==> SameIgnoreCase(vs[0].text, "TRUE"))
               && (SameIgnoreCase(ts[0].text, "FALSE") <==> SameIgnoreCase(vs[0].text, "FALSE"))
    requires !ts[0].Word? ==> ts[0] == vs[0]
    requires |ts| > 1 ==> (ts[1] == Sym(LParen) <==> vs[1] == Sym(LParen))
    ensures SameParsed(ParsePrefix(ts), ParsePrefix(vs))
  {
    SameLength(ts, vs);
    if ts[0].Word? {
      assert SameToken(ts[0], vs[0]);
      hide *;
      SameWordPrefix(ts, vs);
    } else if ts[0] == Sym(LParen) {
      hide *;
      SameParens(ts, vs);
    } else {
      hide *;
      SameOther(ts, vs);
    }
  }

  lemma WordPrefix(ts: seq<Token>)
    requires ts != [] && ts[0].Word?
    ensures var (w, not) := (ts[0].text, ParseSub(NOT_PRECEDENCE, ts[1..]));
            ParsePrefix(ts) ==
            if SameIgnoreCase(w, "NOT") then (if not.Some? then Some((UnaryNot(not.value.0), not.value.1)) else None)
            else if SameIgnoreCase(w, "TRUE") then Some((BoolLit(true), ts[1..]))
            else if SameIgnoreCase(w, "FALSE") then Some((BoolLit(false), ts[1..]))
            else if |ts| > 1 && ts[1] == Sym(LParen) then None
            else Some((Identifier(w), ts[1..]))
  {
    hide SameIgnoreCase, ParseSub;
  }

  lemma SameWordPrefix(ts: seq<Token>, vs: seq<Token>)
    requires |ts| == |vs| > 0 && ts[0].Word? && vs[0].Word? && SameToken(ts[0], vs[0]) && SameTokens(ts[1..], vs[1..])
    requires SameParsed(ParseSub(NOT_PRECEDENCE, ts[1..]), ParseSub(NOT_PRECEDENCE, vs[1..]))
    requires SameIgnoreCase(ts[0].text, "NOT") <==> SameIgnoreCase(vs[0].text, "NOT")
    requires SameIgnoreCase(ts[0].text, "TRUE") <==> SameIgnoreCase(vs[0].text, "TRUE")
    requires SameIgnoreCase(ts[0].text, "FALSE") <==> SameIgnoreCase(vs[0].text, "FALSE")
    requires |ts| > 1 ==> (ts[1] == Sym(LParen) <==> vs[1] == Sym(LParen))
    ensures SameParsed(ParsePrefix(ts), ParsePrefix(vs))
  {
    WordPrefix(ts);
    WordPrefix(vs);
    hide ParsePrefix, ParseSub, SameTokens;
    NamesAlike(ts[0].text, vs[0].text);
    hide SameIgnoreCase;
  }

  lemma NamesAlike(m: string, n: string)
    ensures SameToken(Word(m), Word(n)) <==> SameExpr(Identifier(m), Identifier(n))
  {
    assert m == n ==> SameIgnoreCase(m, n);
  }

  lemma SameOther(ts: seq<Token>, vs: seq<Token>)
    requires |ts| == |vs| > 0 && ts[0] == vs[0] && !ts[0].Word? && ts[0] != Sym(LParen) && SameTokens(ts[1..], vs[1..])
    requires SameParsed(ParseSub(MINUS_PRECEDENCE, ts[1..]), ParseSub(MINUS_PRECEDENCE, vs[1..]))
    requires |ts| > 1 ==> (ts[1] == Sym(LParen) <==> vs[1] == Sym(LParen))
    ensures SameParsed(ParsePrefix(ts), ParsePrefix(vs))
  {
    hide ParseSub, ParseList, SameTokens;
  }

  lemma SameParens(ts: seq<Token>, vs: seq<Token>)
    requires ts != [] && vs != [] && ts[0] == Sym(LParen) == vs[0] && SameList(ParseList(ts[1..]), ParseList(vs[1..]))
    ensures SameParsed(ParsePrefix(ts), ParsePrefix(vs))
  {
    var p, q := ParseList(ts[1..]), ParseList(vs[1..]);
    if p.Some? {
      SameClosing(p.value.1, q.value.1);
      SameInner(p.value.0, q.value.0);
    }
    hide ParseList, SameTokens, SameExpr, SameExprs;
  }

  /** A closing parenthesis comes next in both or in neither, and what is behind it is alike. */
  lemma SameClosing(ts: seq<Token>, vs: seq<Token>)
    requires SameTokens(ts, vs)
    ensures (ts != [] && ts[0] == Sym(RParen)) <==> (vs != [] && vs[0] == Sym(RParen))
    ensures ts != [] && ts[0] == Sym(RParen) ==> SameTokens(ts[1..], vs[1..])
  {
    if ts != [] {
      assert SameToken(ts[0], vs[0]);
      SameDrop(ts, vs, 1);
    }
  }

  lemma SameInner(es: seq<Expr>, fs: seq<Expr>)
    requires SameExprs(es, fs) && es != []
    ensures |es| == |fs| && SameExpr(if |es| == 1 then Nested(es[0]) else TupleOf(es), if |fs| == 1 then Nested(fs[0]) else TupleOf(fs))
  {
  }

  lemma {:induction false} SameParseList(ts: seq<Token>, vs: seq<Token>)
    requires SameTokens(ts, vs)
    ensures SameList(ParseList(ts), ParseList(vs))
    decreases |ts|, 4
  {
    SameSub(0, ts, vs);
    var p, q := ParseSub(0, ts), ParseSub(0, vs);
    if p.Some? && p.value.1 != [] {
      assert SameToken(p.value.1[0], q.value.1[0]);
      SameDrop(p.value.1, q.value.1, 1);
      if p.value.1[0] == Sym(Comma) { SameParseList(p.value.1[1..], q.value.1[1..]); }
    }
    hide ParseSub, SameExpr;
  }

  lemma {:induction false} SameClimb(min: nat, a: Expr, b: Expr, ts: seq<Token>, vs: seq<Token>)
    requires SameExpr(a, b) && SameTokens(ts, vs)
    ensures SameParsed(Climb(min, a, ts), Climb(min, b, vs))
    decreases |ts|, 1
  {
    hide SameExpr, SameToken, ParseInfix, Precedence;
    SamePrecedence(ts, vs);
    var p := Precedence(ts);
    NothingBindsNothing(ts);
    if p > min {
      SameInfix(a, b, p, ts, vs);
      var r, s := ParseInfix(a, p, ts), ParseInfix(b, p, vs);
      if r.Some? { SameClimb(min, r.value.0, s.value.0, r.value.1, s.value.1); }
    }
  }

  lemma NothingBindsNothing(ts: seq<Token>)
    ensures Precedence(ts) > 0 ==> ts != []
  {
  }

  lemma {:induction false} SameInfix(a: Expr, b: Expr, p: nat, ts: seq<Token>, vs: seq<Token>)
    requires SameExpr(a, b) && SameTokens(ts, vs) && ts != [] && p == Precedence(ts) == Precedence(vs) && p > 0
    ensures SameParsed(ParseInfix(a, p, ts), ParseInfix(b, p, vs))
    decreases |ts|, 0
  {
    SameAtHead(ts, vs, 0);
    SameDrop(ts, vs, 1);
    if |ts| > 1 {
      SameAtHead(ts, vs, 1);
      SameDrop(ts, vs, 2);
    }
    hide *;
    if IsWord(ts[0], "LIKE") {
      SameLike(a, b, false, ts[1..], vs[1..]);
    } else if IsWord(ts[0], "IN") {
      SameIn(a, b, false, ts[1..], vs[1..]);
    } else if IsWord(ts[0], "NOT") && |ts| > 1 {
      if IsWord(ts[1], "LIKE") { SameLike(a, b, true, ts[2..], vs[2..]); } else { SameIn(a, b, true, ts[2..], vs[2..]); }
    } else {
      SameSub(p, ts[1..], vs[1..]);
      SameOperator(a, b, p, ts, vs);
    }
    SameLength(ts, vs);
    InfixByWord(a, p, ts);
    InfixByWord(b, p, vs);
  }

  lemma SameLength(ts: seq<Token>, vs: seq<Token>)
    requires SameTokens(ts, vs)
    ensures |ts| == |vs|
  {
  }

  lemma InfixByWord(left: Expr, p: nat, ts: seq<Token>)
    requires ts != [] && p == Precedence(ts) && p > 0
    ensures IsWord(ts[0], "LIKE") ==> ParseInfix(left, p, ts) == ParseLike(left, false, ts[1..])
    ensures !IsWord(ts[0], "LIKE") && IsWord(ts[0], "IN") ==> ParseInfix(left, p, ts) == ParseIn(left, false, ts[1..])
    ensures !IsWord(ts[0], "LIKE") && !IsWord(ts[0], "IN") && IsWord(ts[0], "NOT") && |ts| > 1 ==>
              ParseInfix(left, p, ts) == if IsWord(ts[1], "LIKE") then ParseLike(left, true, ts[2..]) else ParseIn(left, true, ts[2..])
  {
    hide ParseLike, ParseIn, ParseSub, IsWord;
  }

  lemma SameOperator(a: Expr, b: Expr, p: nat, ts: seq<Token>, vs: seq<Token>)
    requires SameExpr(a, b) && SameTokens(ts, vs) && ts != [] && p == Precedence(ts) == Precedence(vs) && p > 0
    requires !IsWord(ts[0], "LIKE") && !IsWord(ts[0], "IN") && !(IsWord(ts[0], "NOT") && |ts| > 1)
    requires SameParsed(ParseSub(p, ts[1..]), ParseSub(p, vs[1..]))
    ensures SameParsed(ParseInfix(a, p, ts), ParseInfix(b, p, vs))
  {
    SameAtHead(ts, vs, 0);
    hide ParseLike, ParseIn, ParseSub, IsWord, SameTokens;
  }

  lemma {:induction false} SameLike(a: Expr, b: Expr, negated: bool, ts: seq<Token>, vs: seq<Token>)
    requires SameExpr(a, b) && SameTokens(ts, vs)
    ensures SameParsed(ParseLike(a, negated, ts), ParseLike(b, negated, vs))
    decreases |ts|, 4
  {
    SameSub(LIKE_PRECEDENCE, ts, vs);
    hide ParseSub, SameTokens;
  }

  lemma {:induction false} SameIn(a: Expr, b: Expr, negated: bool, ts: seq<Token>, vs: seq<Token>)
    requires SameExpr(a, b) && SameTokens(ts, vs)
    ensures SameParsed(ParseIn(a, negated, ts), ParseIn(b, negated, vs))
    decreases |ts|, 5
  {
    if ts != [] {
      SameDrop(ts, vs, 1);
      SameParseList(ts[1..], vs[1..]);
      SameInStep(a, b, negated, ts, vs);
    }
  }

  lemma InByList(left: Expr, negated: bool, ts: seq<Token>)
    requires ts != []
    ensures var list := ParseList(ts[1..]);
            ParseIn(left, negated, ts) ==
            if ts[0] == Sym(LParen) && list.Some? && list.value.1 != [] && list.value.1[0] == Sym(RParen)
            then Some((InList(left, negated, list.value.0), list.value.1[1..])) else None
  {
    hide ParseList;
  }

  lemma SameInStep(a: Expr, b: Expr, negated: bool, ts: seq<Token>, vs: seq<Token>)
    requires SameExpr(a, b) && SameTokens(ts, vs) && ts != [] && SameList(ParseList(ts[1..]), ParseList(vs[1..]))
    ensures SameParsed(ParseIn(a, negated, ts), ParseIn(b, negated, vs))
  {
    assert SameToken(ts[0], vs[0]);
    InByList(a, negated, ts);
    InByList(b, negated, vs);
    var p, q := ParseList(ts[1..]), ParseList(vs[1..]);
    hide ParseList, ParseIn, SameTokens, SameExpr, SameExprs;
    if p.Some? {
      SameInList(a, b, negated, p.value.0, q.value.0);
      SameClosing(p.value.1, q.value.1);
    }
  }

  lemma SameInList(a: Expr, b: Expr, negated: bool, es: seq<Expr>, fs: seq<Expr>)
    requires SameExpr(a, b) && SameExprs(es, fs)
    ensures SameExpr(InList(a, negated, es), InList(b, negated, fs))
  {
  }

  /** A statement and one that differs in the case of words alone parse alike: neither, or both to expressions that
      differ in the case of names alone. */
  lemma SameSelect(ts: seq<Token>, vs: seq<Token>)
    requires SameTokens(ts, vs)
    ensures ParseSelect(ts).Some? <==> ParseSelect(vs).Some?
    ensures ParseSelect(ts).Some? ==> SameExpr(ParseSelect(ts).value, ParseSelect(vs).value)
  {
    if |ts| > 5 {
      assert SameToken(ts[0], vs[0]) && SameToken(ts[1], vs[1]) && SameToken(ts[2], vs[2]) && SameToken(ts[3], vs[3]) && SameToken(ts[4], vs[4]);
      SameDrop(ts, vs, 5);
      SameSub(0, ts[5..], vs[5..]);
      SameWord(ts[0], vs[0], "SELECT");
      SameWord(ts[2], vs[2], "FROM");
      SameWord(ts[4], vs[4], "WHERE");
      hide ParseSub, SameIgnoreCase, IsWord;
    }
  }
}
