/** Rules that do not come back because a literal of theirs is not read as it was printed, and with them the exact
    condition under which a rule comes back. */
module NsqlLost {
  import opened Wrappers
  import opened Text
  import opened NsqlAst
  import opened NsqlScanner
  import NsqlActions
  import opened NsqlPreprocess
  import opened SqlSubset
  import NsqlConvert
  import opened NsqlRule
  import opened NsqlPieces
  import opened NsqlReading
  import opened NsqlPrinted
  import opened NsqlReread
  import opened NsqlRoundTrip
  import opened NsqlCut
  import opened NsqlFront
  import opened NsqlQuoted

  // ---------------------------------------------------------------- the first header pattern in a text

  /** No header pattern starts before `p`. */
  predicate NoMatchBefore(s: string, p: nat)
    requires p <= |s|
  {
    forall i | 0 <= i < p :: HeaderMatch(s[i..]).None?
  }

  lemma {:induction false} FirstMatch(s: string) returns (p: nat)
    ensures p <= |s| && NoMatchBefore(s, p) && (p < |s| ==> HeaderMatch(s[p..]).Some?)
  {
    hide HeaderMatch;
    p := 0;
    while p < |s| && HeaderMatch(s[p..]).None?
      invariant p <= |s| && NoMatchBefore(s, p)
    {
      p := p + 1;
    }
  }

  lemma {:induction false} ReplacedFrom(s: string, p: nat)
    requires p <= |s| && NoMatchBefore(s, p)
    ensures ReplaceHeaders(s) == s[..p] + ReplaceHeaders(s[p..])
    decreases p
  {
    hide HeaderMatch;
    if p == 0 {
      assert s[..0] + ReplaceHeaders(s) == ReplaceHeaders(s) && s[0..] == s;
    } else {
      assert HeaderMatch(s[0..]).None? && s[0..] == s;
      assert forall i | 0 <= i < p - 1 :: s[1..][i..] == s[i + 1..];
      hide ReplaceHeaders;
      ReplacedFrom(s[1..], p - 1);
      assert s == [s[0]] + s[1..];
      HeaderStep(s[0], s[1..]);
      assert s[1..][p - 1..] == s[p..] && [s[0]] + s[1..][..p - 1] == s[..p];
    }
  }

  lemma MatchReplaced(s: string) returns (rest: string)
    requires HeaderMatch(s).Some?
    ensures ReplaceHeaders(s) == "header__" + rest
  {
    var (key, after) := HeaderMatch(s).value;
    rest := ReplaceChar(key, '-', '_') + ReplaceHeaders(after);
  }

  // ---------------------------------------------------------------- where it starts

  lemma {:induction false} SafeEverywhere(s: string, rest: string, p: nat)
    requires HeaderSafe(s) && p < |s|
    ensures HeaderMatch((s + rest)[p..]) == None
    decreases p
  {
    if p == 0 {
      assert SafeStart(s + rest);
      NoHeaderHere(s + rest);
      assert (s + rest)[0..] == s + rest;
    } else {
      assert (s + rest)[p..] == (s[1..] + rest)[p - 1..];
      SafeEverywhere(s[1..], rest, p - 1);
    }
  }

  lemma PieceIsSafe(p: Piece)
    requires KnownPiece(p) && !(p.Tok? && p.token.Str?)
    ensures HeaderSafe(PieceText(p))
  {
    SymbolIsSafe(Comma);
    hide HeaderSafe, VOCABULARY, SymbolText;
    match p {
      case Tok(Word(w)) => WordShape(w);
      case Tok(Number(d)) => DigitsAreSafe(d);
      case Tok(Sym(s)) => SymbolIsSafe(s);
      case Space =>
    }
  }

  /** Within a literal, only where the rest of it is an open header. */
  lemma MatchInLiteral(x: string, rest: string, p: nat)
    requires '\'' !in x && p < |x| + 2 && HeaderMatch(("'" + x + "'" + rest)[p..]).Some?
    ensures 0 < p <= |x| && OpensHeader(x[p - 1..])
  {
    hide HeaderMatch, OpensHeader;
    var text := "'" + x + "'" + rest;
    if p == 0 || p == |x| + 1 {
      assert text[p..][0] == '\'' && SafeStart(text[p..]);
      NoHeaderHere(text[p..]);
    } else if !OpensHeader(x[p - 1..]) {
      assert text[p..] == x[p - 1..] + "'" + rest;
      assert forall c | c in x[p - 1..] :: c in x;
      NoHeaderInLiteral(x[p - 1..], rest);
    }
  }

  /** The position falls into the `m`-th piece, a literal whose rest from `a` on is an open header. */
  predicate Located(ps: seq<Piece>, rest: string, p: nat, m: nat, a: nat) {
    && StrPiece(ps, m)
    && var x := ps[m].token.value;
       && '\'' !in x && a < |x| && OpensHeader(x[a..])
       && p == |Flatten(ps[..m])| + 1 + a
       && Flatten(ps) + rest == Flatten(ps[..m]) + ("'" + (x + ("'" + (Flatten(ps[m + 1..]) + rest))))
  }

  lemma FlatSplit(ps: seq<Piece>, rest: string)
    requires WellSpaced(ps) && Flatten(ps) != ""
    ensures ps != [] && KnownPiece(ps[0]) && WellSpaced(ps[1..])
    ensures Flatten(ps) + rest == PieceText(ps[0]) + (Flatten(ps[1..]) + rest) && |Flatten(ps)| == |PieceText(ps[0])| + |Flatten(ps[1..])|
  {
    hide PieceText, KnownPiece, Follows;
    ConcatAssociates(PieceText(ps[0]), Flatten(ps[1..]), rest);
  }

  /** In well-spaced text only within a literal that ends like an open header. */
  lemma {:induction false} LocateMatch(ps: seq<Piece>, rest: string, p: nat) returns (m: nat, a: nat)
    requires WellSpaced(ps) && p < |Flatten(ps)| && HeaderMatch((Flatten(ps) + rest)[p..]).Some?
    ensures Located(ps, rest, p, m, a)
    decreases |ps|
  {
    hide *;
    FlatSplit(ps, rest);
    var first, back := PieceText(ps[0]), Flatten(ps[1..]) + rest;
    if p < |first| {
      LocateFirst(ps, rest, p);
      m, a := 0, p - 1;
    } else {
      DropBehind(first, back, p);
      m, a := LocateMatch(ps[1..], rest, p - |first|);
      LocatedBehind(ps, rest, p, m, a);
      m := m + 1;
    }
  }

  lemma DropBehind(first: string, back: string, p: nat)
    requires |first| <= p <= |first + back|
    ensures (first + back)[p..] == back[p - |first|..]
  {
  }

  lemma LocateFirst(ps: seq<Piece>, rest: string, p: nat)
    requires ps != [] && KnownPiece(ps[0]) && p < |PieceText(ps[0])|
    requires HeaderMatch((PieceText(ps[0]) + (Flatten(ps[1..]) + rest))[p..]).Some?
    ensures p > 0 && Located(ps, rest, p, 0, p - 1)
  {
    hide *;
    var back := Flatten(ps[1..]) + rest;
    NoMatchElsewhere(ps[0], back, p);
    var x := ps[0].token.value;
    LiteralText(ps[0], x, back);
    MatchInLiteral(x, back, p);
    FlatLiteral(ps, rest, x);
    LocatedHere(ps, rest, p, x);
  }

  lemma NoMatchElsewhere(piece: Piece, back: string, p: nat)
    requires KnownPiece(piece) && p < |PieceText(piece)| && HeaderMatch((PieceText(piece) + back)[p..]).Some?
    ensures piece.Tok? && piece.token.Str? && '\'' !in piece.token.value && |PieceText(piece)| == |piece.token.value| + 2
  {
    hide HeaderMatch;
    if !(piece.Tok? && piece.token.Str?) {
      PieceIsSafe(piece);
      SafeEverywhere(PieceText(piece), back, p);
    }
  }

  lemma LiteralText(piece: Piece, x: string, back: string)
    requires piece == Tok(Str(x))
    ensures PieceText(piece) + back == "'" + x + "'" + back == "'" + (x + ("'" + back))
  {
  }

  lemma FlatLiteral(ps: seq<Piece>, rest: string, x: string)
    requires ps != [] && ps[0] == Tok(Str(x))
    ensures Flatten(ps) + rest == PieceText(ps[0]) + (Flatten(ps[1..]) + rest)
  {
    hide PieceText;
    FlattenFirst(ps);
    ConcatAssociates(PieceText(ps[0]), Flatten(ps[1..]), rest);
  }

  lemma LocatedHere(ps: seq<Piece>, rest: string, p: nat, x: string)
    requires ps != [] && ps[0] == Tok(Str(x)) && '\'' !in x && 0 < p <= |x| && OpensHeader(x[p - 1..])
    requires Flatten(ps) + rest == "'" + (x + ("'" + (Flatten(ps[1..]) + rest)))
    ensures Located(ps, rest, p, 0, p - 1)
  {
    hide OpensHeader, Flatten;
    assert ps[..0] == [] && ps[0 + 1..] == ps[1..];
    NothingFlat("'" + (x + ("'" + (Flatten(ps[1..]) + rest))));
    NothingFlat("");
  }

  lemma LocatedBehind(ps: seq<Piece>, rest: string, p: nat, m: nat, a: nat)
    requires ps != [] && p >= |PieceText(ps[0])| && Located(ps[1..], rest, p - |PieceText(ps[0])|, m, a)
    ensures Located(ps, rest, p, m + 1, a)
  {
    hide PieceText, OpensHeader;
    FlattenFirst(ps);
    FlattenFirst(ps[..m + 1]);
    hide Flatten;
    assert ps[..m + 1][1..] == ps[1..][..m] && ps[1..][m + 1..] == ps[m + 2..] && ps[..m + 1][0] == ps[0] && ps[1..][m] == ps[m + 1];
    var tail := "'" + (ps[m + 1].token.value + ("'" + (Flatten(ps[m + 2..]) + rest)));
    ConcatAssociates(PieceText(ps[0]), Flatten(ps[1..]), rest);
    ConcatAssociates(PieceText(ps[0]), Flatten(ps[1..][..m]), tail);
  }

  /** The literal in which it starts is off. */
  lemma HeaderIsOff(x: string, a: nat, rest: string) returns (j: nat)
    requires '\'' !in x && a < |x| && OpensHeader(x[a..])
    ensures Off(x[..a] + ("header__" + rest), x, j)
  {
    var s := x[..a] + ("header__" + rest);
    BracketBehind(x, a);
    assert s[a + 6] == "header__"[6] == '_';
    hide OpensHeader, Calm;
    j := FirstDifference(s, x, a + 6);
    HeaderLettersCalm(x, a, rest, j);
  }

  lemma BracketBehind(x: string, a: nat)
    requires a < |x| && OpensHeader(x[a..])
    ensures |x| > a + 6 && x[a + 6] != '_'
  {
    var after := x[a..][6..];
    TrimStartFacts(after);
    assert after != "" && after[0] == x[a + 6];
    FirstOfTrim(after);
  }

  lemma FirstDifference(s: string, x: string, n: nat) returns (j: nat)
    requires n < |s| && n < |x| && s[n] != x[n]
    ensures j <= n && s[..j] == x[..j] && s[j] != x[j]
  {
    j := 0;
    while s[j] == x[j]
      invariant j <= n && s[..j] == x[..j]
      decreases n - j
    {
      assert s[..j + 1] == s[..j] + [s[j]] && x[..j + 1] == x[..j] + [x[j]];
      j := j + 1;
    }
  }

  lemma FirstOfTrim(s: string)
    requires TrimStart(s) != "" && TrimStart(s)[0] == '['
    ensures s != "" && s[0] != '_'
  {
  }

  lemma HeaderLettersCalm(x: string, a: nat, rest: string, j: nat)
    requires '\'' !in x && a <= |x| && j <= a + 6 && j < |x|
    requires var s := x[..a] + ("header__" + rest); s[..j] == x[..j] && s[j] != x[j]
    ensures var s := x[..a] + ("header__" + rest); Calm(s[j]) && '\'' !in s[..j + 1]
  {
    var s := x[..a] + ("header__" + rest);
    assert j >= a;
    assert s[j] == "header__"[j - a] == "header_"[j - a];
    assert s[..j + 1] == x[..j] + [s[j]];
    CalmLetters(j - a);
  }

  lemma CalmLetters(i: nat)
    requires i <= 6
    ensures Calm("header_"[i]) && "header_"[i] != '\''
  {
  }

  // ---------------------------------------------------------------- a header pattern in the statement

  lemma BeforeStr(p: Piece, next: Piece)
    requires KnownPiece(p) && Follows(p, Some(next)) && next.Tok? && next.token.Str?
    ensures (p == Space || p == SymPiece(LParen)) && WellSpaced([p])
  {
    assert [p][1..] == [];
  }

  lemma {:induction false} SpacedBefore(ps: seq<Piece>, m: nat)
    requires WellSpaced(ps) && 0 < m && StrPiece(ps, m)
    ensures OpenEnded(ps[..m])
    decreases m
  {
    if m == 1 {
      assert ps[1..][0] == ps[1];
      BeforeStr(ps[0], ps[1]);
      assert ps[..1] == [ps[0]];
    } else {
      hide Follows, KnownPiece;
      SpacedBefore(ps[1..], m - 1);
      assert ps[1..][..m - 1] == ps[..m][1..];
      assert Head(ps[..m][1..]) == Head(ps[1..]);
    }
  }

  lemma HeadIsStr()
    ensures forall j | 0 <= j < |STATEMENT_HEAD + [Space]| :: !StrPiece(STATEMENT_HEAD + [Space], j)
    ensures STATEMENT_HEAD != []
  {
  }

  lemma PrefixPiece(ps: seq<Piece>, all: seq<Piece>, m: nat)
    requires ps <= all && StrPiece(ps, m)
    ensures StrPiece(all, m) && all[m] == ps[m] && all[..m] == ps[..m]
  {
  }

  /** A literal among the statement's pieces belongs to a place of the tree. */
  lemma PlaceInStatement(node: ConditionNode, ps: seq<Piece>, m: nat) returns (place: Place)
    requires ps <= STATEMENT_HEAD + [Space] + NodePieces(node, false) && StrPiece(ps, m)
    ensures m > 0 && LiteralAt(node, place) && ps[m] == Tok(Str(LiteralOf(node, place))) && FrontOf(node, place, false) == ps[..m]
  {
    var head, body := STATEMENT_HEAD + [Space], NodePieces(node, false);
    HeadIsStr();
    PrefixPiece(ps, head + body, m);
    hide StrPiece, STATEMENT_HEAD, NodePieces, FrontPieces, LiteralAt, LiteralOf;
    StrBehind(head, body, m);
    place := PlaceOfPiece(node, m - |head|);
    PiecesRegrouped(STATEMENT_HEAD, [Space], FrontPieces(node, place, false));
  }

  /** A literal without single quotes that does not end like an open header. */
  predicate PlainLiteral(x: string) { '\'' !in x && !EndsLikeHeader(x) }

  /** Lists outside IN and NOT IN hold plain literals only. */
  predicate TuplesPlain(node: ConditionNode)
    decreases node
  {
    match node
    case Leaf(leaf) => !ListInPlace(leaf) ==> forall i | 0 <= i < |leaf.value.items| :: PlainLiteral(leaf.value.items[i])
    case And(children) => AllTuplesPlain(children)
    case Or(children) => AllTuplesPlain(children)
    case Not(inner) => TuplesPlain(inner)
  }

  predicate AllTuplesPlain(nodes: seq<ConditionNode>)
    decreases nodes
  {
    nodes == [] || (TuplesPlain(nodes[0]) && AllTuplesPlain(nodes[1..]))
  }

  lemma {:induction false} InPlaceThere(node: ConditionNode, place: Place)
    requires TuplesPlain(node) && LiteralAt(node, place) && !PlainLiteral(LiteralOf(node, place))
    ensures InPlace(node, place)
    decreases node, 1
  {
    hide PlainLiteral, AllTuplesPlain, LiteralIn, LiteralOfIn, InPlaceIn;
    match node {
      case Leaf(_) =>
      case And(children) => InPlaceThereIn(children, place.k, place.below);
      case Or(children) => InPlaceThereIn(children, place.k, place.below);
      case Not(inner) => InPlaceThere(inner, place.below);
    }
  }

  lemma {:induction false} InPlaceThereIn(nodes: seq<ConditionNode>, k: nat, below: Place)
    requires AllTuplesPlain(nodes) && LiteralIn(nodes, k, below) && !PlainLiteral(LiteralOfIn(nodes, k, below))
    ensures InPlaceIn(nodes, k, below)
    decreases nodes, 0
  {
    hide PlainLiteral, TuplesPlain, LiteralAt, LiteralOf, InPlace;
    if k == 0 { InPlaceThere(nodes[0], below); } else { InPlaceThereIn(nodes[1..], k - 1, below); }
  }

  lemma {:induction false} EndsOpen(x: string, a: nat)
    requires a < |x| && OpensHeader(x[a..])
    ensures !PlainLiteral(x)
    decreases a
  {
    hide OpensHeader;
    if a == 0 {
      assert x[0..] == x;
    } else {
      assert x[1..][a - 1..] == x[a..];
      EndsOpen(x[1..], a - 1);
      assert forall c | c in x[1..] :: c in x;
    }
  }

  lemma QuoteInside(before: string, behind: string)
    ensures !PlainLiteral(before + "'" + behind)
  {
    assert (before + "'" + behind)[|before|] == '\'';
  }

  /** A header pattern that starts within printed text makes the conditions others. */
  lemma HeaderReadsOther(u: Unicode, node: ConditionNode, ps: seq<Piece>, rest: string, p: nat)
    requires u.Valid() && HeaderFreeNode(node) && TuplesPlain(node)
    requires ps <= STATEMENT_HEAD + [Space] + NodePieces(node, false) && WellSpaced(ps) && p < |Flatten(ps)|
    requires var where := Flatten(ps) + rest; Trim(where) == where && NoMatchBefore(where, p) && HeaderMatch(where[p..]).Some?
    ensures ParseConditions(u, Flatten(ps) + rest) != Ok(node)
  {
    hide *;
    var where := Flatten(ps) + rest;
    var m, a := LocateMatch(ps, rest, p);
    LocatedIsPiece(ps, rest, p, m, a);
    var place := PlaceInStatement(node, ps, m);
    SpacedBefore(ps, m);
    var x := LiteralOf(node, place);
    var key := MatchReplaced(where[p..]);
    ReplacedFrom(where, p);
    var j := HeaderIsOff(x, a, key);
    EndsOpen(x, a);
    InPlaceThere(node, place);
    LocatedCut(ps, rest, p, m, a, x, "header__" + key);
    OffReadsOther(u, node, place, where, x[..a] + ("header__" + key), j);
  }

  lemma LocatedIsPiece(ps: seq<Piece>, rest: string, p: nat, m: nat, a: nat)
    requires Located(ps, rest, p, m, a)
    ensures StrPiece(ps, m)
    ensures forall x | ps[m] == Tok(Str(x)) :: '\'' !in x && a < |x| && OpensHeader(x[a..])
  {
    hide OpensHeader;
  }

  lemma LocatedCut(ps: seq<Piece>, rest: string, p: nat, m: nat, a: nat, x: string, more: string)
    requires Located(ps, rest, p, m, a) && p <= |Flatten(ps) + rest| && ps[m] == Tok(Str(x))
    ensures a <= |x| && (Flatten(ps) + rest)[..p] + more == Flatten(ps[..m]) + ("'" + (x[..a] + more))
  {
    hide OpensHeader, Flatten;
    LiteralCut(Flatten(ps[..m]), x, a, "'" + (Flatten(ps[m + 1..]) + rest), more);
  }

  lemma LiteralCut(front: string, x: string, a: nat, rest: string, more: string)
    requires a <= |x|
    ensures (front + ("'" + (x + rest)))[..|front| + 1 + a] + more == front + ("'" + (x[..a] + more))
  {
    assert (front + ("'" + (x + rest)))[..|front| + 1 + a] == front + ("'" + x[..a]);
  }

  // ---------------------------------------------------------------- text up to the first escaped quote

  /** Text in front of a literal, the literal up to its first quote, and the backslash and quote that stand for it. */
  function Opening(head: string, before: string): string { head + "'" + before + "\\" + "'" }

  predicate Opens(head: string, before: string, text: string) { Opening(head, before) <= text }

  lemma OpeningParts(head: string, before: string, text: string)
    requires Opens(head, before, text)
    ensures text == head + ("'" + (before + ("\\" + ("'" + text[|head| + |before| + 3..]))))
    ensures |text| >= |head| + |before| + 3
  {
    var rest := text[|Opening(head, before)|..];
    assert |Opening(head, before)| == |head| + |before| + 3;
    assert text == Opening(head, before) + rest;
  }

  /** No keyword starts before the escaped quote has been read. */
  lemma NoKeywordBefore(head: string, before: string, text: string, kw: string, i: nat)
    requires kw != "" && Quiet(head, kw) && '\'' !in before && Opens(head, before, text) && i < |Opening(head, before)|
    ensures !KeywordAt(text, kw, i)
  {
    OpeningParts(head, before, text);
    if i < |head| {
      assert text == head + text[|head|..];
      QuietNotAt(head, text[|head|..], kw, i);
    } else if i == |head| {
      assert text[i] == '\'';
    } else {
      InLiteral(head, before, text, i);
    }
  }

  lemma InLiteral(head: string, before: string, text: string, i: nat)
    requires After(Out, head) == Out && '\'' !in before && Opens(head, before, text) && |head| < i < |head| + |before| + 3
    ensures After(Out, text[..i]) == InSingle
  {
    OpeningParts(head, before, text);
    var inside := (before + "\\")[..i - |head| - 1];
    assert text[..i] == head + (['\''] + inside);
    assert forall c | c in inside :: c in before || c == '\\';
    AfterConcat(Out, head, ['\''] + inside);
    assert (['\''] + inside)[1..] == inside;
    AfterInside(inside);
  }

  lemma TrimOpens(head: string, before: string, text: string)
    requires head != "" && !IsWhitespace(head[0]) && Opens(head, before, text)
    ensures Opens(head, before, Trim(text)) && Trim(text) != ""
  {
    var opening := Opening(head, before);
    assert opening[0] == head[0] && opening[|opening| - 1] == '\'';
    assert text == opening + text[|opening|..];
    assert TrimStart(text) == text;
    NsqlActions.TrimEndBehind(opening, text[|opening|..]);
  }

  lemma KeywordFits(text: string, kw: string, i: nat)
    requires kw != "" && KeywordAt(text, kw, i)
    ensures i + |kw| <= |text|
  {
  }

  lemma CutOpens(head: string, before: string, text: string, kw: string)
    requires kw != "" && Quiet(head, kw) && '\'' !in before && Opens(head, before, text)
    ensures CutAt(text, kw).Some? ==> Opens(head, before, CutAt(text, kw).value.0)
  {
    hide Quiet, KeywordAt;
    var found := FindKeyword(text, kw);
    if found.Some? {
      FoundKeyword(text, kw);
      assert found.value + |kw| <= |text| by { KeywordFits(text, kw, found.value); }
      if found.value < |Opening(head, before)| { NoKeywordBefore(head, before, text, kw, found.value); }
    }
  }

  lemma PaddedOpens(head: string, before: string, text: string, rest: string)
    requires Opens(head, before, text)
    ensures Opens(head, before, text + " " + rest)
  {
  }

  /** The text the conditions of a parsed rule are read from still opens with the literal. */
  lemma ConditionsOpen(u: Unicode, head: string, before: string, text: string) returns (where: string)
    requires head != "" && !IsWhitespace(head[0]) && Quiet(head, ON_ACCOUNT) && Quiet(head, ACTION) && '\'' !in before
    requires Opens(head, before, text) && ParseRule(u, text).Ok?
    ensures Opens(head, before, where) && Trim(where) == where && where != ""
    ensures ParseConditions(u, where) == Ok(ParseRule(u, text).value.conditions)
  {
    hide Quiet, Opens, Trim, ParseConditions, NsqlActions.ParseActionsText, CutAt, AccountTarget;
    var trimmed := Trim(text);
    TrimOpens(head, before, text);
    CutOpens(head, before, trimmed, ON_ACCOUNT);
    var body := ExtractOnAccount(text).value.1;
    var account := CutAt(trimmed, ON_ACCOUNT);
    if account.Some? {
      TrimOpens(head, before, account.value.0);
      var rest := AccountTarget(Trim(account.value.1)).value.1;
      PaddedOpens(head, before, Trim(account.value.0), Trim(rest));
      TrimOpens(head, before, Trim(account.value.0) + " " + Trim(rest));
    }
    assert Opens(head, before, body);
    TrimOpens(head, before, body);
    CutOpens(head, before, Trim(body), ACTION);
    var action := CutAt(Trim(body), ACTION);
    var conditions := if action.Some? then action.value.0 else Trim(body);
    TrimOpens(head, before, conditions);
    where := Trim(conditions);
    NsqlActions.TrimTwice(conditions);
  }

  // ---------------------------------------------------------------- the first quoted literal

  predicate QuotedPlace(node: ConditionNode, place: Place) {
    LiteralAt(node, place) && EarlierPlain(node, place) && '\'' in LiteralOf(node, place)
  }

  lemma {:induction false} FirstQuotedItem(items: seq<string>, n: nat) returns (i: nat)
    requires n < |items| && '\'' in items[n]
    ensures i < |items| && '\'' in items[i] && forall j | 0 <= j < i :: '\'' !in items[j]
  {
    i := 0;
    while '\'' !in items[i]
      invariant i <= n && forall j | 0 <= j < i :: '\'' !in items[j]
      decreases n - i
    {
      i := i + 1;
    }
  }

  /** A tree with a quoted literal has a first one. */
  lemma {:induction false} FirstQuoted(node: ConditionNode) returns (place: Place)
    requires HeaderFreeNode(node) && !Unquoted(node)
    ensures QuotedPlace(node, place)
    decreases node, 1
  {
    hide LiteralIn, EarlierPlainIn, LiteralOfIn, AllUnquoted, HeaderFreeNodes;
    match node {
      case Leaf(leaf) =>
        if leaf.value.String? {
          place := Item(0);
        } else {
          var n :| 0 <= n < |leaf.value.items| && '\'' in leaf.value.items[n];
          var i := FirstQuotedItem(leaf.value.items, n);
          place := Item(i);
        }
      case And(children) =>
        var k, below := FirstQuotedIn(children);
        place := Child(k, below);
      case Or(children) =>
        var k, below := FirstQuotedIn(children);
        place := Child(k, below);
      case Not(inner) =>
        var below := FirstQuoted(inner);
        place := Inner(below);
    }
  }

  lemma {:induction false} FirstQuotedIn(nodes: seq<ConditionNode>) returns (k: nat, below: Place)
    requires HeaderFreeNodes(nodes) && !AllUnquoted(nodes)
    ensures LiteralIn(nodes, k, below) && EarlierPlainIn(nodes, k, below) && '\'' in LiteralOfIn(nodes, k, below)
    decreases nodes, 0
  {
    hide LiteralAt, EarlierPlain, LiteralOf, Unquoted, HeaderFreeNode;
    if !Unquoted(nodes[0]) {
      k := 0;
      below := FirstQuoted(nodes[0]);
      QuotedPlaceFacts(nodes[0], below);
    } else {
      var j, deeper := FirstQuotedIn(nodes[1..]);
      k, below := j + 1, deeper;
    }
  }

  lemma QuotedPlaceFacts(node: ConditionNode, place: Place)
    requires QuotedPlace(node, place)
    ensures LiteralAt(node, place) && EarlierPlain(node, place) && '\'' in LiteralOf(node, place)
  {
  }

  // ---------------------------------------------------------------- the pieces in front begin the statement

  lemma {:induction false} ItemsFrontPrefix(items: seq<string>, i: nat)
    requires i < |items|
    ensures ItemsFront(items, i) <= ItemPieces(items)
    decreases i
  {
    if i == 0 {
    } else {
      ItemsFrontPrefix(items[1..], i - 1);
      PrefixBehind([Tok(Str(items[0])), SymPiece(Comma), Space], ItemsFront(items[1..], i - 1), ItemPieces(items[1..]));
    }
  }

  lemma PrefixBehind(a: seq<Piece>, b: seq<Piece>, c: seq<Piece>)
    requires b <= c
    ensures a + b <= a + c
  {
  }

  lemma PrefixLonger(a: seq<Piece>, b: seq<Piece>, c: seq<Piece>)
    requires a <= b
    ensures a <= b + c
  {
  }

  lemma LeafFrontPrefix(leaf: ConditionLeaf, i: nat)
    requires LiteralAt(Leaf(leaf), Item(i))
    ensures LeafFrontPieces(leaf, i, false) <= LeafPieces(leaf, false)
  {
    hide FieldText, OperatorPieces, ItemPieces, ItemsFront;
    var word, op, value := [WordPiece(FieldText(leaf.field)), Space], OperatorPieces(leaf.operator, false), ValuePieces(leaf.value);
    var back := if leaf.value.List? then [SymPiece(LParen)] + ItemsFront(leaf.value.items, i) else [];
    if leaf.value.List? {
      var items := leaf.value.items;
      ItemsFrontPrefix(items, i);
      PrefixLonger(ItemsFront(items, i), ItemPieces(items), [SymPiece(RParen)]);
      PrefixBehind([SymPiece(LParen)], ItemsFront(items, i), ItemPieces(items) + [SymPiece(RParen)]);
      PiecesRegrouped([SymPiece(LParen)], ItemPieces(items), [SymPiece(RParen)]);
    }
    assert back <= value;
    PrefixBehind([Space], back, value);
    PrefixBehind(op, [Space] + back, [Space] + value);
    PrefixBehind(word, op + ([Space] + back), op + ([Space] + value));
    PiecesRegrouped(word + op, [Space], value);
    PiecesRegrouped(word, op, [Space] + value);
  }

  lemma {:induction false} FrontPrefix(node: ConditionNode, place: Place)
    requires LiteralAt(node, place)
    ensures FrontPieces(node, place, false) <= NodePieces(node, false)
    decreases node, 1
  {
    hide LeafFrontPieces, LeafPieces, GroupPieces, FrontPiecesIn, LiteralIn;
    match node {
      case Leaf(leaf) => LeafFrontPrefix(leaf, place.i);
      case And(children) => FrontInPrefix("AND", children, place.k, place.below);
      case Or(children) => FrontInPrefix("OR", children, place.k, place.below);
      case Not(inner) =>
        FrontPrefix(inner, place.below);
        var head := [WordPiece("NOT"), Space, SymPiece(LParen)];
        PrefixBehind(head, FrontPieces(inner, place.below, false), NodePieces(inner, false));
        PrefixLonger(head + FrontPieces(inner, place.below, false), head + NodePieces(inner, false), [SymPiece(RParen)]);
    }
  }

  lemma {:induction false} FrontInPrefix(word: string, nodes: seq<ConditionNode>, k: nat, below: Place)
    requires LiteralIn(nodes, k, below)
    ensures FrontPiecesIn(word, nodes, k, below, false) <= GroupPieces(word, nodes, false)
    decreases nodes, 0
  {
    hide LiteralAt, FrontPieces, NodePieces, Operand, TailPieces;
    if k == 0 {
      var body := NodePieces(nodes[0], false);
      FrontPrefix(nodes[0], below);
      PrefixBehind([SymPiece(LParen)], FrontPieces(nodes[0], below, false), body);
      PrefixLonger([SymPiece(LParen)] + FrontPieces(nodes[0], below, false), [SymPiece(LParen)] + body, [SymPiece(RParen)]);
      PrefixLonger([SymPiece(LParen)] + FrontPieces(nodes[0], below, false), [SymPiece(LParen)] + body + [SymPiece(RParen)], TailPieces(word, nodes[1..], false));
    } else {
      LiteralNeedsNodes(nodes[1..], k - 1, below);
      FrontInPrefix(word, nodes[1..], k - 1, below);
      GroupAsOperand(word, nodes);
      PrefixBehind(Operand(nodes[0], word, false), FrontPiecesIn(word, nodes[1..], k - 1, below, false), GroupPieces(word, nodes[1..], false));
    }
  }

  lemma FrontOfPrefix(node: ConditionNode, place: Place)
    requires LiteralAt(node, place)
    ensures FrontOf(node, place, false) <= STATEMENT_HEAD + [Space] + NodePieces(node, false)
  {
    hide STATEMENT_HEAD, FrontPieces, NodePieces, LiteralAt;
    FrontPrefix(node, place);
    PiecesRegrouped(STATEMENT_HEAD, [Space], FrontPieces(node, place, false));
    PrefixBehind(STATEMENT_HEAD + [Space], FrontPieces(node, place, false), NodePieces(node, false));
  }

  lemma FrontOfOpen(node: ConditionNode, place: Place)
    requires HeaderFreeNode(node) && LiteralAt(node, place) && EarlierPlain(node, place)
    ensures OpenEnded(FrontOf(node, place, false))
  {
    hide STATEMENT_HEAD, FrontPieces, LiteralAt, EarlierPlain, WellSpacedOpen, WellSpaced, KnownPiece, Follows;
    var front := FrontPieces(node, place, false);
    FrontOpen(node, place, None);
    FrontOpen(node, place, Some(Tok(Str(""))));
    HeadOpen(Some(Space));
    OpenFront(Space, Head(front));
    OpenConcat([Space], front, None);
    OpenConcat(STATEMENT_HEAD, [Space] + front, None);
    OpenIsClosed(FrontOf(node, place, false));
    LastBeforeStr(front);
  }

  lemma {:induction false} LastBeforeStr(ps: seq<Piece>)
    requires ps != [] && WellSpacedOpen(ps, Some(Tok(Str(""))))
    ensures ps[|ps| - 1] == Space || ps[|ps| - 1] == SymPiece(LParen)
    decreases |ps|
  {
    if |ps| == 1 {
      BeforeStr(ps[0], Tok(Str("")));
    } else {
      hide KnownPiece, Follows;
      LastBeforeStr(ps[1..]);
    }
  }

  // ---------------------------------------------------------------- quotes

  lemma NoHeaderBeforeBackslash(s: string, rest: string)
    requires s != "" && '\'' !in s
    ensures HeaderMatch(s + ("\\" + rest)) == None
  {
    var text := s + ("\\" + rest);
    if |s| >= 6 && SameIgnoreCase(s[..6], "header") {
      assert text[..6] == s[..6] && text[6..] == s[6..] + ("\\" + rest);
      TrimStartConcat(s[6..], "\\" + rest);
      TrimStartFacts(s[6..]);
      var a := TrimStart(s[6..]);
      assert forall c | c in a :: c in s[6..] && c in s;
      if a != "" && a[0] == '[' {
        assert (a + ("\\" + rest))[1..] == a[1..] + ("\\" + rest);
        TrimStartConcat(a[1..], "\\" + rest);
        TrimStartFacts(a[1..]);
        var b := TrimStart(a[1..]);
        assert forall c | c in b :: c in a;
        if b != "" { assert b[0] in b; }
      }
    } else if |s| < 6 && |text| >= 6 {
      assert text[|s|] == '\\' && text[..6][|s|] == '\\';
      assert !EqIgnoreCase('\\', "header"[|s|]);
    } else if |s| >= 6 {
      assert text[..6] == s[..6];
    }
  }

  /** Between the opening quote and the escaped one no header pattern starts. */
  lemma NoMatchInOpening(head: string, before: string, rest: string, p: nat)
    requires '\'' !in before && |head| <= p < |head| + 1 + |before| + 1
    ensures var where := head + ("'" + (before + ("\\" + rest))); p < |where| && HeaderMatch(where[p..]).None?
  {
    hide HeaderMatch;
    var where := head + ("'" + (before + ("\\" + rest)));
    if p == |head| {
      assert where[p..][0] == '\'' && SafeStart(where[p..]);
      NoHeaderHere(where[p..]);
    } else if p == |head| + 1 + |before| {
      assert where[p..][0] == '\\' && SafeStart(where[p..]);
      NoHeaderHere(where[p..]);
    } else {
      var tail := before[p - |head| - 1..];
      assert where[p..] == tail + ("\\" + rest);
      assert forall c | c in tail :: c in before;
      NoHeaderBeforeBackslash(tail, rest);
    }
  }

  lemma QuoteIsOff(before: string, behind: string, rest: string)
    requires '\'' !in before
    ensures Off(before + ("\\" + rest), before + "'" + behind, |before|)
  {
    var s, x := before + ("\\" + rest), before + "'" + behind;
    assert s[..|before|] == before == x[..|before|] && s[|before|] == '\\' && x[|before|] == '\'';
    assert s[..|before| + 1] == before + "\\";
  }

  lemma CutOpening(head: string, before: string, rest: string, more: string)
    ensures var where := head + ("'" + (before + ("\\" + rest)));
            where[..|head| + 1 + |before| + 1] + more == head + ("'" + (before + ("\\" + more)))
  {
    var where := head + ("'" + (before + ("\\" + rest)));
    assert where[..|head| + 1 + |before| + 1] == head + ("'" + (before + "\\"));
  }

  /** Conditions read from a text that opens with a quoted literal are not the ones that were printed. */
  lemma QuotedReadsOther(u: Unicode, node: ConditionNode, place: Place, before: string, behind: string, where: string)
    requires u.Valid() && HeaderFreeNode(node) && TuplesPlain(node) && LiteralAt(node, place) && EarlierPlain(node, place)
    requires LiteralOf(node, place) == before + "'" + behind && '\'' !in before
    requires Opens(Flatten(FrontOf(node, place, false)), before, where) && Trim(where) == where
    ensures ParseConditions(u, where) != Ok(node)
  {
    hide *;
    var ps := FrontOf(node, place, false);
    var head := Flatten(ps);
    OpeningParts(head, before, where);
    var rest := "'" + where[|head| + |before| + 3..];
    FrontOfPrefix(node, place);
    FrontOfOpen(node, place);
    OpenEndedSpaced(ps);
    var p := FirstMatch(where);
    var n := |head| + 1 + |before| + 1;
    if p < |head| {
      HeaderReadsOther(u, node, ps, "'" + (before + ("\\" + rest)), p);
    } else {
      if p < n { NoMatchInOpening(head, before, rest, p); }
      NoMatchShorter(where, p, n);
      ReplacedFrom(where, n);
      var more := ReplaceHeaders(where[n..]);
      CutOpening(head, before, rest, more);
      QuoteIsOff(before, behind, more);
      QuoteInside(before, behind);
      InPlaceThere(node, place);
      OffReadsOther(u, node, place, where, before + ("\\" + more), |before|);
    }
  }

  lemma OpenEndedSpaced(ps: seq<Piece>)
    requires OpenEnded(ps)
    ensures WellSpaced(ps) && ps != []
  {
  }

  lemma NoMatchShorter(s: string, p: nat, n: nat)
    requires p <= |s| && NoMatchBefore(s, p) && n <= p
    ensures NoMatchBefore(s, n)
  {
  }

  // ---------------------------------------------------------------- printed rules

  lemma {:induction false} EscapedUpTo(before: string, behind: string)
    requires '\'' !in before
    ensures EscapeQuotes(before + "'" + behind) == before + "\\'" + EscapeQuotes(behind)
  {
    var s := before + "'" + behind;
    if before == "" {
      assert s == "'" + behind && s[1..] == behind;
    } else {
      assert before[0] in before && s[0] == before[0] && s[1..] == before[1..] + "'" + behind;
      assert forall c | c in before[1..] :: c in before;
      EscapedUpTo(before[1..], behind);
      assert [before[0]] + (before[1..] + "\\'" + EscapeQuotes(behind)) == before + "\\'" + EscapeQuotes(behind);
    }
  }

  lemma QuoteSplits(s: string)
    requires '\'' in s
    ensures var k := IndexOf(s, '\''); k < |s| && s == s[..k] + "'" + s[k + 1..] && '\'' !in s[..k]
  {
    hide IndexOf;
    var k := IndexOf(s, '\'');
    var i :| 0 <= i < |s| && s[i] == '\'';
    assert k <= i;
    CutAtQuote(s, k);
  }

  lemma CutAtQuote(s: string, k: nat)
    requires k < |s| && s[k] == '\''
    ensures s == s[..k] + "'" + s[k + 1..]
  {
  }
  lemma RuleOpens(node: ConditionNode, place: Place, actions: seq<RuleAction>, before: string, behind: string)
    requires LiteralAt(node, place) && EarlierPlain(node, place)
    requires LiteralOf(node, place) == before + "'" + behind && '\'' !in before
    ensures Opens(Flatten(FrontOf(node, place, false)), before, RuleText(node, actions))
  {
    hide Flatten, FrontPieces, STATEMENT_HEAD, STATEMENT_TEXT, NodeText, LiteralAt, EarlierPlain, LiteralOf, EscapeQuotes, ActionsClause, SELECT_PREFIX;
    var front := FrontPieces(node, place, false);
    var rest := FrontText(node, place);
    HeadSpelled();
    PrefixIsStatement();
    FlattenConcat(STATEMENT_HEAD, [Space] + front);
    FlattenConcat([Space], front);
    FlattenOne(Space);
    EscapedUpTo(before, behind);
    var clause := ActionsClause(actions);
    var tail := if clause == "" then "" else " ACTION " + clause;
    assert RuleText(node, actions) == SELECT_PREFIX + NodeText(node) + tail by { TailAppended(SELECT_PREFIX + NodeText(node), clause); }
    OpeningSpelled(STATEMENT_TEXT, Flatten(front), before, EscapeQuotes(behind), rest, tail);
  }

  lemma TailAppended(s: string, clause: string)
    ensures s + "" == s && s + " ACTION " + clause == s + (" ACTION " + clause)
  {
  }

  lemma OpeningSpelled(a: string, front: string, before: string, escaped: string, rest: string, tail: string)
    ensures Opens(a + (" " + front), before, a + " " + (front + (("'" + (before + "\\'" + escaped) + "'") + rest)) + tail)
  {
    var head := a + (" " + front);
    assert "\\'" == "\\" + "'";
    assert a + " " + (front + (("'" + (before + "\\'" + escaped) + "'") + rest)) + tail ==
           head + "'" + before + "\\" + "'" + (escaped + "'" + rest + tail);
  }

  lemma FrontIsQuiet(node: ConditionNode, place: Place, kw: string)
    requires LiteralAt(node, place) && OpenEnded(FrontOf(node, place, false)) && (kw == ACTION || kw == ON_ACCOUNT)
    ensures Quiet(Flatten(FrontOf(node, place, false)), kw)
  {
    hide Quiet, Flatten, FrontPieces, STATEMENT_HEAD, LiteralAt, WellSpaced, KnownPiece, FrontOf;
    WellSpacedKnown(FrontOf(node, place, false));
    PiecesAreQuiet(FrontOf(node, place, false), kw);
  }

  lemma FrontStarts(node: ConditionNode, place: Place)
    requires LiteralAt(node, place)
    ensures var head := Flatten(FrontOf(node, place, false)); head != "" && !IsWhitespace(head[0])
  {
    hide Flatten, FrontPieces, STATEMENT_HEAD, LiteralAt;
    HeadStarts([Space] + FrontPieces(node, place, false));
  }

  /** A rule with a single quote in a literal does not come back, whatever its actions are and wherever the quotes
      let the scanners break the text, unless the quote stands in a list outside IN. */
  lemma QuotedRuleIsLost(u: Unicode, conditions: ConditionNode, actions: seq<RuleAction>)
    requires u.Valid() && HeaderFreeNode(conditions) && TuplesPlain(conditions) && !Unquoted(conditions)
    ensures !RoundTripInvariant(u, conditions, actions)
  {
    hide *;
    var place := FirstQuoted(conditions);
    QuotedPlaceFacts(conditions, place);
    QuoteSplits(LiteralOf(conditions, place));
    var k := IndexOf(LiteralOf(conditions, place), '\'');
    QuotedAtIsLost(u, conditions, place, actions, LiteralOf(conditions, place)[..k], LiteralOf(conditions, place)[k + 1..]);
  }

  lemma QuotedAtIsLost(u: Unicode, conditions: ConditionNode, place: Place, actions: seq<RuleAction>, before: string, behind: string)
    requires u.Valid() && HeaderFreeNode(conditions) && TuplesPlain(conditions) && LiteralAt(conditions, place) && EarlierPlain(conditions, place)
    requires LiteralOf(conditions, place) == before + "'" + behind && '\'' !in before
    ensures !RoundTripInvariant(u, conditions, actions)
  {
    hide *;
    var text := RuleText(conditions, actions);
    KeywordsSpelled();
    RuleOpens(conditions, place, actions, before, behind);
    FrontOfOpen(conditions, place);
    FrontIsQuiet(conditions, place, ACTION);
    FrontIsQuiet(conditions, place, ON_ACCOUNT);
    FrontStarts(conditions, place);
    InvariantUnfold(u, conditions, actions);
    if RoundTripInvariant(u, conditions, actions) {
      var where := ConditionsOpen(u, Flatten(FrontOf(conditions, place, false)), before, text);
      QuotedReadsOther(u, conditions, place, before, behind, where);
    }
  }

  lemma KeywordsSpelled()
    ensures ACTION == "ACTION" && ON_ACCOUNT == "ON ACCOUNT" && ACTION != "" && ON_ACCOUNT != ""
  {
  }

  lemma InvariantUnfold(u: Unicode, conditions: ConditionNode, actions: seq<RuleAction>)
    ensures RoundTripInvariant(u, conditions, actions) ==>
              var r := ParseRule(u, RuleText(conditions, actions)); r.Ok? && r.value.conditions == conditions && r.value.actions == actions
  {
  }

  // ---------------------------------------------------------------- header patterns

  /** The text goes on with whitespace behind its beginning. */
  predicate Heads(h: string, t: string) { h <= t && (|t| > |h| ==> IsWhitespace(t[|h|])) }

  lemma TrimHeads(h: string, t: string)
    requires h != "" && Trimmed(h) && Heads(h, t)
    ensures Heads(h, Trim(t)) && Trim(t) != ""
  {
    hide IsWhitespace;
    var rest := t[|h|..];
    assert t == h + rest && t[0] == h[0];
    assert TrimStart(t) == t;
    NsqlActions.TrimEndBehind(h, rest);
    TrimEndFacts(rest);
    assert TrimEnd(rest) <= rest;
    if TrimEnd(rest) != "" { assert TrimEnd(rest)[0] == rest[0] == t[|h|]; }
  }

  lemma CutHeads(h: string, text: string, i: nat)
    requires Heads(h, text) && |h| <= i <= |text|
    ensures Heads(h, text[..i])
  {
  }

  lemma PadHeads(h: string, t: string, rest: string)
    requires Heads(h, t)
    ensures Heads(h, t + " " + rest)
  {
  }

  /** With plain conditions in front the actions have no say in how the conditions are read. */
  lemma ConditionsUndisturbed(u: Unicode, conditions: ConditionNode, actions: seq<RuleAction>)
    requires u.Valid() && Unquoted(conditions) && ParseRule(u, RuleText(conditions, actions)).Ok?
    ensures ParseConditions(u, StatementText(conditions)) == Ok(ParseRule(u, RuleText(conditions, actions)).value.conditions)
  {
    hide *;
    StatementIsTrimmed(conditions);
    if actions == [] {
      NoActionsNoClause(conditions);
      BareRule(u, conditions);
      BareConditions(u, conditions);
    } else {
      var h := ConditionsPart(conditions) + " " + ACTION;
      RuleHeads(conditions, actions);
      HeadIsQuiet(conditions);
      ReadUpToAction(u, ConditionsPart(conditions), RuleText(conditions, actions));
      StatementTrims(conditions);
      PartText(conditions);
    }
  }

  lemma PartText(conditions: ConditionNode)
    ensures ConditionsPart(conditions) == SELECT_PREFIX + NodeText(conditions)
  {
  }

  lemma StatementIsTrimmed(conditions: ConditionNode)
    requires Unquoted(conditions)
    ensures StatementText(conditions) == Flatten(StatementPieces(conditions, false)) && Trim(StatementText(conditions)) == StatementText(conditions)
    ensures StatementText(conditions) != ""
  {
    hide Flatten, StatementPieces, NodeText, Trim, Trimmed;
    StatementTrims(conditions);
    StatementTrimmed(conditions);
    TrimIdentity(StatementText(conditions));
  }

  lemma BareConditions(u: Unicode, conditions: ConditionNode)
    requires var s := StatementText(conditions);
             ExtractOnAccount(ConditionsPart(conditions)) == Ok(("*", s)) && SplitWhereAndActions(u, s) == Ok((s, []))
    requires ParseRule(u, ConditionsPart(conditions)).Ok?
    ensures ParseConditions(u, StatementText(conditions)) == Ok(ParseRule(u, ConditionsPart(conditions)).value.conditions)
  {
    hide ParseConditions, ExtractOnAccount, SplitWhereAndActions, StatementText, ConditionsPart;
  }

  lemma RuleHeads(conditions: ConditionNode, actions: seq<RuleAction>)
    requires actions != []
    ensures Heads(ConditionsPart(conditions) + " " + ACTION, RuleText(conditions, actions)) && Trim(RuleText(conditions, actions)) == RuleText(conditions, actions)
    ensures Trimmed(ConditionsPart(conditions) + " " + ACTION)
  {
    hide Trim, ActionsClause, NodeText, RuleText, ConditionsPart;
    ClauseTrimmed(actions);
    RuleTextParts(conditions, actions);
    RuleTextIsTrimmed(conditions, ActionsClause(actions));
    TrimIdentity(RuleText(conditions, actions));
    var h := ConditionsPart(conditions) + " " + ACTION;
    assert RuleText(conditions, actions) == h + (" " + ActionsClause(actions));
    PartStarts(conditions);
    assert h[0] == ConditionsPart(conditions)[0] && h[|h| - 1] == ACTION[5];
  }

  lemma PartStarts(conditions: ConditionNode)
    ensures ConditionsPart(conditions) != "" && ConditionsPart(conditions)[0] == 'S'
  {
    hide NodeText;
  }

  lemma HeadIsQuiet(conditions: ConditionNode)
    requires Unquoted(conditions)
    ensures Quiet(ConditionsPart(conditions) + " ", ACTION) && Quiet(ConditionsPart(conditions) + " " + ACTION, ON_ACCOUNT)
  {
    hide Quiet, ConditionsPart;
    ConditionsAreQuiet(conditions, ACTION);
    ConditionsAreQuiet(conditions, ON_ACCOUNT);
    SeparatorsAreQuiet();
    QuietConcat(ConditionsPart(conditions) + " ", ACTION, ON_ACCOUNT);
  }

  /** With or without an account clause behind it, ACTION is found where it was printed. */
  lemma BodyCut(part: string, text: string)
    requires var h := part + " " + ACTION; h != "" && Trimmed(h) && Heads(h, text) && Trim(text) == text
    requires Quiet(part + " ", ACTION) && Quiet(part + " " + ACTION, ON_ACCOUNT)
    requires ExtractOnAccount(text).Ok?
    ensures var cut := CutAt(Trim(ExtractOnAccount(text).value.1), ACTION); cut.Some? && cut.value.0 == part + " "
  {
    var h := part + " " + ACTION;
    hide Quiet, Heads, Trim, Trimmed, AccountTarget, CutAt;
    var account := CutAt(text, ON_ACCOUNT);
    var body := ExtractOnAccount(text).value.1;
    if account.Some? {
      AccountBehind(h, text);
      TrimHeads(h, account.value.0);
      var rest := Trim(AccountTarget(Trim(account.value.1)).value.1);
      PadHeads(h, Trim(account.value.0), rest);
      TrimHeads(h, Trim(account.value.0) + " " + rest);
    }
    assert Heads(h, body);
    TrimHeads(h, body);
    ActionAtHead(part, Trim(body));
  }

  /** Whatever stands behind ACTION, the conditions are read from the text before it. */
  lemma ReadUpToAction(u: Unicode, part: string, text: string)
    requires var h := part + " " + ACTION; h != "" && Trimmed(h) && Heads(h, text) && Trim(text) == text
    requires Quiet(part + " ", ACTION) && Quiet(part + " " + ACTION, ON_ACCOUNT)
    requires ParseRule(u, text).Ok?
    ensures ParseConditions(u, Trim(part + " ")) == Ok(ParseRule(u, text).value.conditions)
  {
    hide Quiet, Heads, Trim, Trimmed, ParseConditions, NsqlActions.ParseActionsText, ExtractOnAccount, CutAt;
    BodyCut(part, text);
  }

  lemma AccountBehind(h: string, text: string)
    requires Heads(h, text) && Quiet(h, ON_ACCOUNT) && CutAt(text, ON_ACCOUNT).Some?
    ensures Heads(h, CutAt(text, ON_ACCOUNT).value.0)
  {
    hide Quiet, KeywordAt;
    FoundKeyword(text, ON_ACCOUNT);
    var i := FindKeyword(text, ON_ACCOUNT).value;
    assert text == h + text[|h|..];
    if i < |h| { QuietNotAt(h, text[|h|..], ON_ACCOUNT, i); }
    CutHeads(h, text, i);
  }

  lemma ActionAtHead(part: string, t: string)
    requires Heads(part + " " + ACTION, t) && Quiet(part + " ", ACTION)
    ensures CutAt(t, ACTION).Some? && CutAt(t, ACTION).value.0 == part + " "
  {
    hide Quiet, KeywordAt, FindKeyword;
    var before := part + " ";
    var rest := t[|before + ACTION|..];
    assert t == before + ACTION + rest;
    KeywordAfterQuiet(before, ACTION, rest);
    assert t[..|before|] == before;
  }

  /** A rule whose printed conditions hold a header pattern does not come back, whatever its actions are, unless a
      list outside IN holds the literal it starts in. */
  lemma HeaderRuleIsLost(u: Unicode, conditions: ConditionNode, actions: seq<RuleAction>)
    requires u.Valid() && Unquoted(conditions) && TuplesPlain(conditions) && !NoHeaderPattern(conditions)
    ensures !RoundTripInvariant(u, conditions, actions)
  {
    InvariantUnfold(u, conditions, actions);
    if RoundTripInvariant(u, conditions, actions) {
      hide *;
      ConditionsUndisturbed(u, conditions, actions);
      HeaderStatementReadsOther(u, conditions);
    }
  }

  lemma HeaderStatementReadsOther(u: Unicode, node: ConditionNode)
    requires u.Valid() && Unquoted(node) && TuplesPlain(node) && !NoHeaderPattern(node)
    ensures ParseConditions(u, StatementText(node)) != Ok(node)
  {
    hide *;
    StatementIsTrimmed(node);
    var text := StatementText(node);
    var p := FirstMatch(text);
    SomeMatch(node, p);
    UnquotedIsHeaderFree(node);
    StatementWellSpaced(node, false);
    StatementPrefix(node);
    NothingBehind(text);
    HeaderReadsOther(u, node, StatementPieces(node, false), "", p);
  }

  lemma NothingBehind(s: string)
    ensures s + "" == s
  {
  }

  lemma SomeMatch(node: ConditionNode, p: nat)
    requires !NoHeaderPattern(node) && p <= |StatementText(node)| && NoMatchBefore(StatementText(node), p)
    ensures p < |StatementText(node)|
  {
    hide HeaderMatch, StatementText;
    var text := StatementText(node);
    assert text[..|text|] == text && text[|text|..] == "" && ReplaceHeaders("") == "" && text + "" == text;
    if p == |text| { ReplacedFrom(text, p); }
  }

  lemma StatementPrefix(node: ConditionNode)
    ensures StatementPieces(node, false) <= STATEMENT_HEAD + [Space] + NodePieces(node, false)
  {
    hide STATEMENT_HEAD, NodePieces;
    PiecesRegrouped(STATEMENT_HEAD, [Space], NodePieces(node, false));
    if NodePieces(node, false) == [] { assert STATEMENT_HEAD + [] == STATEMENT_HEAD; }
  }
}
