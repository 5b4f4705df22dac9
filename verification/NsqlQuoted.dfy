/** Literals that do not reach the parser as they were printed. The printer puts a backslash in front of a single
    quote, which ends the literal for the SQL library, and the pattern for header fields may match from one
    literal into the next. The first such literal is read as another string, whatever its rest is read as. */
module NsqlQuoted {
  import opened Wrappers
  import opened Text
  import opened NsqlAst
  import opened NsqlPreprocess
  import opened SqlSubset
  import NsqlConvert
  import NsqlRule
  import opened NsqlPieces
  import opened NsqlReading
  import opened NsqlPrinted
  import opened NsqlReread
  import opened NsqlCut
  import opened NsqlFront

  // ---------------------------------------------------------------- a literal that is off

  /** A character that starts neither of the rewritten words. */
  predicate Calm(c: char) { !RegexEq(c, CONTAINS_WORD[0]) && !RegexEq(c, MATCHES_WORD[0]) }

  /** The text runs along the literal up to `j`, where it differs, without a quote on the way. */
  predicate Off(s: string, literal: string, j: nat) {
    && j < |s| && j < |literal| && s[..j] == literal[..j] && s[j] != literal[j] && Calm(s[j])
    && '\'' !in s[..j + 1]
  }

  /** Where a rewrite first bites, its own letter stands in place of the keyword's. */
  lemma {:induction false} FirstBite(u: Unicode, inWord: bool, s: string, kw: string, replacement: string) returns (i: nat)
    requires kw != "" && replacement != ""
    ensures var r := ReplaceWord(u, inWord, s, kw, replacement);
            r == s || (i < |r| && i < |s| && r[..i] == s[..i] && r[i] == replacement[0] && RegexEq(s[i], kw[0]))
    decreases |s|
  {
    i := 0;
    if s == "" {
    } else {
      var start := WordHere(u, s, kw);
      if start { WordFirst(u, s, kw); }
      hide *;
      ReplaceStep(u, inWord, s, kw, replacement);
      if !inWord && start {
        assert ReplaceWord(u, inWord, s, kw, replacement)[0] == replacement[0];
      } else {
        var j := FirstBite(u, u.word(s[0]), s[1..], kw, replacement);
        var tail := ReplaceWord(u, u.word(s[0]), s[1..], kw, replacement);
        assert [s[0]] + s[1..] == s;
        if tail != s[1..] {
          i := j + 1;
          BittenBehind(s[0], tail, s[1..], j);
        }
      }
    }
  }

  lemma WordFirst(u: Unicode, s: string, kw: string)
    requires kw != "" && WordHere(u, s, kw)
    ensures s != "" && RegexEq(s[0], kw[0])
  {
  }

  lemma BittenBehind(c: char, a: string, b: string, j: nat)
    requires j < |a| && j < |b| && a[..j] == b[..j]
    ensures ([c] + a)[..j + 1] == ([c] + b)[..j + 1] && ([c] + a)[j + 1] == a[j] && ([c] + b)[j + 1] == b[j]
  {
    assert ([c] + a)[..j + 1] == [c] + a[..j] && ([c] + b)[..j + 1] == [c] + b[..j];
  }

  /** A word rewrite keeps it off. */
  lemma OffKept(u: Unicode, s: string, literal: string, j: nat, kw: string, tok: Token) returns (k: nat)
    requires IsRewrite(kw, tok) && Off(s, literal, j)
    ensures Off(ReplaceWord(u, false, s, kw, PieceText(Tok(tok))), literal, k)
  {
    RewriteLetters(kw, tok);
    hide ReplaceWord, RegexEq;
    var t := PieceText(Tok(tok));
    var r := ReplaceWord(u, false, s, kw, t);
    var i := FirstBite(u, false, s, kw, t);
    hide Off;
    if r == s {
      k := j;
    } else if i < j {
      k := i;
      BittenBefore(s, r, literal, i, j);
    } else {
      k := j;
      BittenLater(s, r, literal, i, j);
    }
  }

  lemma BittenBefore(s: string, r: string, literal: string, i: nat, j: nat)
    requires Off(s, literal, j) && i < j && i < |r| && r[..i] == s[..i] && r[i] != s[i] && Calm(r[i]) && r[i] != '\''
    ensures Off(r, literal, i)
  {
    hide Calm;
    assert s[i] == s[..j][i] == literal[..j][i] == literal[i];
    assert r[..i] == s[..j][..i] == literal[..j][..i] == literal[..i];
    assert r[..i + 1] == r[..i] + [r[i]] && s[..j + 1][..i] == s[..i];
  }

  lemma BittenLater(s: string, r: string, literal: string, i: nat, j: nat)
    requires Off(s, literal, j) && (i == j ==> !Calm(s[i])) && j <= i < |r| && i < |s| && r[..i] == s[..i]
    ensures Off(r, literal, j)
  {
    hide Calm;
    assert i > j;
    assert r[..j + 1] == r[..i][..j + 1] == s[..i][..j + 1] == s[..j + 1];
    assert r[..j] == r[..j + 1][..j] && s[..j] == s[..j + 1][..j] && r[j] == r[..j + 1][j] == s[..j + 1][j] == s[j];
  }

  /** The first letter of a replacement, which no keyword's match can be. */
  lemma RewriteLetters(kw: string, tok: Token)
    requires IsRewrite(kw, tok)
    ensures var t := PieceText(Tok(tok));
            t != "" && Calm(t[0]) && t[0] != '\'' && (forall c | RegexEq(c, kw[0]) :: c != t[0] && !Calm(c)) && kw != ""
  {
  }

  // ---------------------------------------------------------------- the literal that is read

  lemma {:induction false} LexStringKeeps(x: string, s: string)
    requires '\'' !in x && LexQuoted('\'', x + s).Some?
    ensures LexQuoted('\'', s).Some? && LexQuoted('\'', x + s).value.0 == x + LexQuoted('\'', s).value.0
  {
    if x == "" {
      assert x + s == s && x + LexQuoted('\'', s).value.0 == LexQuoted('\'', s).value.0;
    } else {
      assert x[0] in x && (x + s)[0] == x[0] && (x + s)[1..] == x[1..] + s;
      assert forall c | c in x[1..] :: c in x;
      LexStringKeeps(x[1..], s);
      assert [x[0]] + (x[1..] + LexQuoted('\'', s).value.0) == x + LexQuoted('\'', s).value.0;
    }
  }

  lemma LexLiteralStart(u: Unicode, x: string, s: string)
    requires u.Valid() && '\'' !in x && Lex(u, "'" + (x + s)).Some?
    ensures var tokens := Lex(u, "'" + (x + s)).value; tokens != [] && tokens[0].Str? && x <= tokens[0].value
  {
    assert ("'" + (x + s))[1..] == x + s;
    if LexQuoted('\'', x + s).Some? { LexStringKeeps(x, s); }
  }

  /** Another string is read in the literal's place. */
  lemma ReadsOff(u: Unicode, r: string, literal: string, j: nat)
    requires u.Valid() && Off(r, literal, j) && Lex(u, "'" + r).Some?
    ensures var ts := Lex(u, "'" + r).value; ts != [] && ts[0].Str? && ts[0].value != literal
  {
    hide Lex, Calm;
    assert r == r[..j + 1] + r[j + 1..];
    LexLiteralStart(u, r[..j + 1], r[j + 1..]);
    var v := Lex(u, "'" + r).value[0].value;
    assert v[j] == r[..j + 1][j] == r[j];
  }

  // ---------------------------------------------------------------- conditions that hold such a literal

  /** The statement up to the literal. */
  function FrontOf(node: ConditionNode, place: Place, sql: bool): seq<Piece>
    requires LiteralAt(node, place)
  {
    STATEMENT_HEAD + ([Space] + FrontPieces(node, place, sql))
  }

  lemma FrontOfRewritten(u: Unicode, node: ConditionNode, place: Place)
    requires HeaderFreeNode(node) && LiteralAt(node, place)
    ensures LiteralAt(RewriteNode(u, node), place)
    ensures RewriteBoth(u, FrontOf(node, place, false)) == FrontOf(RewriteNode(u, node), place, true)
  {
    hide RewriteBoth, STATEMENT_HEAD, FrontPieces, LiteralAt, RewriteNode;
    FrontRewritten(u, node, place);
    HeadRewritten(u);
    RewriteBothConcat(u, STATEMENT_HEAD, [Space] + FrontPieces(node, place, false));
    RewriteBothConcat(u, [Space], FrontPieces(node, place, false));
    RewriteBothOne(u, Space);
  }

  const SELECT_TOKENS: seq<Token> := [Word("SELECT"), Sym(Star), Word("FROM"), Word("emails"), Word("WHERE")]

  lemma FrontOfTokens(node: ConditionNode, place: Place)
    requires LiteralAt(node, place)
    ensures TokensOf(FrontOf(node, place, true)) == SELECT_TOKENS + Front(node, place)
  {
    hide TokensOf, Flatten, STATEMENT_HEAD, FrontPieces, LiteralAt, Front;
    HeadSpelled();
    FrontAsTokens(node, place);
    FlattenConcat(STATEMENT_HEAD, [Space] + FrontPieces(node, place, true));
    FlattenConcat([Space], FrontPieces(node, place, true));
    FlattenOne(Space);
    assert [] + Front(node, place) == Front(node, place);
  }

  lemma SelectBehind(ts: seq<Token>)
    ensures var all := SELECT_TOKENS + ts;
            ParseSelect(all).Some? ==> ParseSub(0, ts).Some? && ParseSub(0, ts).value.0 == ParseSelect(all).value
  {
    hide ParseSub, SameIgnoreCase;
    var all := SELECT_TOKENS + ts;
    assert all[5..] == ts;
  }

  /** Both rewrites of a statement whose literal is off. */
  lemma OffPreprocessed(u: Unicode, ps: seq<Piece>, s: string, literal: string, j: nat) returns (r: string, k: nat)
    requires u.Valid() && OpenEnded(ps) && Off(s, literal, j)
    ensures RewriteWords(u, Flatten(ps) + ("'" + s)) == Flatten(RewriteBoth(u, ps)) + ("'" + r) && Off(r, literal, k)
  {
    hide Flatten, WellSpaced, ReplaceWord, RewritePieces, Off, Unicode.Valid;
    var once := RewritePieces(u, ps, CONTAINS_WORD, Word("LIKE"));
    RewriteFront(u, ps, s, CONTAINS_WORD, Word("LIKE"));
    RewrittenWellSpaced(u, ps, CONTAINS_WORD, Word("LIKE"));
    var t := ReplaceWord(u, false, s, CONTAINS_WORD, "LIKE");
    var i := OffKept(u, s, literal, j, CONTAINS_WORD, Word("LIKE"));
    RewriteFront(u, once, t, MATCHES_WORD, Sym(Tilde));
    k := OffKept(u, t, literal, i, MATCHES_WORD, Sym(Tilde));
    r := ReplaceWord(u, false, t, MATCHES_WORD, "~");
    assert PieceText(Tok(Word("LIKE"))) == "LIKE" && PieceText(Tok(Sym(Tilde))) == "~";
  }

  lemma RewrittenOpenEnded(u: Unicode, ps: seq<Piece>)
    requires u.Valid() && OpenEnded(ps)
    ensures OpenEnded(RewriteBoth(u, ps))
  {
    hide WellSpaced, RewritePieces, RewriteWords, Flatten;
    BothRewritesOfPieces(u, ps);
    assert ps == ps[..|ps| - 1] + [ps[|ps| - 1]];
    RewriteBothConcat(u, ps[..|ps| - 1], [ps[|ps| - 1]]);
    RewriteBothOne(u, ps[|ps| - 1]);
    RewriteBothLength(u, ps);
  }

  lemma FrontOfIsFull(u: Unicode, node: ConditionNode, place: Place, rest: string)
    requires u.Valid() && LiteralAt(node, place)
    ensures var text := Flatten(FrontOf(node, place, true)) + rest; NsqlRule.FullStatement(u, text) == text
  {
    hide Flatten, NsqlRule.FullStatement, STATEMENT_HEAD, STATEMENT_TEXT, FrontPieces, LiteralAt;
    HeadSpelled();
    var back := [Space] + FrontPieces(node, place, true);
    FlattenConcat(STATEMENT_HEAD, back);
    ConcatAssociates(STATEMENT_TEXT, Flatten(back), rest);
    SelectStartsUpper(u, Flatten(back) + rest);
  }

  /** Conditions read from a text in which the literal is off are not the ones that were printed. */
  lemma OffReadsOther(u: Unicode, node: ConditionNode, place: Place, where: string, s: string, j: nat)
    requires u.Valid() && HeaderFreeNode(node) && LiteralAt(node, place) && InPlace(node, place)
    requires OpenEnded(FrontOf(node, place, false)) && Off(s, LiteralOf(node, place), j)
    requires Trim(where) == where && ReplaceHeaders(where) == Flatten(FrontOf(node, place, false)) + ("'" + s)
    ensures NsqlRule.ParseConditions(u, where) != Ok(node)
  {
    if NsqlRule.ParseConditions(u, where) == Ok(node) {
      assert where != "" && Lex(u, NsqlRule.FullStatement(u, Preprocess(u, where))).Some?;
      assert Preprocess(u, where) == RewriteWords(u, ReplaceHeaders(where));
      hide *;
      var r, k := OffPreprocessed(u, FrontOf(node, place, false), s, LiteralOf(node, place), j);
      FrontOfRewritten(u, node, place);
      RewrittenOpenEnded(u, FrontOf(node, place, false));
      var other := RewriteNode(u, node);
      FrontOfIsFull(u, other, place, "'" + r);
      LexFront(u, FrontOf(other, place, true), "'" + r);
      TokensBehind(TokensOf(FrontOf(other, place, true)), Lex(u, "'" + r));
      FrontOfTokens(other, place);
      ReadsOff(u, r, LiteralOf(node, place), k);
      ConditionsUnfold(u, where);
      OffParsed(u, node, place, Lex(u, "'" + r).value);
    }
  }

  lemma TokensRegrouped(a: seq<Token>, b: seq<Token>, c: seq<Token>)
    requires c != [] && c[0].Str?
    ensures a + b + c == a + Cut(b, c[0].value, c[1..])
  {
    assert [c[0]] + c[1..] == c;
  }

  /** The tree that is parsed carries the string that was read. */
  lemma OffParsed(u: Unicode, node: ConditionNode, place: Place, ts: seq<Token>)
    requires u.Valid() && HeaderFreeNode(node) && LiteralAt(node, place) && InPlace(node, place) && LiteralAt(RewriteNode(u, node), place)
    requires ts != [] && ts[0].Str? && ts[0].value != LiteralOf(node, place)
    ensures var e := ParseSelect(SELECT_TOKENS + Front(RewriteNode(u, node), place) + ts);
            e.Some? ==> NsqlConvert.ConvertExpr(u, e.value, 1) != Ok(node)
  {
    hide *;
    var other := RewriteNode(u, node);
    var (v, more) := (ts[0].value, ts[1..]);
    TokensRegrouped(SELECT_TOKENS, Front(other, place), ts);
    var cut := Cut(Front(other, place), v, more);
    SelectBehind(cut);
    var e := ParseSelect(SELECT_TOKENS + cut);
    if e.Some? && NsqlConvert.ConvertExpr(u, e.value, 1) == Ok(node) {
      RewriteKeepsShape(u, node);
      InPlaceRewritten(u, node, place);
      NodeCut(u, other, place, v, more);
      SlotRewritten(u, node, place);
      NsqlConvert.DepthDiscipline(u, e.value, 1);
      CarriedConverted(u, e.value, node, Slot(node, place), v);
      LiteralCarried(node, place);
      CarriesOne(node, Slot(node, place), v, LiteralOf(node, place));
    }
  }

  lemma CarriedConverted(u: Unicode, e: Expr, node: ConditionNode, slot: (nat, nat), v: string)
    requires Carried(u, e, slot, v) && NsqlConvert.Convertible(u, e) && NsqlConvert.Strip(u, e) == node
    ensures CarriedIn(node, slot, v)
  {
    hide CarriedIn;
  }

  lemma CarriesOne(node: ConditionNode, slot: (nat, nat), s: string, t: string)
    requires CarriedIn(node, slot, s) && CarriedIn(node, slot, t)
    ensures s == t
  {
    hide Leaves;
  }

  lemma {:induction false} InPlaceRewritten(u: Unicode, node: ConditionNode, place: Place)
    requires LiteralAt(node, place) && InPlace(node, place)
    ensures LiteralAt(RewriteNode(u, node), place) && InPlace(RewriteNode(u, node), place)
    decreases node, 1
  {
    hide RewriteWords, RewriteItems, RewriteNodes, InPlaceIn, LiteralIn;
    match node {
      case Leaf(_) =>
      case And(children) => InPlaceInRewritten(u, children, place.k, place.below);
      case Or(children) => InPlaceInRewritten(u, children, place.k, place.below);
      case Not(inner) => InPlaceRewritten(u, inner, place.below);
    }
  }

  lemma {:induction false} InPlaceInRewritten(u: Unicode, nodes: seq<ConditionNode>, k: nat, below: Place)
    requires LiteralIn(nodes, k, below) && InPlaceIn(nodes, k, below)
    ensures LiteralIn(RewriteNodes(u, nodes), k, below) && InPlaceIn(RewriteNodes(u, nodes), k, below)
    decreases nodes, 0
  {
    hide RewriteNode, InPlace, LiteralAt;
    assert RewriteNodes(u, nodes)[1..] == RewriteNodes(u, nodes[1..]) && RewriteNodes(u, nodes)[0] == RewriteNode(u, nodes[0]);
    if k == 0 { InPlaceRewritten(u, nodes[0], below); } else { InPlaceInRewritten(u, nodes[1..], k - 1, below); }
  }
}
