/** Printed text as a sequence of tokens and single spaces, and how each pass over the text sees it. */
module NsqlPieces {
  import opened Wrappers
  import opened Text
  import Decimal
  import opened NsqlScanner
  import opened NsqlPreprocess
  import opened SqlSubset

  datatype Piece = Space | Tok(token: Token)

  function SymbolText(s: Symbol): string {
    match s
    case EqSign => "="
    case NotEqSign => "!="
    case GtSign => ">"
    case LtSign => "<"
    case GtEqSign => ">="
    case LtEqSign => "<="
    case Tilde => "~"
    case LParen => "("
    case RParen => ")"
    case Comma => ","
    case Star => "*"
    case Minus => "-"
  }

  function PieceText(p: Piece): string {
    match p
    case Space => " "
    case Tok(Word(w)) => w
    case Tok(Delimited(name)) => "\"" + name + "\""
    case Tok(Number(d)) => d
    case Tok(Str(s)) => "'" + s + "'"
    case Tok(Sym(s)) => SymbolText(s)
  }

  function Flatten(ps: seq<Piece>): string {
    if ps == [] then "" else PieceText(ps[0]) + Flatten(ps[1..])
  }

  function TokensOf(ps: seq<Piece>): seq<Token> {
    if ps == [] then [] else (if ps[0].Space? then [] else [ps[0].token]) + TokensOf(ps[1..])
  }

  lemma {:induction false} FlattenConcat(a: seq<Piece>, b: seq<Piece>)
    ensures Flatten(a + b) == Flatten(a) + Flatten(b)
    ensures TokensOf(a + b) == TokensOf(a) + TokensOf(b)
  {
    hide PieceText;
    if a == [] {
      assert a + b == b;
    } else {
      assert (a + b)[0] == a[0] && (a + b)[1..] == a[1..] + b;
      FlattenConcat(a[1..], b);
      ConcatAssociates(PieceText(a[0]), Flatten(a[1..]), Flatten(b));
    }
  }

  // ---------------------------------------------------------------- well-spaced pieces

  /** The words the printers write. */
  const VOCABULARY: seq<string> :=
    ["SELECT", "FROM", "emails", "WHERE",
     "subject", "from", "to", "body", "has_attachment", "size", "folder", "date", "account",
     "CONTAINS", "MATCHES", "LIKE", "NOT", "IN", "AND", "OR", "true", "false"]

  predicate KnownPiece(p: Piece) {
    match p
    case Space => true
    case Tok(Word(w)) => w in VOCABULARY
    case Tok(Delimited(_)) => false
    case Tok(Number(d)) => d != "" && Decimal.AllDigits(d)
    case Tok(Str(s)) => '\'' !in s
    case Tok(Sym(_)) => true
  }

  /** A piece after which a word, number, literal or closing parenthesis ends. */
  predicate Closes(next: Option<Piece>) {
    next.None? || next.value == Space || next.value == Tok(Sym(RParen)) || next.value == Tok(Sym(Comma))
  }

  /** What may stand behind a piece so that neither runs into the other. */
  predicate Follows(p: Piece, next: Option<Piece>) {
    match p
    case Space => true
    case Tok(Sym(LParen)) => true
    case Tok(Sym(RParen)) => Closes(next)
    case Tok(Sym(Minus)) => next.Some? && next.value.Tok? && next.value.token.Number?
    case Tok(Sym(_)) => next.Some? && next.value == Space
    case Tok(Word(w)) => if w == MATCHES_WORD then next.Some? && next.value == Space else Closes(next)
    case Tok(_) => Closes(next)
  }

  function Head(ps: seq<Piece>): Option<Piece> {
    if ps == [] then None else Some(ps[0])
  }

  predicate WellSpaced(ps: seq<Piece>) {
    ps == [] || (KnownPiece(ps[0]) && Follows(ps[0], Head(ps[1..])) && WellSpaced(ps[1..]))
  }

  /** Well-spaced when `next` stands behind the last piece. */
  predicate WellSpacedOpen(ps: seq<Piece>, next: Option<Piece>) {
    ps == [] || (KnownPiece(ps[0]) && Follows(ps[0], if |ps| == 1 then next else Head(ps[1..])) && WellSpacedOpen(ps[1..], next))
  }

  lemma {:induction false} OpenConcat(a: seq<Piece>, b: seq<Piece>, next: Option<Piece>)
    requires b != [] && WellSpacedOpen(a, Head(b)) && WellSpacedOpen(b, next)
    ensures WellSpacedOpen(a + b, next)
  {
    if a == [] {
      assert a + b == b;
    } else {
      assert (a + b)[1..] == a[1..] + b;
      assert Head(a[1..] + b) == (if a[1..] == [] then Head(b) else Head(a[1..]));
      OpenConcat(a[1..], b, next);
    }
  }

  lemma {:induction false} OpenIsClosed(ps: seq<Piece>)
    requires WellSpacedOpen(ps, None)
    ensures WellSpaced(ps)
  {
    if ps == [] {
    } else {
      OpenIsClosed(ps[1..]);
    }
  }

  // ---------------------------------------------------------------- the keyword scanner sees nothing

  /** Nowhere does `hea` stand, and whether it does is decided inside the text. */
  predicate HeaderSafe(s: string) {
    s == "" || (SafeStart(s) && HeaderSafe(s[1..]))
  }

  predicate SafeStart(s: string)
    requires s != ""
  {
    || (s[0] != 'h' && s[0] != 'H')
    || (|s| > 1 && s[1] != 'e' && s[1] != 'E')
    || (|s| > 2 && s[2] != 'a' && s[2] != 'A')
  }

  /** Letters and underscores, a letter first, and every `h` followed by something other than `ea`. */
  predicate PlainWord(w: string) {
    && w != "" && IsAsciiLetter(w[0])
    && (forall i | 0 <= i < |w| :: IsAsciiLetter(w[i]) || w[i] == '_')
    && (forall i | 0 <= i < |w| && (w[i] == 'h' || w[i] == 'H') :: SafeStart(w[i..]))
  }

  lemma StatementWordsPlain()
    ensures PlainWord("SELECT") && PlainWord("FROM")
  {
  }

  lemma WherePlain()
    ensures PlainWord("WHERE") && PlainWord("emails")
  {
    assert "WHERE"[1..][2] == 'R';
  }

  lemma MatchesPlain()
    ensures PlainWord("MATCHES")
  {
    assert "MATCHES"[4..][2] == 'S';
  }

  lemma OperatorWordsPlain()
    ensures PlainWord("CONTAINS") && PlainWord("LIKE")
  {
  }

  lemma ConnectivesPlain()
    ensures PlainWord("NOT") && PlainWord("IN") && PlainWord("AND") && PlainWord("OR")
  {
  }

  lemma BooleansPlain()
    ensures PlainWord("true") && PlainWord("false")
  {
  }

  lemma AddressFieldsPlain()
    ensures PlainWord("from") && PlainWord("to") && PlainWord("account")
  {
  }

  lemma ContentFieldsPlain()
    ensures PlainWord("subject") && PlainWord("body") && PlainWord("size")
  {
  }

  lemma PlaceFieldsPlain()
    ensures PlainWord("folder") && PlainWord("date")
  {
  }

  lemma HasAttachmentPlain()
    ensures PlainWord("has_attachment")
  {
    var w := "has_attachment";
    assert forall i | 0 <= i < |w| && (w[i] == 'h' || w[i] == 'H') :: i == 0 || i == 9;
    assert w[0..][1] == 'a' && w[9..][1] == 'm';
  }

  lemma VocabularyIsPlain(w: string)
    requires w in VOCABULARY
    ensures PlainWord(w)
  {
    hide PlainWord;
    StatementWordsPlain();
    WherePlain();
    MatchesPlain();
    OperatorWordsPlain();
    ConnectivesPlain();
    BooleansPlain();
    AddressFieldsPlain();
    ContentFieldsPlain();
    PlaceFieldsPlain();
    HasAttachmentPlain();
  }

  lemma {:induction false} PlainIsSafe(w: string)
    requires forall i | 0 <= i < |w| && (w[i] == 'h' || w[i] == 'H') :: SafeStart(w[i..])
    ensures HeaderSafe(w)
  {
    if w == "" {
    } else {
      assert w[0..] == w;
      forall i | 0 <= i < |w[1..]| && (w[1..][i] == 'h' || w[1..][i] == 'H')
        ensures SafeStart(w[1..][i..])
      {
        assert w[1..][i..] == w[i + 1..];
      }
      PlainIsSafe(w[1..]);
    }
  }

  lemma WordShape(w: string)
    requires w in VOCABULARY
    ensures w != "" && AllAscii(w) && forall i | 0 <= i < |w| :: IsAsciiLetter(w[i]) || w[i] == '_'
    ensures IsAsciiLetter(w[0]) && HeaderSafe(w)
  {
    hide VOCABULARY;
    VocabularyIsPlain(w);
    PlainIsSafe(w);
  }

  lemma FirstLetters(w: string)
    requires w in VOCABULARY
    ensures w != "" && (EqIgnoreCase(w[0], 'a') ==> w == "account" || w == "AND") && (EqIgnoreCase(w[0], 'o') ==> w == "OR")
  {
  }

  lemma WordIsNotKeyword(w: string)
    requires w in VOCABULARY
    ensures MismatchAt(w, "ACTION", 0) && MismatchAt(w, "ON ACCOUNT", 0)
  {
    FirstLetters(w);
    hide VOCABULARY;
    if w == "account" {
      assert !EqIgnoreCase(w[0 + 2], "ACTION"[2]) && !EqIgnoreCase(w[0 + 0], "ON ACCOUNT"[0]);
    } else if w == "AND" {
      assert !EqIgnoreCase(w[0 + 1], "ACTION"[1]) && !EqIgnoreCase(w[0 + 0], "ON ACCOUNT"[0]);
    } else if w == "OR" {
      assert !EqIgnoreCase(w[0 + 0], "ACTION"[0]) && !EqIgnoreCase(w[0 + 1], "ON ACCOUNT"[1]);
    } else {
      assert !EqIgnoreCase(w[0 + 0], "ACTION"[0]) && !EqIgnoreCase(w[0 + 0], "ON ACCOUNT"[0]);
    }
  }

  lemma {:induction false} AfterPlain(s: string)
    requires forall i | 0 <= i < |s| :: !IsQuote(s[i])
    ensures After(Out, s) == Out
  {
    if s == "" {
    } else {
      AfterPlain(s[1..]);
    }
  }

  /** One run of characters that neither quote nor delimit: only its first can start a keyword. */
  lemma RunIsQuiet(s: string, kw: string)
    requires forall i | 0 <= i < |s| :: !IsQuote(s[i])
    requires forall i | 0 <= i < |s| - 1 :: !IsWhitespace(s[i]) && s[i] != ')'
    requires s != "" ==> MismatchAt(s, kw, 0)
    ensures Quiet(s, kw)
  {
    AfterPlain(s);
  }

  /** Text that starts with neither `a` nor `o`. */
  lemma OtherStart(s: string, kw: string)
    requires s != "" && !EqIgnoreCase(s[0], 'a') && !EqIgnoreCase(s[0], 'o')
    requires kw == "ACTION" || kw == "ON ACCOUNT"
    ensures MismatchAt(s, kw, 0)
  {
    assert !EqIgnoreCase(s[0 + 0], kw[0]);
  }

  lemma SymbolShape(s: Symbol)
    ensures var t := SymbolText(s);
            && 1 <= |t| <= 2 && (forall i | 0 <= i < |t| :: !IsQuote(t[i]) && !IsWhitespace(t[i]) && !IsAsciiLetter(t[i]) && !IsDigit(t[i]) && t[i] != '_' && IsAscii(t[i]))
            && (|t| == 2 ==> t[0] != ')')
  {
  }

  lemma PieceIsQuiet(p: Piece, kw: string)
    requires KnownPiece(p) && (kw == "ACTION" || kw == "ON ACCOUNT")
    ensures Quiet(PieceText(p), kw)
  {
    hide VOCABULARY, SymbolText, Quiet;
    match p {
      case Tok(Word(w)) =>
        WordShape(w);
        WordIsNotKeyword(w);
        RunIsQuiet(w, kw);
      case Tok(Str(s)) =>
        QuotedIsQuiet(s, kw);
      case Tok(Number(d)) =>
        OtherStart(d, kw);
        RunIsQuiet(d, kw);
      case Tok(Sym(s)) =>
        SymbolShape(s);
        OtherStart(SymbolText(s), kw);
        RunIsQuiet(SymbolText(s), kw);
      case Space =>
        OtherStart(" ", kw);
        RunIsQuiet(" ", kw);
    }
  }

  lemma {:induction false} PiecesAreQuiet(ps: seq<Piece>, kw: string)
    requires (forall p | p in ps :: KnownPiece(p)) && (kw == "ACTION" || kw == "ON ACCOUNT")
    ensures Quiet(Flatten(ps), kw)
  {
    if ps == [] {
    } else {
      assert ps[0] in ps && forall p | p in ps[1..] :: p in ps;
      PieceIsQuiet(ps[0], kw);
      PiecesAreQuiet(ps[1..], kw);
      QuietConcat(PieceText(ps[0]), Flatten(ps[1..]), kw);
    }
  }

  lemma {:induction false} WellSpacedKnown(ps: seq<Piece>)
    requires WellSpaced(ps)
    ensures forall p | p in ps :: KnownPiece(p)
  {
    if ps == [] {
    } else {
      WellSpacedKnown(ps[1..]);
      assert ps == [ps[0]] + ps[1..];
    }
  }

  // ---------------------------------------------------------------- the header rewrite changes nothing

  /** The text ends in `header`, optional space, `[`, optional space: with a closing quote behind it, the
      header rewrite could start here. */
  predicate EndsLikeHeader(s: string) {
    s != "" && (OpensHeader(s) || EndsLikeHeader(s[1..]))
  }

  predicate OpensHeader(s: string) {
    && |s| >= 6 && SameIgnoreCase(s[..6], "header")
    && var a := TrimStart(s[6..]);
    && a != "" && a[0] == '[' && TrimStart(a[1..]) == ""
  }

  /** Inside a literal the rewrite cannot start unless the literal ends like an open header. */
  lemma NoHeaderInLiteral(s: string, rest: string)
    requires s != "" && '\'' !in s && !OpensHeader(s)
    ensures HeaderMatch(s + "'" + rest) == None
  {
    var text := s + "'" + rest;
    if |s| >= 6 && SameIgnoreCase(s[..6], "header") {
      assert text[..6] == s[..6];
      assert text[6..] == s[6..] + ("'" + rest);
      TrimStartConcat(s[6..], "'" + rest);
      TrimStartFacts(s[6..]);
      var a := TrimStart(s[6..]);
      assert forall c | c in s[6..] :: c in s;
      assert forall c | c in a :: c in s[6..];
      if a != "" && a[0] == '[' {
        assert (a + ("'" + rest))[1..] == a[1..] + ("'" + rest);
        TrimStartConcat(a[1..], "'" + rest);
        TrimStartFacts(a[1..]);
        var b := TrimStart(a[1..]);
        assert forall c | c in b :: c in a;
        assert b != "" && b[0] in b;
      }
    } else if |s| < 6 && |text| >= 6 {
      assert text[|s|] == '\'' && text[..6][|s|] == '\'';
      assert !EqIgnoreCase('\'', "header"[|s|]);
    } else if |s| >= 6 {
      assert text[..6] == s[..6];
    }
  }

  lemma HeaderStep(c: char, s: string)
    requires HeaderMatch([c] + s).None?
    ensures ReplaceHeaders([c] + s) == [c] + ReplaceHeaders(s)
  {
    assert ([c] + s)[1..] == s;
  }

  lemma {:induction false} HeadersSkipLiteral(s: string, rest: string)
    requires '\'' !in s && !EndsLikeHeader(s)
    ensures ReplaceHeaders(s + "'" + rest) == s + "'" + ReplaceHeaders(rest)
  {
    hide ReplaceHeaders, HeaderMatch, OpensHeader;
    if s == "" {
      assert s + "'" + rest == ['\''] + rest;
      NoHeaderHere(['\''] + rest);
      HeaderStep('\'', rest);
    } else {
      NoHeaderInLiteral(s, rest);
      assert s + "'" + rest == [s[0]] + (s[1..] + "'" + rest);
      HeaderStep(s[0], s[1..] + "'" + rest);
      assert forall c | c in s[1..] :: c in s;
      HeadersSkipLiteral(s[1..], rest);
      assert [s[0]] + (s[1..] + "'" + ReplaceHeaders(rest)) == s + "'" + ReplaceHeaders(rest);
    }
  }

  lemma NoHeaderHere(s: string)
    requires s != "" && SafeStart(s)
    ensures HeaderMatch(s) == None
  {
    if |s| >= 6 {
      assert s[..6][0] == s[0] && s[..6][1] == s[1] && s[..6][2] == s[2];
      assert "header"[0] == 'h' && "header"[1] == 'e' && "header"[2] == 'a';
    }
  }

  lemma {:induction false} HeadersSkipRun(s: string, rest: string)
    requires HeaderSafe(s)
    ensures ReplaceHeaders(s + rest) == s + ReplaceHeaders(rest)
  {
    hide ReplaceHeaders, HeaderMatch;
    if s == "" {
      assert s + rest == rest;
    } else {
      assert s + rest == [s[0]] + (s[1..] + rest);
      NoHeaderHere([s[0]] + (s[1..] + rest));
      HeaderStep(s[0], s[1..] + rest);
      HeadersSkipRun(s[1..], rest);
      assert [s[0]] + (s[1..] + ReplaceHeaders(rest)) == s + ReplaceHeaders(rest);
    }
  }

  /** No literal among the pieces ends like an open header. */
  predicate HeaderFree(ps: seq<Piece>) {
    forall i | 0 <= i < |ps| && ps[i].Tok? && ps[i].token.Str? :: !EndsLikeHeader(ps[i].token.value)
  }

  lemma {:induction false} DigitsAreSafe(d: string)
    requires Decimal.AllDigits(d)
    ensures HeaderSafe(d)
  {
    if d == "" {
    } else {
      DigitsAreSafe(d[1..]);
    }
  }

  lemma SymbolIsSafe(s: Symbol)
    ensures HeaderSafe(SymbolText(s)) && HeaderSafe(" ") && HeaderSafe("'")
  {
    hide HeaderSafe;
    SymbolShape(s);
    PlainIsSafe(SymbolText(s));
    PlainIsSafe(" ");
    PlainIsSafe("'");
  }

  lemma HeadersSkipPiece(p: Piece, rest: string)
    requires KnownPiece(p)
    requires p.Tok? && p.token.Str? ==> !EndsLikeHeader(p.token.value)
    ensures ReplaceHeaders(PieceText(p) + rest) == PieceText(p) + ReplaceHeaders(rest)
  {
    SymbolIsSafe(Comma);
    hide HeaderSafe, ReplaceHeaders, EndsLikeHeader, VOCABULARY, SymbolText;
    match p {
      case Tok(Str(s)) =>
        HeadersSkipRun("'", s + "'" + rest);
        HeadersSkipLiteral(s, rest);
        assert PieceText(p) + rest == "'" + (s + "'" + rest);
      case Tok(Word(w)) =>
        WordShape(w);
        HeadersSkipRun(w, rest);
      case Tok(Number(d)) =>
        DigitsAreSafe(d);
        HeadersSkipRun(d, rest);
      case Tok(Sym(s)) =>
        SymbolIsSafe(s);
        HeadersSkipRun(PieceText(p), rest);
      case Space =>
        HeadersSkipRun(" ", rest);
    }
  }

  lemma {:induction false} HeadersSkipPieces(ps: seq<Piece>)
    requires WellSpaced(ps) && HeaderFree(ps)
    ensures ReplaceHeaders(Flatten(ps)) == Flatten(ps)
  {
    if ps != [] {
      hide PieceText, EndsLikeHeader, KnownPiece, Follows, ReplaceHeaders;
      HeadersSkipPiece(ps[0], Flatten(ps[1..]));
      HeadersSkipPieces(ps[1..]);
    } else {
      assert ReplaceHeaders("") == "";
    }
  }
}
