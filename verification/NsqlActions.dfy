/** The ACTION clause: its parser, and what survives printing and parsing it. */
module NsqlActions {
  import opened Wrappers
  import opened Text
  import opened NsqlAst
  import opened NsqlScanner

  /** `trim_matches` on one character. */
  function TrimCharStart(s: string, c: char): string {
    if s != "" && s[0] == c then TrimCharStart(s[1..], c) else s
  }

  function TrimCharEnd(s: string, c: char): string {
    if s != "" && s[|s| - 1] == c then TrimCharEnd(s[..|s| - 1], c) else s
  }

  function TrimChar(s: string, c: char): string { TrimCharEnd(TrimCharStart(s, c), c) }

  /** What is left of the chunk behind a keyword of `width` bytes, unquoted. */
  function TargetOf(chunk: string, width: nat): Result<string, ParseError> {
    match ByteDrop(chunk, width)
    case None => Err(Panic)
    case Some(rest) =>
      var target := TrimChar(TrimChar(Trim(rest), '\''), '"');
      if target == "" then Err(InvalidAction) else Ok(target)
  }

  /** A non-empty chunk read as one action. */
  function ParseAction(u: Unicode, chunk: string): Result<RuleAction, ParseError> {
    var upper := u.Upper(chunk);
    if upper == "MARK READ" then Ok(MarkRead)
    else if upper == "MARK UNREAD" then Ok(MarkUnread)
    else if upper == "FLAG" then Ok(Flag)
    else if upper == "UNFLAG" then Ok(Unflag)
    else if upper == "DELETE" then Ok(Delete)
    else if "MOVE TO" <= upper then
      (match TargetOf(chunk, 7) case Ok(t) => Ok(MoveTo(t)) case Err(e) => Err(e))
    else if "COPY TO" <= upper then
      (match TargetOf(chunk, 7) case Ok(t) => Ok(CopyTo(t)) case Err(e) => Err(e))
    else if "FORWARD TO" <= upper then
      (match TargetOf(chunk, 10) case Ok(t) => Ok(ForwardTo(t)) case Err(e) => Err(e))
    else if "CALL WEBHOOK" <= upper then
      (match TargetOf(chunk, 12) case Ok(t) => Ok(CallWebhook(t)) case Err(e) => Err(e))
    else Err(InvalidAction)
  }

  /** The chunks in order; blank ones are skipped and the first bad one decides the error. */
  function ParseChunks(u: Unicode, chunks: seq<string>): Result<seq<RuleAction>, ParseError> {
    if chunks == [] then Ok([])
    else if Trim(chunks[0]) == "" then ParseChunks(u, chunks[1..])
    else
      match ParseAction(u, Trim(chunks[0]))
      case Err(e) => Err(e)
      case Ok(action) => Behind([action], ParseChunks(u, chunks[1..]))
  }

  function ParseActionsText(u: Unicode, text: string): Result<seq<RuleAction>, ParseError> {
    ParseChunks(u, SplitCommas(text))
  }

  /** Actions already read, in front of the result for the rest. */
  function Behind(done: seq<RuleAction>, r: Result<seq<RuleAction>, ParseError>): Result<seq<RuleAction>, ParseError> {
    match r
    case Err(e) => Err(e)
    case Ok(rest) => Ok(done + rest)
  }

  lemma BehindNothing(r: Result<seq<RuleAction>, ParseError>)
    ensures Behind([], r) == r
  {
    if r.Ok? { assert [] + r.value == r.value; }
  }

  lemma BehindOne(done: seq<RuleAction>, action: RuleAction, r: Result<seq<RuleAction>, ParseError>)
    ensures Behind(done, Behind([action], r)) == Behind(done + [action], r)
  {
    if r.Ok? { assert done + ([action] + r.value) == done + [action] + r.value; }
  }

  /** `parse_actions`. */
  method ParseActions(u: Unicode, text: string) returns (r: Result<seq<RuleAction>, ParseError>)
    ensures r == ParseActionsText(u, text)
  {
    hide ParseAction, Trim;
    var chunks := SplitCommaOutsideQuotes(text);
    var actions := [];
    BehindNothing(ParseChunks(u, chunks));
    for i := 0 to |chunks|
      invariant ParseActionsText(u, text) == Behind(actions, ParseChunks(u, chunks[i..]))
    {
      var trimmed := Trim(chunks[i]);
      assert chunks[i..][1..] == chunks[i + 1..];
      if trimmed == "" {
        continue;
      }
      var action := ParseAction(u, trimmed);
      if action.Err? {
        return Err(action.error);
      }
      BehindOne(actions, action.value, ParseChunks(u, chunks[i + 1..]));
      actions := actions + [action.value];
    }
    assert chunks[|chunks|..] == [] && actions + [] == actions;
    r := Ok(actions);
  }

  /** Blank chunks are no actions: `A, , B` is read as `A, B`. */
  lemma {:induction false} BlankChunksSkipped(u: Unicode, a: seq<string>, blank: string, b: seq<string>)
    requires forall c | c in blank :: IsWhitespace(c)
    ensures ParseChunks(u, a + [blank] + b) == ParseChunks(u, a + b)
    decreases |a|
  {
    hide ParseAction, Trim;
    if a == [] {
      BlankTrims(blank);
      assert a + [blank] + b == [blank] + b && ([blank] + b)[1..] == b && a + b == b;
    } else {
      assert (a + [blank] + b)[1..] == a[1..] + [blank] + b && (a + b)[1..] == a[1..] + b;
      BlankChunksSkipped(u, a[1..], blank, b);
    }
  }

  lemma {:induction false} BlankTrims(s: string)
    requires forall c | c in s :: IsWhitespace(c)
    ensures Trim(s) == ""
  {
    if s == "" {
    } else {
      assert s[0] in s && forall c | c in s[1..] :: c in s;
      BlankTrims(s[1..]);
      assert Trim(s) == Trim(s[1..]);
    }
  }

  // ---------------------------------------------------------------- one printed action

  predicate HasTarget(action: RuleAction) {
    action.MoveTo? || action.CopyTo? || action.ForwardTo? || action.CallWebhook?
  }

  /** The printer puts the target between single quotes unchanged. */
  predicate QuoteFree(action: RuleAction) {
    HasTarget(action) ==> '\'' !in action.target
  }

  /** A target that is neither empty nor starts or ends with a quote of either kind. */
  predicate PlainTarget(t: string) {
    t != "" && !IsQuote(t[0]) && !IsQuote(t[|t| - 1])
  }

  predicate PlainAction(action: RuleAction) {
    HasTarget(action) ==> PlainTarget(action.target)
  }

  function Keyword(action: RuleAction): string {
    match action
    case MoveTo(_) => "MOVE TO"
    case CopyTo(_) => "COPY TO"
    case MarkRead => "MARK READ"
    case MarkUnread => "MARK UNREAD"
    case Flag => "FLAG"
    case Unflag => "UNFLAG"
    case Delete => "DELETE"
    case ForwardTo(_) => "FORWARD TO"
    case CallWebhook(_) => "CALL WEBHOOK"
  }

  function WithTarget(action: RuleAction, t: string): RuleAction {
    match action
    case MoveTo(_) => MoveTo(t)
    case CopyTo(_) => CopyTo(t)
    case ForwardTo(_) => ForwardTo(t)
    case CallWebhook(_) => CallWebhook(t)
    case _ => action
  }

  /** Single quotes come off both ends, then double quotes. */
  function Unwrap(t: string): string { TrimChar(TrimChar(t, '\''), '"') }

  /** What a printed action is read back as. */
  function Reread(action: RuleAction): Result<RuleAction, ParseError> {
    if !HasTarget(action) then Ok(action)
    else if Unwrap(action.target) == "" then Err(InvalidAction)
    else Ok(WithTarget(action, Unwrap(action.target)))
  }

  lemma ActionTextShape(action: RuleAction)
    ensures ActionText(action) == Keyword(action) + (if HasTarget(action) then " '" + action.target + "'" else "")
  {
  }

  lemma {:induction false} TrimCharShorter(s: string, c: char)
    ensures |TrimCharStart(s, c)| <= |s| && |TrimCharEnd(s, c)| <= |s|
    ensures s != "" && s[0] == c ==> |TrimCharStart(s, c)| < |s|
    ensures s != "" && s[|s| - 1] == c ==> |TrimCharEnd(s, c)| < |s|
  {
    if s == "" {
    } else {
      TrimCharShorter(s[1..], c);
      TrimCharShorter(s[..|s| - 1], c);
    }
  }

  lemma TrimCharKeeps(s: string, c: char)
    ensures |TrimChar(s, c)| <= |s|
    ensures |TrimChar(s, c)| == |s| <==> s == "" || (s[0] != c && s[|s| - 1] != c)
    ensures |TrimChar(s, c)| == |s| ==> TrimChar(s, c) == s
  {
    TrimCharShorter(s, c);
    TrimCharShorter(TrimCharStart(s, c), c);
  }

  /** Quotes at the ends are what the parser takes off a target. */
  lemma PlainTargetKept(t: string)
    ensures Unwrap(t) == t && t != "" <==> PlainTarget(t)
  {
    hide TrimChar;
    TrimCharKeeps(t, '\'');
    TrimCharKeeps(TrimChar(t, '\''), '"');
  }

  lemma RereadIdentity(action: RuleAction)
    ensures Reread(action) == Ok(action) <==> PlainAction(action)
  {
    if HasTarget(action) { PlainTargetKept(action.target); }
  }

  lemma {:induction false} TrimStartSnoc(s: string, c: char)
    ensures TrimCharStart(s + [c], c) == if TrimCharStart(s, c) == "" then "" else TrimCharStart(s, c) + [c]
  {
    if s == "" {
      assert s + [c] == [c] && [c][1..] == "";
    } else {
      assert (s + [c])[1..] == s[1..] + [c];
      if s[0] == c { TrimStartSnoc(s[1..], c); }
    }
  }

  /** The single quotes of the printer come off again, and with them any that the target has at its ends. */
  lemma UnquotePrinted(t: string)
    ensures TrimChar("'" + t + "'", '\'') == TrimChar(t, '\'')
  {
    var s := "'" + (t + "'");
    assert "'" + t + "'" == s && s[0] == '\'' && s[1..] == t + "'";
    TrimStartSnoc(t, '\'');
    assert t + "'" == t + ['\''];
    var x := TrimCharStart(t, '\'');
    if x != "" { assert (x + ['\''])[..|x|] == x; }
  }

  lemma PrintedTarget(kw: string, t: string)
    requires AllAscii(kw)
    ensures TargetOf(kw + " '" + t + "'", |kw|) == if Unwrap(t) == "" then Err(InvalidAction) else Ok(Unwrap(t))
  {
    hide TrimChar;
    var rest := " '" + t + "'";
    assert kw + " '" + t + "'" == kw + rest;
    Utf8LenAscii(kw);
    ByteCut(kw, rest);
    var quoted := "'" + t + "'";
    assert rest == " " + quoted && rest[1..] == quoted;
    assert Trimmed(quoted);
    assert TrimStart(rest) == quoted;
    TrimIdentity(quoted);
    UnquotePrinted(t);
  }

  lemma KeywordChars(action: RuleAction)
    ensures var kw := Keyword(action);
            && (forall i | 0 <= i < |kw| :: kw[i] == ' ' || IsAsciiUpper(kw[i]))
            && kw != "" && IsAsciiUpper(kw[0]) && IsAsciiUpper(kw[|kw| - 1])
  {
  }

  lemma KeywordIsUpper(action: RuleAction)
    ensures AllAscii(Keyword(action)) && AsciiUpper(Keyword(action)) == Keyword(action)
  {
    hide Keyword;
    KeywordChars(action);
  }

  lemma KeywordUpper(u: Unicode, action: RuleAction, rest: string)
    requires u.Valid()
    ensures AllAscii(Keyword(action))
    ensures u.Upper(Keyword(action) + rest) == Keyword(action) + u.Upper(rest)
  {
    hide Unicode.Upper, Keyword, AsciiUpper, AllAscii, Unicode.Valid;
    KeywordIsUpper(action);
    UpperAsciiPrefix(u, Keyword(action), rest);
  }

  /** A printed action is read back as `Reread` says. */
  lemma ParsePrintedAction(u: Unicode, action: RuleAction)
    requires u.Valid()
    ensures ParseAction(u, ActionText(action)) == Reread(action)
  {
    hide *;
    if HasTarget(action) { ParsePrintedTargeted(u, action); } else { ParsePrintedPlain(u, action); }
  }

  lemma ParsePrintedPlain(u: Unicode, action: RuleAction)
    requires u.Valid() && !HasTarget(action)
    ensures ParseAction(u, ActionText(action)) == Reread(action)
  {
    hide TargetOf;
    ActionTextShape(action);
    KeywordUpper(u, action, "");
    assert Keyword(action) + "" == Keyword(action) && u.Upper("") == "";
    assert Keyword(action) + u.Upper("") == Keyword(action);
  }

  lemma ParsePrintedTargeted(u: Unicode, action: RuleAction)
    requires u.Valid() && HasTarget(action)
    ensures ParseAction(u, ActionText(action)) == Reread(action)
  {
    hide ParseAction, Keyword, ActionText, TargetOf, Unwrap;
    ActionTextShape(action);
    KeywordUpper(u, action, "");
    assert Keyword(action) + " '" + action.target + "'" == Keyword(action) + (" '" + (action.target + "'"));
    assert " '" + action.target + "'" == " '" + (action.target + "'");
    UpperOfTargeted(u, action, action.target + "'");
    ParseByKeyword(u, ActionText(action), action);
    PrintedTarget(Keyword(action), action.target);
  }

  lemma UpperOfTargeted(u: Unicode, action: RuleAction, more: string)
    requires u.Valid() && HasTarget(action)
    ensures var upper := u.Upper(Keyword(action) + (" '" + more));
            && Keyword(action) <= upper
            && |upper| > |Keyword(action)| + 1
            && upper[|Keyword(action)|] == ' ' && upper[|Keyword(action)| + 1] == '\''
  {
    hide Keyword;
    KeywordUpper(u, action, " '" + more);
    UpperAsciiPrefix(u, " '", more);
    assert AsciiUpper(" '") == " '";
  }

  lemma ParseByKeyword(u: Unicode, chunk: string, action: RuleAction)
    requires HasTarget(action) && Keyword(action) <= u.Upper(chunk)
    requires |u.Upper(chunk)| > |Keyword(action)| + 1
    requires u.Upper(chunk)[|Keyword(action)|] == ' ' && u.Upper(chunk)[|Keyword(action)| + 1] == '\''
    ensures ParseAction(u, chunk) ==
            match TargetOf(chunk, |Keyword(action)|) { case Ok(t) => Ok(WithTarget(action, t)) case Err(e) => Err(e) }
  {
    hide TargetOf, Unicode.Upper;
    UpperWord(u.Upper(chunk), action);
  }

  // ---------------------------------------------------------------- any action clause, read from its text

  /** A target in quotes of either kind, or bare. */
  predicate IsArgument(clause: string, t: string) {
    PlainTarget(t) && Trimmed(t) && (clause == "'" + t + "'" || clause == "\"" + t + "\"" || clause == t)
  }

  lemma UnwrapArgument(clause: string, t: string)
    requires IsArgument(clause, t)
    ensures Trimmed(clause) && clause != "" && Unwrap(clause) == t
  {
    hide TrimChar;
    PlainTargetKept(t);
    if clause == "'" + t + "'" {
      UnquotePrinted(t);
    } else if clause == "\"" + t + "\"" {
      TrimCharKeeps(clause, '\'');
      DoubleUnquoted(t);
    }
  }

  lemma DoubleUnquoted(t: string)
    requires PlainTarget(t)
    ensures TrimChar("\"" + t + "\"", '"') == t
  {
    var s := "\"" + (t + "\"");
    assert "\"" + t + "\"" == s && s[0] == '"' && s[1..] == t + "\"";
    TrimStartSnoc(t, '"');
    assert TrimCharStart(t, '"') == t && t + "\"" == t + ['"'];
    assert (t + ['"'])[..|t|] == t && TrimCharEnd(t, '"') == t;
  }

  lemma ArgumentRead(found: string, gap: string, clause: string, t: string)
    requires AllAscii(found) && (forall c | c in gap :: IsWhitespace(c)) && IsArgument(clause, t)
    ensures TargetOf(found + (gap + clause), |found|) == Ok(t)
  {
    hide TrimChar, Trim, Trimmed, PlainTarget;
    UnwrapArgument(clause, t);
    Utf8LenAscii(found);
    ByteCut(found, gap + clause);
    TrimGap(gap, clause);
    TrimIdentity(clause);
    PlainTargetKept(t);
  }

  lemma {:induction false} TrimGap(gap: string, s: string)
    requires forall c | c in gap :: IsWhitespace(c)
    ensures Trim(gap + s) == Trim(s)
  {
    if gap == "" {
      assert gap + s == s;
    } else {
      assert gap[0] in gap && forall c | c in gap[1..] :: c in gap;
      assert (gap + s)[1..] == gap[1..] + s;
      TrimGap(gap[1..], s);
    }
  }

  lemma UpperOfFound(u: Unicode, found: string, word: string, rest: string)
    requires u.Valid() && SameLetters(found, word) && AllAscii(word) && forall i | 0 <= i < |word| :: !IsAsciiLower(word[i])
    ensures AllAscii(found) && word <= u.Upper(found + rest) && (rest == "" ==> u.Upper(found + rest) == word)
  {
    forall i | 0 <= i < |found|
      ensures IsAscii(found[i])
    {
      assert SameLetter(found[i], word[i]) && IsAscii(word[i]);
    }
    UpperAsciiPrefix(u, found, rest);
    UpperSpells(found, word);
    hide AsciiUpper, SameLetters;
  }

  lemma KeywordFound(u: Unicode, action: RuleAction, found: string, rest: string)
    requires u.Valid() && SameLetters(found, Keyword(action))
    ensures AllAscii(found) && |found| == |Keyword(action)|
    ensures Keyword(action) <= u.Upper(found + rest) && (rest == "" ==> u.Upper(found + rest) == Keyword(action))
  {
    hide Keyword, SameLetters, Unicode.Upper, AllAscii, Unicode.Valid, AsciiUpper;
    KeywordIsUpper(action);
    KeywordIsLetters(action);
    UpperOfFound(u, found, Keyword(action), rest);
    SameLength(found, Keyword(action));
  }

  lemma SameLength(s: string, t: string)
    requires SameLetters(s, t)
    ensures |s| == |t|
  {
  }

  lemma KeywordIsLetters(action: RuleAction)
    ensures forall i | 0 <= i < |Keyword(action)| :: !IsAsciiLower(Keyword(action)[i])
  {
    hide Keyword;
    KeywordChars(action);
  }

  lemma PlainAs(u: Unicode, chunk: string, action: RuleAction)
    requires u.Valid() && !HasTarget(action) && SameLetters(chunk, Keyword(action))
    ensures ParseAction(u, chunk) == Ok(action)
  {
    hide SameLetters, Unicode.Upper, Unicode.Valid, TargetOf;
    assert chunk + "" == chunk;
    KeywordFound(u, action, chunk, "");
  }

  /** The actions without a target, their keywords in any case. */
  lemma PlainActionRead(u: Unicode, chunk: string)
    requires u.Valid()
    ensures SameLetters(chunk, "MARK READ") ==> ParseAction(u, chunk) == Ok(MarkRead)
    ensures SameLetters(chunk, "MARK UNREAD") ==> ParseAction(u, chunk) == Ok(MarkUnread)
    ensures SameLetters(chunk, "FLAG") ==> ParseAction(u, chunk) == Ok(Flag)
    ensures SameLetters(chunk, "UNFLAG") ==> ParseAction(u, chunk) == Ok(Unflag)
    ensures SameLetters(chunk, "DELETE") ==> ParseAction(u, chunk) == Ok(Delete)
  {
    hide SameLetters, ParseAction, Unicode.Valid;
    if SameLetters(chunk, "MARK READ") { PlainAs(u, chunk, MarkRead); }
    if SameLetters(chunk, "MARK UNREAD") { PlainAs(u, chunk, MarkUnread); }
    if SameLetters(chunk, "FLAG") { PlainAs(u, chunk, Flag); }
    if SameLetters(chunk, "UNFLAG") { PlainAs(u, chunk, Unflag); }
    if SameLetters(chunk, "DELETE") { PlainAs(u, chunk, Delete); }
  }

  /** The actions with a target: keyword in any case, then whitespace, then the target, quoted or not. */
  lemma TargetedActionRead(u: Unicode, found: string, gap: string, clause: string, t: string)
    requires u.Valid() && gap != "" && (forall c | c in gap :: IsWhitespace(c)) && IsArgument(clause, t)
    ensures SameLetters(found, "MOVE TO") ==> ParseAction(u, found + (gap + clause)) == Ok(MoveTo(t))
    ensures SameLetters(found, "COPY TO") ==> ParseAction(u, found + (gap + clause)) == Ok(CopyTo(t))
    ensures SameLetters(found, "FORWARD TO") ==> ParseAction(u, found + (gap + clause)) == Ok(ForwardTo(t))
    ensures SameLetters(found, "CALL WEBHOOK") ==> ParseAction(u, found + (gap + clause)) == Ok(CallWebhook(t))
  {
    hide SameLetters, AsciiUpper, Unicode.Upper, Unicode.Valid, TargetOf, IsArgument, ParseAction;
    if SameLetters(found, "MOVE TO") { TargetedAs(u, found, gap, clause, t, MoveTo(t)); }
    if SameLetters(found, "COPY TO") { TargetedAs(u, found, gap, clause, t, CopyTo(t)); }
    if SameLetters(found, "FORWARD TO") { TargetedAs(u, found, gap, clause, t, ForwardTo(t)); }
    if SameLetters(found, "CALL WEBHOOK") { TargetedAs(u, found, gap, clause, t, CallWebhook(t)); }
  }

  lemma TargetedAs(u: Unicode, found: string, gap: string, clause: string, t: string, action: RuleAction)
    requires u.Valid() && gap != "" && (forall c | c in gap :: IsWhitespace(c)) && IsArgument(clause, t)
    requires HasTarget(action) && action.target == t && SameLetters(found, Keyword(action))
    ensures ParseAction(u, found + (gap + clause)) == Ok(action)
  {
    hide SameLetters, AsciiUpper, Unicode.Upper, Unicode.Valid, TargetOf, IsArgument, Keyword, ParseAction;
    KeywordFound(u, action, found, gap + clause);
    ArgumentRead(found, gap, clause, t);
    DispatchedTo(u, found + (gap + clause), action);
  }

  lemma DispatchedTo(u: Unicode, chunk: string, action: RuleAction)
    requires HasTarget(action) && Keyword(action) <= u.Upper(chunk) && TargetOf(chunk, |Keyword(action)|) == Ok(action.target)
    ensures ParseAction(u, chunk) == Ok(action)
  {
    hide Unicode.Upper, TargetOf;
    UpperWord(u.Upper(chunk), action);
  }

  /** The keyword of a targeted action selects its own branch, whatever follows it. */
  lemma UpperWord(upper: string, action: RuleAction)
    requires HasTarget(action) && Keyword(action) <= upper
    ensures upper != "MARK READ" && upper != "MARK UNREAD" && upper != "FLAG" && upper != "UNFLAG" && upper != "DELETE"
    ensures "MOVE TO" <= upper <==> action.MoveTo?
    ensures "COPY TO" <= upper <==> action.CopyTo?
    ensures "FORWARD TO" <= upper <==> action.ForwardTo?
    ensures "CALL WEBHOOK" <= upper <==> action.CallWebhook?
  {
    assert upper[0] == Keyword(action)[0] && upper[1] == Keyword(action)[1];
    assert "MARK READ"[1] == 'A' && "MARK UNREAD"[1] == 'A' && "FLAG"[0] == 'F' && "FLAG"[1] == 'L';
  }

  // ---------------------------------------------------------------- commas and chunks

  /** A printed action whose quotes close again and that holds no comma outside them. */
  predicate SelfContained(action: RuleAction) {
    CommaFree(Out, ActionText(action)) && After(Out, ActionText(action)) == Out
  }

  /** The clause falls apart at its separators alone. */
  predicate Separable(actions: seq<RuleAction>) {
    && (forall i | 0 <= i < |actions| :: CommaFree(Out, ActionText(actions[i])))
    && (forall i | 0 <= i < |actions| - 1 :: After(Out, ActionText(actions[i])) == Out)
  }

  /** Targets without single quotes keep the clause together. */
  lemma QuoteFreeContained(action: RuleAction)
    requires QuoteFree(action)
    ensures SelfContained(action)
  {
    hide Keyword, ActionText, CommaFree, After;
    ActionTextShape(action);
    KeywordPlain(action);
    if HasTarget(action) {
      var t := action.target;
      OpeningQuote(Keyword(action));
      ClosingQuote(t);
      assert ActionText(action) == (Keyword(action) + " '") + (t + "'");
      CommaFreeConcat(Out, Keyword(action) + " '", t + "'");
      AfterConcat(Out, Keyword(action) + " '", t + "'");
    } else {
      assert Keyword(action) + "" == Keyword(action);
    }
  }

  lemma QuoteFreeSeparable(actions: seq<RuleAction>)
    requires forall a | a in actions :: QuoteFree(a)
    ensures Separable(actions)
  {
    forall i | 0 <= i < |actions|
      ensures SelfContained(actions[i])
    {
      assert actions[i] in actions;
      QuoteFreeContained(actions[i]);
    }
  }

  lemma OpeningQuote(head: string)
    requires CommaFree(Out, head) && After(Out, head) == Out
    ensures CommaFree(Out, head + " '") && After(Out, head + " '") == InSingle
  {
    CommaFreeConcat(Out, head, " '");
    AfterConcat(Out, head, " '");
    assert " '"[1..] == "'" && "'"[1..] == "";
  }

  lemma ClosingQuote(t: string)
    requires '\'' !in t
    ensures CommaFree(InSingle, t + "'") && After(InSingle, t + "'") == Out
  {
    InsideQuotesIsCommaFree(t);
    AfterInside(t);
    CommaFreeConcat(InSingle, t, "'");
    AfterConcat(InSingle, t, "'");
    assert "'"[1..] == "";
  }

  lemma ActionTextTrimmed(action: RuleAction)
    ensures ActionText(action) != "" && Trimmed(ActionText(action))
  {
    hide Keyword, ActionText;
    ActionTextShape(action);
    KeywordPlain(action);
  }

  lemma KeywordPlain(action: RuleAction)
    ensures CommaFree(Out, Keyword(action)) && After(Out, Keyword(action)) == Out
    ensures Keyword(action) != "" && Trimmed(Keyword(action)) && Commas(Keyword(action)) == 0
  {
    hide Keyword, CommaFree, After;
    KeywordChars(action);
    PlainTextScanned(Keyword(action));
  }

  lemma {:induction false} PlainTextScanned(s: string)
    requires forall i | 0 <= i < |s| :: !IsQuote(s[i]) && s[i] != ','
    ensures CommaFree(Out, s) && After(Out, s) == Out
  {
    if s == "" {
    } else {
      PlainTextScanned(s[1..]);
    }
  }

  function Commas(s: string): nat { multiset(s)[','] }

  lemma CommasConcat(a: string, b: string)
    ensures Commas(a + b) == Commas(a) + Commas(b)
  {
  }

  lemma CommasHead(s: string)
    requires s != ""
    ensures Commas(s) == (if s[0] == ',' then 1 else 0) + Commas(s[1..])
    ensures Commas(s) == Commas(s[..|s| - 1]) + (if s[|s| - 1] == ',' then 1 else 0)
  {
    assert s == [s[0]] + s[1..] && s == s[..|s| - 1] + [s[|s| - 1]];
  }

  lemma {:induction false} TrimEndKeepsCommas(s: string)
    ensures Commas(TrimEnd(s)) == Commas(s)
  {
    if s == "" {
    } else {
      CommasHead(s);
      TrimEndKeepsCommas(s[..|s| - 1]);
    }
  }

  lemma {:induction false} TrimStartKeepsCommas(s: string)
    ensures Commas(TrimStart(s)) == Commas(s)
  {
    if s == "" {
    } else {
      CommasHead(s);
      TrimStartKeepsCommas(s[1..]);
    }
  }

  lemma {:induction false} TrimCharEndKeepsCommas(s: string, c: char)
    requires c != ','
    ensures Commas(TrimCharEnd(s, c)) == Commas(s)
  {
    if s == "" {
    } else {
      CommasHead(s);
      TrimCharEndKeepsCommas(s[..|s| - 1], c);
    }
  }

  lemma {:induction false} TrimCharStartKeepsCommas(s: string, c: char)
    requires c != ','
    ensures Commas(TrimCharStart(s, c)) == Commas(s)
  {
    if s == "" {
    } else {
      CommasHead(s);
      TrimCharStartKeepsCommas(s[1..], c);
    }
  }

  /** Unquoting a target loses no comma of it. */
  lemma TargetKeepsCommas(kw: string, rest: string)
    requires AllAscii(kw) && TargetOf(kw + rest, |kw|).Ok?
    ensures Commas(TargetOf(kw + rest, |kw|).value) == Commas(rest)
  {
    hide Commas, TrimStart, TrimEnd, TrimCharStart, TrimCharEnd;
    Utf8LenAscii(kw);
    ByteCut(kw, rest);
    TrimStartKeepsCommas(rest);
    TrimEndKeepsCommas(TrimStart(rest));
    var x := Trim(rest);
    TrimCharStartKeepsCommas(x, '\'');
    TrimCharEndKeepsCommas(TrimCharStart(x, '\''), '\'');
    var y := TrimChar(x, '\'');
    TrimCharStartKeepsCommas(y, '"');
    TrimCharEndKeepsCommas(TrimCharStart(y, '"'), '"');
  }

  /** A chunk that opens like a printed action and reads as that action has as many commas as it. */
  lemma ChunkCommas(u: Unicode, action: RuleAction, more: string)
    requires u.Valid() && HasTarget(action)
    requires ParseAction(u, Keyword(action) + (" '" + more)) == Ok(action)
    ensures Commas(more) == Commas(ActionText(action))
  {
    hide ParseAction, Keyword, ActionText, TargetOf, Commas;
    var kw := Keyword(action);
    UpperOfTargeted(u, action, more);
    ParseByKeyword(u, kw + (" '" + more), action);
    KeywordIsUpper(action);
    KeywordPlain(action);
    TargetKeepsCommas(kw, " '" + more);
    ActionTextShape(action);
    QuotedCommas(kw, action.target, more);
    SameTarget(action, TargetOf(kw + (" '" + more), |kw|).value);
  }

  lemma SameTarget(action: RuleAction, t: string)
    requires HasTarget(action) && WithTarget(action, t) == action
    ensures t == action.target
  {
  }

  lemma QuotedCommas(kw: string, t: string, more: string)
    ensures Commas(kw + (" '" + t + "'")) == Commas(kw) + Commas(t)
    ensures Commas(kw + " '" + t + "'") == Commas(kw) + Commas(t)
    ensures Commas(" '" + more) == Commas(more)
  {
  }

  // ---------------------------------------------------------------- the first chunk

  /** Where the first chunk ends: at the first comma outside quotes, or at the end. */
  function ChunkEnd(q: Quote, s: string): (k: nat)
    ensures k <= |s|
    ensures k < |s| ==> s[k] == ','
    decreases |s|
  {
    if s == "" || (s[0] == ',' && q == Out) then 0 else 1 + ChunkEnd(Step(q, s[0]), s[1..])
  }

  lemma {:induction false} ChunkEndConcat(q: Quote, a: string, b: string)
    ensures ChunkEnd(q, a + b) == if CommaFree(q, a) then |a| + ChunkEnd(After(q, a), b) else ChunkEnd(q, a)
    ensures !CommaFree(q, a) ==> ChunkEnd(q, a) < |a|
    decreases |a|
  {
    if a == "" {
      assert a + b == b;
    } else {
      assert (a + b)[1..] == a[1..] + b;
      ChunkEndConcat(Step(q, a[0]), a[1..], b);
    }
  }

  lemma {:induction false} SplitFirst(q: Quote, current: string, s: string)
    ensures var k := ChunkEnd(q, s);
            SplitFrom(q, current, s) ==
            if k < |s| then [Trim(current + s[..k])] + SplitFrom(Out, "", s[k + 1..])
            else if Trim(current + s) != "" then [Trim(current + s)] else []
    decreases |s|
  {
    hide Trim;
    if s == "" {
      assert current + s == current;
    } else if s[0] == ',' && q == Out {
      assert current + s[..0] == current;
    } else {
      SplitFirst(Step(q, s[0]), current + [s[0]], s[1..]);
      var k := ChunkEnd(Step(q, s[0]), s[1..]);
      hide Step, ChunkEnd, SplitFrom;
      HeadMoved(current, s, k);
    }
  }

  lemma HeadMoved(current: string, s: string, k: nat)
    requires s != "" && k <= |s[1..]|
    ensures (current + [s[0]]) + s[1..][..k] == current + s[..k + 1]
    ensures (current + [s[0]]) + s[1..] == current + s
    ensures k < |s[1..]| ==> s[1..][k + 1..] == s[k + 2..]
  {
  }

  lemma {:induction false} TrimEndBehind(a: string, m: string)
    requires a != "" && !IsWhitespace(a[|a| - 1])
    ensures TrimEnd(a + m) == a + TrimEnd(m)
    decreases |m|
  {
    if m == "" {
      assert a + m == a;
    } else {
      assert (a + m)[..|a + m| - 1] == a + m[..|m| - 1];
      TrimEndBehind(a, m[..|m| - 1]);
    }
  }

  /** A chunk whose text is that of a printed action at least up to its opening quote. */
  lemma OpeningChunk(action: RuleAction, lead: string, x: string) returns (m: string)
    requires HasTarget(action) && (lead == "" || lead == " ")
    requires |x| >= |Keyword(action)| + 2 && x[..|Keyword(action)| + 2] == Keyword(action) + " '"
    ensures Trim(lead + x) == Keyword(action) + (" '" + m) && Commas(m) == Commas(x)
  {
    hide Keyword, TrimEnd, TrimStart, Commas;
    var kw := Keyword(action);
    KeywordPlain(action);
    var tail := x[|kw| + 2..];
    assert x == (kw + " '") + tail && x[0] == kw[0];
    TrimLead(lead, x);
    TrimEndBehind(kw + " '", tail);
    TrimEndKeepsCommas(tail);
    m := TrimEnd(tail);
    QuoteMoved(kw, m);
    QuoteMoved(kw, tail);
    CommasConcat(kw, " '" + tail);
    QuotedCommas(kw, "", tail);
  }

  lemma TrimLead(lead: string, x: string)
    requires (lead == "" || lead == " ") && x != "" && !IsWhitespace(x[0])
    ensures Trim(lead + x) == TrimEnd(x)
  {
    hide TrimEnd;
    assert TrimStart(x) == x;
    if lead == "" {
      assert lead + x == x;
    } else {
      assert (lead + x)[0] == ' ' && (lead + x)[1..] == x;
      assert TrimStart(lead + x) == TrimStart(x);
    }
  }

  lemma QuoteMoved(kw: string, m: string)
    ensures (kw + " '") + m == kw + (" '" + m)
  {
  }

  /** The first chunk of a clause reads as the first action only when it ends with that action. */
  lemma FirstChunkExact(u: Unicode, action: RuleAction, lead: string, rest: string)
    requires u.Valid() && (lead == "" || lead == " ") && (rest == "" || rest[0] == ',')
    requires var clause := ActionText(action) + rest;
             ParseAction(u, Trim(lead + clause[..ChunkEnd(Out, clause)])) == Ok(action)
    ensures CommaFree(Out, ActionText(action)) && (rest != "" ==> After(Out, ActionText(action)) == Out)
  {
    hide ParseAction, Trim, Commas, ActionText, Keyword;
    var text := ActionText(action);
    var clause := text + rest;
    var k := ChunkEnd(Out, clause);
    ActionTextShape(action);
    KeywordPlain(action);
    if !HasTarget(action) {
      assert text == Keyword(action);
    } else {
      OpeningEnd(action, rest);
      var m := OpeningChunk(action, lead, clause[..k]);
      ChunkCommas(u, action, m);
      ChunkEndConcat(Out, text, rest);
      if !CommaFree(Out, text) {
        assert clause[..k] == text[..k];
        TooFew(text, k);
      } else if rest != "" && After(Out, text) != Out {
        CommaInside(After(Out, text), rest);
        TooMany(text, rest, k);
      }
    }
  }

  /** The first chunk of a clause that begins with a targeted action reaches past its opening quote. */
  lemma OpeningEnd(action: RuleAction, rest: string)
    requires HasTarget(action)
    ensures var clause := ActionText(action) + rest;
            var k := ChunkEnd(Out, clause);
            k >= |Keyword(action)| + 2 && clause[..k][..|Keyword(action)| + 2] == Keyword(action) + " '"
  {
    hide Keyword, ActionText, CommaFree, After, ChunkEnd;
    var head, more := Keyword(action) + " '", action.target + "'" + rest;
    ActionTextShape(action);
    KeywordPlain(action);
    OpeningQuote(Keyword(action));
    assert ActionText(action) + rest == head + more;
    ChunkEndConcat(Out, head, more);
    assert (head + more)[..|head|] == head;
  }

  lemma CommaInside(q: Quote, rest: string)
    requires q != Out && rest != "" && rest[0] == ','
    ensures ChunkEnd(q, rest) > 0
  {
  }

  lemma TooFew(text: string, k: nat)
    requires k < |text| && text[k] == ','
    ensures Commas(text[..k]) < Commas(text)
  {
    hide Commas;
    assert text == text[..k] + [','] + text[k + 1..];
    CommaBetween(text[..k], text[k + 1..]);
  }

  lemma TooMany(text: string, rest: string, k: nat)
    requires rest != "" && rest[0] == ',' && |text| < k <= |text + rest|
    ensures Commas((text + rest)[..k]) > Commas(text)
  {
    hide Commas;
    assert (text + rest)[..k] == text + [','] + rest[1..k - |text|];
    CommaBetween(text, rest[1..k - |text|]);
  }

  lemma CommaBetween(a: string, b: string)
    ensures Commas(a + [','] + b) == Commas(a) + 1 + Commas(b)
  {
  }

  // ---------------------------------------------------------------- a whole clause

  function ClauseTail(actions: seq<RuleAction>): string {
    if actions == [] then "" else ", " + ActionsClause(actions)
  }

  lemma ClauseShape(actions: seq<RuleAction>)
    requires actions != []
    ensures ActionsClause(actions) == ActionText(actions[0]) + ClauseTail(actions[1..])
  {
    hide ActionText;
    assert ActionTexts(actions)[1..] == ActionTexts(actions[1..]);
    if |actions| == 1 {
      assert ActionTexts(actions) == [ActionText(actions[0])];
      assert ActionText(actions[0]) + "" == ActionText(actions[0]);
    } else {
      var parts := ActionTexts(actions);
      assert parts[0] + ", " + Join(parts[1..], ", ") == parts[0] + (", " + Join(parts[1..], ", "));
    }
  }

  lemma NoActions()
    ensures ActionsClause([]) == "" && Trim("") == "" && Trim(" ") == ""
  {
    assert ActionTexts([]) == [] && " "[1..] == "";
  }

  /** Splitting the printed clause at commas gives back the printed actions. */
  lemma {:induction false} SplitPrinted(actions: seq<RuleAction>, lead: string)
    requires Separable(actions)
    requires lead == "" || lead == " "
    ensures SplitFrom(Out, lead, ActionsClause(actions)) == ActionTexts(actions)
    decreases |actions|
  {
    if actions == [] {
      NoActions();
    } else {
      hide ActionText, CommaFree, After, Trim, ActionsClause;
      var text, tail := ActionText(actions[0]), ClauseTail(actions[1..]);
      ActionTextTrimmed(actions[0]);
      PaddedTrim(lead, text);
      ClauseShape(actions);
      assert ActionTexts(actions) == [text] + ActionTexts(actions[1..]);
      if |actions| == 1 {
        assert text + "" == text && ActionTexts(actions[1..]) == [];
        SplitSkips(Out, lead, text, "");
      } else {
        SplitPrinted(actions[1..], " ");
        SplitAtComma(lead, text, ActionsClause(actions[1..]));
        assert text + ", " + ActionsClause(actions[1..]) == text + (", " + ActionsClause(actions[1..]));
      }
    }
  }

  lemma SplitAtComma(lead: string, text: string, rest: string)
    requires CommaFree(Out, text) && After(Out, text) == Out && Trim(lead + text) == text
    ensures SplitFrom(Out, lead, text + ", " + rest) == [text] + SplitFrom(Out, " ", rest)
  {
    hide Trim;
    assert text + ", " + rest == text + (", " + rest);
    SplitSkips(Out, lead, text, ", " + rest);
    assert (", " + rest)[1..] == " " + rest;
    SplitLeading(rest);
  }

  lemma PaddedTrim(lead: string, text: string)
    requires (lead == "" || lead == " ") && text != "" && Trimmed(text)
    ensures Trim(lead + text) == text
  {
    TrimIdentity(text);
    if lead == "" { assert lead + text == text; } else { assert (lead + text)[1..] == text; }
  }

  lemma SplitLeading(rest: string)
    ensures SplitFrom(Out, "", " " + rest) == SplitFrom(Out, " ", rest)
  {
    assert (" " + rest)[1..] == rest;
    assert "" + [' '] == " ";
  }

  function RereadAll(actions: seq<RuleAction>): Result<seq<RuleAction>, ParseError> {
    if actions == [] then Ok([])
    else
      match (Reread(actions[0]), RereadAll(actions[1..]))
      case (Ok(a), Ok(rest)) => Ok([a] + rest)
      case _ => Err(InvalidAction)
  }

  lemma {:induction false} ParsePrintedChunks(u: Unicode, actions: seq<RuleAction>)
    requires u.Valid()
    ensures ParseChunks(u, ActionTexts(actions)) == RereadAll(actions)
  {
    if actions == [] {
    } else {
      hide ParseAction, Reread;
      ActionTextTrimmed(actions[0]);
      TrimIdentity(ActionText(actions[0]));
      ParsePrintedAction(u, actions[0]);
      RereadErrors(actions[0]);
      ParsePrintedChunks(u, actions[1..]);
      assert ActionTexts(actions)[1..] == ActionTexts(actions[1..]);
      RereadAllErrors(actions[1..]);
    }
  }

  lemma RereadErrors(action: RuleAction)
    ensures Reread(action).Err? ==> Reread(action).error == InvalidAction
  {
  }

  lemma RereadAllErrors(actions: seq<RuleAction>)
    ensures RereadAll(actions).Err? ==> RereadAll(actions).error == InvalidAction
  {
  }

  lemma {:induction false} RereadAllIdentity(actions: seq<RuleAction>)
    ensures RereadAll(actions) == Ok(actions) <==> forall a | a in actions :: PlainAction(a)
  {
    if actions == [] {
    } else {
      hide Reread;
      RereadIdentity(actions[0]);
      RereadAllIdentity(actions[1..]);
      assert actions == [actions[0]] + actions[1..];
      if RereadAll(actions) == Ok(actions) {
        var a := Reread(actions[0]).value;
        var rest := RereadAll(actions[1..]).value;
        assert ([a] + rest)[0] == actions[0] && ([a] + rest)[1..] == actions[1..];
      }
    }
  }

  /** A clause that is read back unchanged falls apart at its separators. */
  lemma {:induction false} ReadBackSeparable(u: Unicode, actions: seq<RuleAction>, lead: string)
    requires u.Valid() && (lead == "" || lead == " ")
    requires ParseChunks(u, SplitFrom(Out, lead, ActionsClause(actions))) == Ok(actions)
    ensures Separable(actions)
    decreases |actions|
  {
    if actions == [] {
    } else {
      var text, tail := ActionText(actions[0]), ClauseTail(actions[1..]);
      assert |actions| > 1 ==> tail == ", " + ActionsClause(actions[1..]);
      ClauseShape(actions);
      hide *;
      FirstChunkRead(u, actions, lead);
      FirstChunkExact(u, actions[0], lead, tail);
      if |actions| > 1 {
        ChunkEndHere(text, tail);
        BehindSeparator(text, ActionsClause(actions[1..]));
        SplitLeading(ActionsClause(actions[1..]));
        ReadBackSeparable(u, actions[1..], " ");
      }
      SeparableStep(actions);
    }
  }

  lemma BehindSeparator(text: string, rest: string)
    ensures (text + (", " + rest))[|text| + 1..] == " " + rest
  {
  }

  lemma SeparableStep(actions: seq<RuleAction>)
    requires actions != [] && CommaFree(Out, ActionText(actions[0]))
    requires |actions| > 1 ==> After(Out, ActionText(actions[0])) == Out && Separable(actions[1..])
    ensures Separable(actions)
  {
    hide CommaFree, After, ActionText;
    assert forall i | 1 <= i < |actions| :: actions[i] == actions[1..][i - 1];
  }

  lemma ChunkEndHere(text: string, tail: string)
    requires CommaFree(Out, text) && After(Out, text) == Out && tail != "" && tail[0] == ','
    ensures ChunkEnd(Out, text + tail) == |text|
  {
    ChunkEndConcat(Out, text, tail);
  }

  lemma ChunksStep(u: Unicode, chunk: string, chunks: seq<string>)
    requires Trim(chunk) == chunk && chunk != ""
    ensures ParseChunks(u, [chunk] + chunks) ==
            if ParseAction(u, chunk).Err? then Err(ParseAction(u, chunk).error)
            else Behind([ParseAction(u, chunk).value], ParseChunks(u, chunks))
  {
    hide Trim, ParseAction;
    assert ([chunk] + chunks)[1..] == chunks;
  }

  lemma TrimTwice(s: string)
    ensures Trim(Trim(s)) == Trim(s)
  {
    TrimIsTrimmed(s);
    TrimIdentity(Trim(s));
  }

  lemma ChunkNotBlank(lead: string, text: string, rest: string, k: nat)
    requires (lead == "" || lead == " ") && text != "" && Trimmed(text) && 0 < k <= |text + rest|
    ensures Trim(lead + (text + rest)[..k]) != ""
  {
    var x := (text + rest)[..k];
    assert x[0] == text[0];
    assert lead == " " ==> (lead + x)[1..] == x;
    assert lead == "" ==> lead + x == x;
    assert TrimStart(lead + x) == x;
    assert x[..1] == [x[0]];
    assert x == [x[0]] + x[1..];
    TrimEndBehind([x[0]], x[1..]);
  }

  /** When the clause is read back unchanged, its first chunk reads as the first action, and the rest as the rest. */
  lemma FirstChunkRead(u: Unicode, actions: seq<RuleAction>, lead: string)
    requires u.Valid() && (lead == "" || lead == " ") && actions != []
    requires ParseChunks(u, SplitFrom(Out, lead, ActionsClause(actions))) == Ok(actions)
    ensures var clause := ActionsClause(actions);
            var k := ChunkEnd(Out, clause);
            && ParseAction(u, Trim(lead + clause[..k])) == Ok(actions[0])
            && (k < |clause| ==> ParseChunks(u, SplitFrom(Out, "", clause[k + 1..])) == Ok(actions[1..]))
  {
    hide ParseAction, Trim, ActionText, SplitFrom, ActionsClause, ClauseTail, Trimmed;
    var clause := ActionsClause(actions);
    var k := ChunkEnd(Out, clause);
    ClauseShape(actions);
    ActionTextTrimmed(actions[0]);
    SplitFirst(Out, lead, clause);
    FirstChunkNonEmpty(actions[0], ClauseTail(actions[1..]));
    ChunkNotBlank(lead, ActionText(actions[0]), ClauseTail(actions[1..]), k);
    var chunk := Trim(lead + clause[..k]);
    TrimTwice(lead + clause[..k]);
    var chunks := if k < |clause| then SplitFrom(Out, "", clause[k + 1..]) else [];
    assert k == |clause| ==> clause[..k] == clause;
    assert [chunk] + [] == [chunk];
    ChunksStep(u, chunk, chunks);
    assert ParseChunks(u, []) == Ok([]);
    var r := ParseChunks(u, chunks);
    if r.Ok? {
      assert ([ParseAction(u, chunk).value] + r.value)[0] == actions[0];
      assert ([ParseAction(u, chunk).value] + r.value)[1..] == r.value;
    }
  }

  lemma FirstChunkNonEmpty(action: RuleAction, rest: string)
    ensures ChunkEnd(Out, ActionText(action) + rest) > 0
  {
    hide ActionText, Keyword;
    ActionTextShape(action);
    KeywordChars(action);
    assert (ActionText(action) + rest)[0] == Keyword(action)[0];
  }

  /** Printing any actions and parsing the clause gives back the same list exactly when the printed actions
      hold no comma outside quotes, all but the last close their quotes, and no target is empty or starts or
      ends with a quote of either kind; commas, spaces and inner quotes are kept. */
  lemma ActionsRoundTrip(u: Unicode, actions: seq<RuleAction>)
    requires u.Valid()
    ensures Separable(actions) ==> ParseActionsText(u, ActionsClause(actions)) == RereadAll(actions)
    ensures ParseActionsText(u, ActionsClause(actions)) == Ok(actions) <==> Separable(actions) && forall a | a in actions :: PlainAction(a)
  {
    hide ParseChunks, ActionsClause, SplitFrom, PlainAction, Separable;
    if Separable(actions) {
      SplitPrinted(actions, "");
      ParsePrintedChunks(u, actions);
      RereadAllIdentity(actions);
    } else if ParseActionsText(u, ActionsClause(actions)) == Ok(actions) {
      ReadBackSeparable(u, actions, "");
    }
  }

  /** A blank in front of the clause makes no difference. */
  lemma LeadingBlank(u: Unicode, text: string)
    ensures ParseActionsText(u, " " + text) == ParseActionsText(u, text)
  {
    hide ParseChunks;
    SplitLeading(text);
    SplitPadded(Out, "", text);
    assert " " + "" == " ";
  }

  lemma {:induction false} SplitPadded(q: Quote, current: string, s: string)
    ensures SplitFrom(q, " " + current, s) == SplitFrom(q, current, s)
    decreases |s|
  {
    hide Trim;
    TrimPadded(current);
    if s == "" {
    } else {
      assert (" " + current) + [s[0]] == " " + (current + [s[0]]);
      SplitPadded(Step(q, s[0]), current + [s[0]], s[1..]);
    }
  }

  lemma TrimPadded(s: string)
    ensures Trim(" " + s) == Trim(s)
  {
    assert (" " + s)[1..] == s;
  }
}
