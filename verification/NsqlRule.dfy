/** Parsing a whole rule: the account clause, the split at ACTION, the conditions and the actions. */
module NsqlRule {
  import opened Wrappers
  import opened Text
  import opened NsqlAst
  import opened NsqlScanner
  import NsqlActions
  import NsqlPreprocess
  import SqlSubset
  import NsqlConvert

  const ON_ACCOUNT: string := "ON ACCOUNT"
  const ACTION: string := "ACTION"

  datatype ParsedRule = ParsedRule(targetAccount: string, conditions: ConditionNode, actions: seq<RuleAction>)

  // ---------------------------------------------------------------- cutting at a keyword

  /** The text before the first unquoted keyword and the text behind it. */
  function CutAt(text: string, kw: string): Option<(string, string)>
    requires kw != ""
  {
    match FindKeyword(text, kw)
    case None => None
    case Some(i) => Some((text[..i], text[i + |kw|..]))
  }

  /** The cut as the callers make it, with byte offsets: it never falls inside a character. */
  method CutAtKeyword(text: string, kw: string) returns (r: Option<(string, string)>)
    requires kw != "" && AllAscii(kw) && !IsQuote(kw[0])
    ensures r == CutAt(text, kw)
    ensures r.Some? ==> exists found :: text == r.value.0 + found + r.value.1 && SameIgnoreCase(found, kw)
  {
    hide KeywordAt, ByteTake, ByteDrop, Utf8Len, SameIgnoreCase, FindKeyword;
    var idx := FindKeywordOutsideQuotes(text, kw);
    if idx.None? {
      return None;
    }
    FoundKeyword(text, kw);
    ghost var i := FindKeyword(text, kw).value;
    KeywordCuts(text, kw, i);
    var before, behind := ByteTake(text, idx.value).value, ByteDrop(text, idx.value + |kw|).value;
    assert text == before + text[i..i + |kw|] + behind;
    r := Some((before, behind));
  }

  // ---------------------------------------------------------------- ON ACCOUNT

  /** Length of the first whitespace-delimited word. */
  function WordSpan(s: string): (n: nat)
    ensures n <= |s|
  {
    if s != "" && !IsWhitespace(s[0]) then 1 + WordSpan(s[1..]) else 0
  }

  /** A target in the given quotes, and what follows the closing quote, if there is one. */
  function QuotedTarget(s: string, quote: char): (string, string) {
    var k := IndexOf(s, quote);
    (s[..k], if k + 1 < |s| then s[k + 1..] else "")
  }

  /** The account pattern behind the keyword, and the rest of the rule. With nothing behind the keyword the
      source slices past the end of the text. */
  function AccountTarget(after: string): Result<(string, string), ParseError> {
    if after == "" then Err(Panic)
    else if after[0] == '\'' then Ok(QuotedTarget(after[1..], '\''))
    else if after[0] == '"' then Ok(QuotedTarget(after[1..], '"'))
    else Ok((after[..WordSpan(after)], Trim(after[WordSpan(after)..])))
  }

  /** Every way to write "all accounts" is stored as one. */
  function AccountPattern(target: string): string {
    if target == "?" || target == "*" || target == "%" then "*" else target
  }

  /** `extract_on_account`: the target account and the rule without the clause. */
  function ExtractOnAccount(nsql: string): Result<(string, string), ParseError> {
    var trimmed := Trim(nsql);
    match CutAt(trimmed, ON_ACCOUNT)
    case None => Ok(("*", trimmed))
    case Some((before, behind)) =>
      match AccountTarget(Trim(behind))
      case Err(e) => Err(e)
      case Ok((target, rest)) =>
        var prefix := Trim(before);
        var body := if prefix == "" then Trim(rest) else Trim(prefix + " " + Trim(rest));
        Ok((AccountPattern(target), body))
  }

  /** The account clause makes the parser panic exactly when the trimmed rule ends with its first unquoted
      ON ACCOUNT. */
  lemma OnAccountPanics(nsql: string)
    ensures ExtractOnAccount(nsql) == Err(Panic) <==>
            FindKeyword(Trim(nsql), ON_ACCOUNT).Some? && FindKeyword(Trim(nsql), ON_ACCOUNT).value + |ON_ACCOUNT| == |Trim(nsql)|
  {
    var trimmed := Trim(nsql);
    TrimIsTrimmed(nsql);
    var found := FindKeyword(trimmed, ON_ACCOUNT);
    if found.Some? {
      var behind := trimmed[found.value + |ON_ACCOUNT|..];
      if behind != "" {
        assert behind[|behind| - 1] == trimmed[|trimmed| - 1];
        TrimKeepsEnd(behind);
      }
    }
  }

  /** The keyword alone is such a rule. */
  lemma BareAccountClausePanics(u: Unicode)
    ensures ParseRule(u, ON_ACCOUNT) == Err(Panic)
  {
    hide SplitWhereAndActions, ParseConditions;
    TrimIdentity(ON_ACCOUNT);
    assert ON_ACCOUNT[..0] == "" && ON_ACCOUNT[0..0 + |ON_ACCOUNT|] == ON_ACCOUNT;
    assert KeywordAt(ON_ACCOUNT, ON_ACCOUNT, 0);
    OnAccountPanics(ON_ACCOUNT);
  }

  lemma {:induction false} TrimKeepsEnd(s: string)
    requires s != "" && !IsWhitespace(s[|s| - 1])
    ensures Trim(s) != ""
  {
    if !IsWhitespace(s[0]) {
    } else {
      assert s[1..][|s[1..]| - 1] == s[|s| - 1];
      TrimKeepsEnd(s[1..]);
      assert Trim(s) == Trim(s[1..]);
    }
  }

  // ---------------------------------------------------------------- WHERE and ACTION

  /** `split_where_and_actions`. */
  function SplitWhereAndActions(u: Unicode, body: string): Result<(string, seq<RuleAction>), ParseError> {
    var trimmed := Trim(body);
    var (conditions, actions) := match CutAt(trimmed, ACTION) case Some(parts) => parts case None => (trimmed, "");
    if Trim(actions) == "" then Ok((Trim(conditions), []))
    else
      match NsqlActions.ParseActionsText(u, actions)
      case Err(e) => Err(e)
      case Ok(parsed) => Ok((Trim(conditions), parsed))
  }

  /** The statement handed to the SQL library. */
  function FullStatement(u: Unicode, preprocessed: string): string {
    if "SELECT" <= u.Upper(preprocessed) then preprocessed
    else if "WHERE" <= u.Upper(preprocessed) then "SELECT * FROM emails " + preprocessed
    else "SELECT * FROM emails WHERE " + preprocessed
  }

  /** `parse_conditions`. */
  function ParseConditions(u: Unicode, text: string): Result<ConditionNode, ParseError> {
    var trimmed := Trim(text);
    if trimmed == "" then Err(Syntax)
    else
      match SqlSubset.Lex(u, FullStatement(u, NsqlPreprocess.Preprocess(u, trimmed)))
      case None => Err(Syntax)
      case Some(tokens) =>
        match SqlSubset.ParseSelect(tokens)
        case None => Err(Syntax)
        case Some(e) => NsqlConvert.ConvertExpr(u, e, 1)
  }

  function ParseRule(u: Unicode, nsql: string): Result<ParsedRule, ParseError> {
    match ExtractOnAccount(nsql)
    case Err(e) => Err(e)
    case Ok((target, body)) =>
      match SplitWhereAndActions(u, body)
      case Err(e) => Err(e)
      case Ok((conditionsText, actions)) =>
        match ParseConditions(u, conditionsText)
        case Err(e) => Err(e)
        case Ok(conditions) =>
          if Depth(conditions) > NsqlConvert.MAX_AST_DEPTH then Err(MaxDepthExceeded)
          else Ok(ParsedRule(target, conditions, actions))
  }

  /** `parse_rule`, with the scanners and the action loop it calls. */
  method ParseRuleText(u: Unicode, nsql: string) returns (r: Result<ParsedRule, ParseError>)
    ensures r == ParseRule(u, nsql)
  {
    hide Trim, ParseConditions, FirstKeywordFrom, AccountPattern;
    var trimmed := Trim(nsql);
    var account := CutAtKeyword(trimmed, ON_ACCOUNT);
    var target, body := "*", trimmed;
    if account.Some? {
      var found := AccountTarget(Trim(account.value.1));
      if found.Err? {
        return Err(found.error);
      }
      var prefix, rest := Trim(account.value.0), Trim(found.value.1);
      target := AccountPattern(found.value.0);
      body := if prefix == "" then rest else Trim(prefix + " " + rest);
    }
    var bodyTrimmed := Trim(body);
    var action := CutAtKeyword(bodyTrimmed, ACTION);
    var where, clause := bodyTrimmed, "";
    if action.Some? {
      where, clause := action.value.0, action.value.1;
    }
    var actions: seq<RuleAction> := [];
    if Trim(clause) != "" {
      var parsed := NsqlActions.ParseActions(u, clause);
      if parsed.Err? {
        return Err(parsed.error);
      }
      actions := parsed.value;
    }
    var conditions := ParseConditions(u, Trim(where));
    if conditions.Err? {
      return Err(conditions.error);
    }
    if Depth(conditions.value) > NsqlConvert.MAX_AST_DEPTH {
      return Err(MaxDepthExceeded);
    }
    r := Ok(ParsedRule(target, conditions.value, actions));
  }

  // ---------------------------------------------------------------- the account clause, read from its text

  /** After quiet text that is empty or ends in whitespace, a keyword in any case is the first occurrence. */
  lemma KeywordCut(before: string, found: string, kw: string, rest: string)
    requires kw != "" && !IsQuote(kw[0]) && Quiet(before, kw) && (before == "" || IsWhitespace(before[|before| - 1]))
    requires SameLetters(found, kw) && (rest == "" || IsWhitespace(rest[0]))
    ensures CutAt(before + found + rest, kw) == Some((before, rest))
  {
    var text := before + found + rest;
    LettersIgnoreCase(found, kw);
    assert text == before + (found + rest);
    assert text[..|before|] == before && text[|before|..|before| + |kw|] == found;
    assert SameLetter(found[0], kw[0]) && text[|before|] == found[0];
    assert KeywordAt(text, kw, |before|);
    forall i | 0 <= i < |before|
      ensures !KeywordAt(text, kw, i)
    {
      QuietNotAt(before, found + rest, kw, i);
    }
    assert FindKeyword(text, kw).Some?;
    assert text[|before| + |kw|..] == rest;
  }

  /** A target in single or double quotes of which it holds none, or a bare word. */
  predicate IsTarget(clause: string, t: string) {
    || (clause == "'" + t + "'" && '\'' !in t)
    || (clause == "\"" + t + "\"" && '"' !in t)
    || (clause == t && t != "" && t[0] != '\'' && t[0] != '"' && forall c | c in t :: !IsWhitespace(c))
  }

  lemma QuotedTargetRead(t: string, quote: char, rest: string)
    requires quote !in t
    ensures QuotedTarget(t + [quote] + rest, quote) == (t, rest)
  {
    var s := t + [quote] + rest;
    IndexOfConcat(t, quote, rest);
    assert s[..|t|] == t && s[|t| + 1..] == rest;
  }

  lemma {:induction false} WordSpanRead(t: string, rest: string)
    requires (forall c | c in t :: !IsWhitespace(c)) && (rest == "" || IsWhitespace(rest[0]))
    ensures WordSpan(t + rest) == |t|
  {
    if t == "" {
      assert t + rest == rest;
    } else {
      assert t[0] in t && forall c | c in t[1..] :: c in t;
      assert (t + rest)[1..] == t[1..] + rest;
      WordSpanRead(t[1..], rest);
    }
  }

  /** The target is read however it is quoted; what follows it is the rest of the rule. */
  lemma TargetRead(clause: string, t: string, rest: string)
    requires IsTarget(clause, t) && (rest == "" || IsWhitespace(rest[0]))
    ensures AccountTarget(clause + rest).Ok?
    ensures AccountTarget(clause + rest).value.0 == t && Trim(AccountTarget(clause + rest).value.1) == Trim(rest)
  {
    hide Trim;
    if clause == "'" + t + "'" && '\'' !in t {
      assert (clause + rest)[1..] == t + ['\''] + rest;
      QuotedTargetRead(t, '\'', rest);
    } else if clause == "\"" + t + "\"" && '"' !in t {
      assert (clause + rest)[1..] == t + ['"'] + rest;
      QuotedTargetRead(t, '"', rest);
    } else {
      WordSpanRead(t, rest);
      assert (t + rest)[..|t|] == t && (t + rest)[|t|..] == rest;
      NsqlActions.TrimTwice(rest);
    }
  }

  /** An account clause anywhere in a rule, its keyword in any case: the target is all accounts when it is `?`, `*` or
      `%` and itself otherwise, and the rule is the text before the clause, one space, and the text behind it. */
  lemma AccountClauseRead(nsql: string, before: string, found: string, gap: string, clause: string, t: string, rest: string)
    requires Trim(nsql) == before + found + (gap + (clause + rest))
    requires Quiet(before, ON_ACCOUNT) && (before == "" || IsWhitespace(before[|before| - 1])) && SameLetters(found, "ON ACCOUNT")
    requires gap != "" && (forall c | c in gap :: IsWhitespace(c))
    requires IsTarget(clause, t) && (rest == "" || IsWhitespace(rest[0]))
    ensures ExtractOnAccount(nsql) ==
            Ok((if t == "?" || t == "*" || t == "%" then "*" else t,
                if Trim(before) == "" then Trim(rest)
                else if Trim(rest) == "" then Trim(before) else Trim(before) + " " + Trim(rest)))
  {
    KeywordCut(before, found, ON_ACCOUNT, gap + (clause + rest));
    GapTrimmed(nsql, before + found, gap, clause, rest, t);
    var after := Trim(gap + (clause + rest));
    TargetRead(clause, t, after[|clause|..]);
    assert clause + after[|clause|..] == after;
    hide Trim, Quiet, SameLetters, IsTarget, AccountTarget, CutAt, Trimmed;
    PartsTrimmed(before, rest);
    NsqlActions.TrimTwice(rest);
    NsqlActions.TrimTwice(before);
  }

  /** Behind a gap, trimming leaves the clause and what follows it. */
  lemma GapTrimmed(nsql: string, head: string, gap: string, clause: string, rest: string, t: string)
    requires Trim(nsql) == head + (gap + (clause + rest)) && (forall c | c in gap :: IsWhitespace(c)) && IsTarget(clause, t)
    requires rest == "" || IsWhitespace(rest[0])
    ensures var after := Trim(gap + (clause + rest));
            && clause <= after && (after[|clause|..] == "" || IsWhitespace(after[|clause|]))
            && Trim(after[|clause|..]) == Trim(rest)
  {
    var s := clause + rest;
    assert clause != "" && !IsWhitespace(clause[0]);
    NsqlActions.TrimGap(gap, s);
    TrimIsTrimmed(nsql);
    assert Trimmed(head + (gap + s));
    assert (head + (gap + s))[|head + (gap + s)| - 1] == s[|s| - 1];
    TrimIdentity(s);
    assert s[|clause|..] == rest;
  }

  lemma PartsTrimmed(before: string, rest: string)
    ensures var (p, r) := (Trim(before), Trim(rest));
            Trim(p + " " + r) == if p == "" then r else if r == "" then p else p + " " + r
  {
    var (p, r) := (Trim(before), Trim(rest));
    TrimIsTrimmed(before);
    TrimIsTrimmed(rest);
    TrimIdentity(p);
    TrimIdentity(r);
    if p == "" {
      assert p + " " + r == " " + r;
      NsqlActions.TrimPadded(r);
    } else if r == "" {
      assert p + " " + r == p + [' '] && (p + [' '])[..|p|] == p;
      assert TrimStart(p + [' ']) == p + [' '];
    } else {
      TrimIdentity(p + " " + r);
    }
  }

  /** So the whole rule is the rule without the clause, for the accounts its target names. */
  lemma AccountClauseSetsTarget(u: Unicode, nsql: string, before: string, found: string, gap: string, clause: string, t: string, rest: string, body: string)
    requires Trim(nsql) == before + found + (gap + (clause + rest))
    requires Quiet(before, ON_ACCOUNT) && (before == "" || IsWhitespace(before[|before| - 1])) && SameLetters(found, "ON ACCOUNT")
    requires gap != "" && (forall c | c in gap :: IsWhitespace(c))
    requires IsTarget(clause, t) && (rest == "" || IsWhitespace(rest[0]))
    requires body == if Trim(before) == "" then Trim(rest)
                     else if Trim(rest) == "" then Trim(before) else Trim(before) + " " + Trim(rest)
    requires FindKeyword(body, ON_ACCOUNT) == None
    ensures var (r, plain) := (ParseRule(u, nsql), ParseRule(u, body));
            && (r.Ok? <==> plain.Ok?)
            && (r.Err? ==> r.error == plain.error)
            && (r.Ok? ==>
                  && r.value.targetAccount == (if t == "?" || t == "*" || t == "%" then "*" else t)
                  && r.value.conditions == plain.value.conditions && r.value.actions == plain.value.actions)
  {
    hide *;
    AccountClauseRead(nsql, before, found, gap, clause, t, rest);
    BodyTrimmed(before, rest, body);
    PlainExtracted(body);
    TargetAside(u, nsql, body, if t == "?" || t == "*" || t == "%" then "*" else t);
  }

  lemma PlainExtracted(body: string)
    requires Trim(body) == body && FindKeyword(body, ON_ACCOUNT) == None
    ensures ExtractOnAccount(body) == Ok(("*", body))
  {
    hide FindKeyword, Trim;
    NoClauseNoCut(body);
  }

  /** The target has no say in the rest of the rule. */
  lemma TargetAside(u: Unicode, nsql: string, body: string, target: string)
    requires ExtractOnAccount(nsql) == Ok((target, body)) && ExtractOnAccount(body) == Ok(("*", body))
    ensures var (r, plain) := (ParseRule(u, nsql), ParseRule(u, body));
            && (r.Ok? <==> plain.Ok?)
            && (r.Err? ==> r.error == plain.error)
            && (r.Ok? ==>
                  && r.value.targetAccount == target
                  && r.value.conditions == plain.value.conditions && r.value.actions == plain.value.actions)
  {
    hide ExtractOnAccount, SplitWhereAndActions, ParseConditions, Depth;
  }

  /** The actions are read from behind the first ACTION outside quotes, in any case, the conditions from before it. */
  lemma ActionClauseRead(u: Unicode, body: string, before: string, found: string, rest: string)
    requires Trim(body) == before + found + rest && SameLetters(found, "ACTION") && (rest == "" || IsWhitespace(rest[0]))
    requires Quiet(before, ACTION) && (before == "" || IsWhitespace(before[|before| - 1]))
    ensures var (r, parsed) := (SplitWhereAndActions(u, body), NsqlActions.ParseActionsText(u, rest));
            && (r.Ok? <==> Trim(rest) == "" || parsed.Ok?)
            && (r.Err? ==> r.error == parsed.error)
            && (r.Ok? ==> r.value == (Trim(before), if Trim(rest) == "" then [] else parsed.value))
  {
    KeywordCut(before, found, ACTION, rest);
    hide Trim, CutAt, Quiet, SameLetters, NsqlActions.ParseActionsText;
  }

  lemma BodyTrimmed(before: string, rest: string, body: string)
    requires body == if Trim(before) == "" then Trim(rest)
                     else if Trim(rest) == "" then Trim(before) else Trim(before) + " " + Trim(rest)
    ensures Trim(body) == body
  {
    hide Trim;
    NsqlActions.TrimTwice(rest);
    NsqlActions.TrimTwice(before);
    NsqlActions.TrimTwice(Trim(before) + " " + Trim(rest));
    PartsTrimmed(before, rest);
  }

  /** A target whose quote never closes takes all that is left. */
  lemma OpenTargetRead(quote: char, t: string)
    requires (quote == '\'' || quote == '"') && quote !in t
    ensures AccountTarget([quote] + t) == Ok((t, ""))
  {
    assert ([quote] + t)[1..] == t;
    var k := IndexOf(t, quote);
    assert k == |t| && t[..k] == t;
  }

  /** A quoted account clause in front of a rule that has none sets the target and changes nothing else. */
  lemma AccountClauseInFront(u: Unicode, t: string, body: string)
    requires '\'' !in t && body != "" && Trimmed(body) && FindKeyword(body, ON_ACCOUNT) == None
    ensures var r := ParseRule(u, "ON ACCOUNT '" + t + "' " + body);
            var plain := ParseRule(u, body);
            && (r.Ok? <==> plain.Ok?)
            && (r.Err? ==> r.error == plain.error)
            && (r.Ok? ==>
                  && r.value.targetAccount == (if t == "?" || t == "*" || t == "%" then "*" else t)
                  && r.value.conditions == plain.value.conditions && r.value.actions == plain.value.actions)
  {
    var nsql, clause := "ON ACCOUNT '" + t + "' " + body, "'" + t + "'";
    FrontClause(t, body);
    NsqlActions.PaddedTrim(" ", body);
    TrimNothing();
    hide Trim, FindKeyword, Trimmed, ParseRule, IsTarget, Quiet;
    AccountClauseSetsTarget(u, nsql, "", ON_ACCOUNT, " ", clause, t, " " + body, body);
  }

  lemma FrontClause(t: string, body: string)
    requires '\'' !in t && body != "" && Trimmed(body)
    ensures var nsql := "ON ACCOUNT '" + t + "' " + body;
            Trim(nsql) == "" + ON_ACCOUNT + (" " + ("'" + t + "'" + (" " + body)))
    ensures Quiet("", ON_ACCOUNT) && SameLetters(ON_ACCOUNT, "ON ACCOUNT") && IsTarget("'" + t + "'", t)
  {
    var nsql := "ON ACCOUNT '" + t + "' " + body;
    assert nsql == ON_ACCOUNT + (" " + ("'" + t + "'" + (" " + body)));
    assert nsql[|nsql| - 1] == body[|body| - 1] && nsql[0] == 'O';
    TrimIdentity(nsql);
  }

  lemma NoClauseNoCut(body: string)
    requires FindKeyword(body, ON_ACCOUNT) == None
    ensures CutAt(body, ON_ACCOUNT) == None
  {
  }

  lemma TrimNothing()
    ensures Trim("") == ""
  {
  }

  /** Conditions that parse are within the depth limit, so the later checks of the same limit never fire. */
  lemma ParsedConditionsWithinDepth(u: Unicode, text: string)
    requires ParseConditions(u, text).Ok?
    ensures Depth(ParseConditions(u, text).value) <= NsqlConvert.MAX_AST_DEPTH
  {
    hide SqlSubset.Lex, SqlSubset.ParseSelect, FullStatement, NsqlPreprocess.Preprocess, Trim;
    var tokens := SqlSubset.Lex(u, FullStatement(u, NsqlPreprocess.Preprocess(u, Trim(text)))).value;
    NsqlConvert.DepthDiscipline(u, SqlSubset.ParseSelect(tokens).value, 1);
  }
}
