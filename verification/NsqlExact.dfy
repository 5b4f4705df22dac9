/** Rules whose targets make the scanner find an account clause, and the exact condition under which a rule comes
    back. */
module NsqlExact {
  import opened Wrappers
  import opened Text
  import opened NsqlAst
  import opened NsqlScanner
  import opened NsqlActions
  import NsqlConvert
  import opened NsqlRule
  import opened NsqlPrinted
  import NsqlReread
  import opened NsqlRoundTrip
  import NsqlLost

  // ---------------------------------------------------------------- what reading cannot make up

  /** The letter U, or a character that may become one in upper case. */
  predicate Heavy(c: char) { c == 'U' || c == 'u' || !IsAscii(c) }

  function Weight(s: string): nat {
    if s == "" then 0 else (if Heavy(s[0]) then 1 else 0) + Weight(s[1..])
  }

  lemma {:induction false} WeightConcat(a: string, b: string)
    ensures Weight(a + b) == Weight(a) + Weight(b)
  {
    hide Heavy;
    if a == "" {
      assert a + b == b;
    } else {
      assert (a + b)[1..] == a[1..] + b;
      WeightConcat(a[1..], b);
    }
  }

  lemma WeightCut(s: string, i: nat)
    requires i <= |s|
    ensures Weight(s) == Weight(s[..i]) + Weight(s[i..])
  {
    assert s == s[..i] + s[i..];
    WeightConcat(s[..i], s[i..]);
  }

  lemma {:induction false} TrimStartWeight(s: string)
    ensures Weight(TrimStart(s)) <= Weight(s)
  {
    if s == "" || !IsWhitespace(s[0]) {
    } else {
      TrimStartWeight(s[1..]);
    }
  }

  lemma {:induction false} TrimEndWeight(s: string)
    ensures Weight(TrimEnd(s)) <= Weight(s)
  {
    if s == "" || !IsWhitespace(s[|s| - 1]) {
    } else {
      TrimEndWeight(s[..|s| - 1]);
      WeightCut(s, |s| - 1);
    }
  }

  lemma TrimWeight(s: string)
    ensures Weight(Trim(s)) <= Weight(s)
  {
    TrimStartWeight(s);
    TrimEndWeight(TrimStart(s));
  }

  lemma {:induction false} TrimCharStartWeight(s: string, c: char)
    ensures Weight(TrimCharStart(s, c)) <= Weight(s)
  {
    if s == "" || s[0] != c {
    } else {
      TrimCharStartWeight(s[1..], c);
    }
  }

  lemma {:induction false} TrimCharEndWeight(s: string, c: char)
    ensures Weight(TrimCharEnd(s, c)) <= Weight(s)
  {
    if s == "" || s[|s| - 1] != c {
    } else {
      TrimCharEndWeight(s[..|s| - 1], c);
      WeightCut(s, |s| - 1);
    }
  }

  lemma TrimCharWeight(s: string, c: char)
    ensures Weight(TrimChar(s, c)) <= Weight(s)
  {
    TrimCharStartWeight(s, c);
    TrimCharEndWeight(TrimCharStart(s, c), c);
  }

  lemma {:induction false} ByteDropWeight(s: string, b: nat)
    requires ByteDrop(s, b).Some?
    ensures Weight(ByteDrop(s, b).value) <= Weight(s)
  {
    if b == 0 {
    } else {
      ByteDropWeight(s[1..], b - Utf8Width(s[0]));
    }
  }

  /** A target is read from the chunk. */
  lemma TargetWeight(chunk: string, width: nat)
    requires TargetOf(chunk, width).Ok?
    ensures Weight(TargetOf(chunk, width).value) <= Weight(chunk)
  {
    hide TrimChar, Trim, Weight;
    var rest := ByteDrop(chunk, width).value;
    ByteDropWeight(chunk, width);
    TrimWeight(rest);
    TrimCharWeight(Trim(rest), '\'');
    TrimCharWeight(TrimChar(Trim(rest), '\''), '"');
  }

  lemma {:induction false} NoWeight(s: string)
    requires Weight(s) == 0
    ensures AllAscii(s) && forall c | c in s :: !Heavy(c)
  {
    if s == "" {
    } else {
      NoWeight(s[1..]);
      assert forall c | c in s :: c == s[0] || c in s[1..];
    }
  }

  /** Without such a character there is no U in upper case. */
  lemma UpperHasNoU(u: Unicode, s: string)
    requires u.Valid() && Weight(s) == 0
    ensures 'U' !in u.Upper(s)
  {
    NoWeight(s);
    UpperAsciiPrefix(u, s, "");
    assert s + "" == s && u.Upper("") == "" && AsciiUpper(s) + "" == AsciiUpper(s);
    UpperCharsOf(s);
  }

  lemma {:induction false} UpperCharsOf(s: string)
    requires forall c | c in s :: !Heavy(c)
    ensures 'U' !in AsciiUpper(s)
  {
    if s == "" {
    } else {
      assert s[0] in s;
      UpperCharsOf(s[1..]);
      assert AsciiUpper(s) == [UpperChar(s[0])] + AsciiUpper(s[1..]);
    }
  }

  lemma {:induction false} Weightless(s: string)
    requires forall i | 0 <= i < |s| :: !Heavy(s[i])
    ensures Weight(s) == 0
  {
    hide Heavy;
    if s == "" {
    } else {
      Weightless(s[1..]);
    }
  }

  lemma OneU(s: string, k: nat)
    requires k < |s| && forall i | 0 <= i < |s| && i != k :: !Heavy(s[i])
    ensures Weight(s) <= 1
  {
    hide Heavy;
    WeightCut(s, k);
    WeightCut(s[k..], 1);
    Weightless(s[..k]);
    Weightless(s[k..][1..]);
    assert s[k..][..1] == [s[k]];
    assert Weight([s[k]]) <= 1 + Weight([s[k]][1..]);
  }

  lemma KeywordWeight(action: RuleAction)
    ensures Weight(Keyword(action)) <= if action.MarkUnread? || action.Unflag? then 1 else 0
  {
    var kw := Keyword(action);
    if action.MarkUnread? {
      OneU(kw, 5);
    } else if action.Unflag? {
      OneU(kw, 0);
    } else {
      Weightless(kw);
    }
  }

  lemma PrintedWeight(action: RuleAction)
    ensures Weight(ActionText(action)) <=
            (if HasTarget(action) then Weight(action.target) else if action.MarkUnread? || action.Unflag? then 1 else 0)
  {
    hide Keyword, Weight, ActionText;
    ActionTextShape(action);
    KeywordWeight(action);
    var kw := Keyword(action);
    if HasTarget(action) {
      Weightless(" '");
      Weightless("'");
      WeightConcat(kw, " '");
      WeightConcat(kw + " '", action.target);
      WeightConcat(kw + " '" + action.target, "'");
      assert kw + (" '" + action.target + "'") == kw + " '" + action.target + "'";
    } else {
      assert kw + "" == kw;
    }
  }

  /** A chunk weighs at least what the action read from it does when it is printed. */
  lemma ActionWeight(u: Unicode, chunk: string)
    requires u.Valid() && ParseAction(u, chunk).Ok?
    ensures Weight(ActionText(ParseAction(u, chunk).value)) <= Weight(chunk)
  {
    var action := ParseAction(u, chunk).value;
    PrintedWeight(action);
    if HasTarget(action) {
      TargetRead(u, chunk);
      TargetWeight(chunk, |Keyword(action)|);
    } else if action.MarkUnread? || action.Unflag? {
      UnreadUpper(u, chunk);
      if Weight(chunk) == 0 { UpperHasNoU(u, chunk); }
    }
    hide Unicode.Upper, Weight, TargetOf, ParseAction, ActionText;
  }

  lemma TargetRead(u: Unicode, chunk: string)
    requires ParseAction(u, chunk).Ok? && HasTarget(ParseAction(u, chunk).value)
    ensures var action := ParseAction(u, chunk).value; TargetOf(chunk, |Keyword(action)|) == Ok(action.target)
  {
    hide Unicode.Upper, TargetOf;
  }

  lemma UnreadUpper(u: Unicode, chunk: string)
    requires ParseAction(u, chunk).Ok?
    requires var action := ParseAction(u, chunk).value; action.MarkUnread? || action.Unflag?
    ensures 'U' in u.Upper(chunk)
  {
    hide Unicode.Upper, TargetOf;
    assert "UNFLAG"[0] == 'U' && "MARK UNREAD"[5] == 'U';
  }

  function TotalWeight(texts: seq<string>): nat {
    if texts == [] then 0 else Weight(texts[0]) + TotalWeight(texts[1..])
  }

  lemma {:induction false} ChunksWeight(u: Unicode, chunks: seq<string>)
    requires u.Valid() && ParseChunks(u, chunks).Ok?
    ensures TotalWeight(ActionTexts(ParseChunks(u, chunks).value)) <= TotalWeight(chunks)
  {
    if chunks == [] {
    } else {
      hide ParseAction, ActionText, Weight, Trim;
      ChunksWeight(u, chunks[1..]);
      if Trim(chunks[0]) != "" {
        var chunk := Trim(chunks[0]);
        TrimWeight(chunks[0]);
        ActionWeight(u, chunk);
        var (first, rest) := (ParseAction(u, chunk).value, ParseChunks(u, chunks[1..]).value);
        assert ([first] + rest)[0] == first && ([first] + rest)[1..] == rest;
        assert ActionTexts([first] + rest) == [ActionText(first)] + ActionTexts(rest);
      }
    }
  }

  lemma {:induction false} SplitWeight(q: Quote, current: string, s: string)
    ensures TotalWeight(SplitFrom(q, current, s)) <= Weight(current) + Weight(s)
    decreases |s|
  {
    hide Trim;
    TrimWeight(current);
    if s == "" {
    } else {
      WeightConcat(current, [s[0]]);
      WeightCut(s, 1);
      assert s[..1] == [s[0]];
      if s[0] == ',' && q == Out {
        SplitWeight(Out, "", s[1..]);
        assert ([Trim(current)] + SplitFrom(Out, "", s[1..]))[1..] == SplitFrom(Out, "", s[1..]);
      } else {
        SplitWeight(Step(q, s[0]), current + [s[0]], s[1..]);
      }
    }
  }

  lemma {:induction false} ClauseWeight(actions: seq<RuleAction>)
    ensures Weight(ActionsClause(actions)) == TotalWeight(ActionTexts(actions))
  {
    hide ActionText, Weight, ActionsClause;
    Weightless("");
    if actions == [] {
      NoActions();
    } else {
      ClauseShape(actions);
      Weightless(", ");
      ClauseWeight(actions[1..]);
      assert ActionTexts(actions) == [ActionText(actions[0])] + ActionTexts(actions[1..]);
      WeightConcat(ActionText(actions[0]), ClauseTail(actions[1..]));
      if actions[1..] != [] { WeightConcat(", ", ActionsClause(actions[1..])); } else { NoActions(); }
    }
  }

  /** Actions are never read from a text that weighs less than their printed clause. */
  lemma ReadFromEnough(u: Unicode, text: string)
    requires u.Valid() && ParseActionsText(u, text).Ok?
    ensures Weight(ActionsClause(ParseActionsText(u, text).value)) <= Weight(text)
  {
    hide Weight, ActionsClause, ActionTexts, ParseChunks, SplitFrom;
    SplitWeight(Out, "", text);
    ChunksWeight(u, SplitFrom(Out, "", text));
    ClauseWeight(ParseActionsText(u, text).value);
    Weightless("");
  }

  // ---------------------------------------------------------------- an account clause among the targets

  lemma {:induction false} SameWeight(s: string, t: string)
    requires SameIgnoreCase(s, t) && AllAscii(t)
    ensures Weight(t) <= Weight(s)
  {
    if s == "" {
    } else {
      assert EqIgnoreCase(s[0], t[0]) && t[0] in t;
      assert forall i | 0 <= i < |s[1..]| :: s[1..][i] == s[i + 1] && t[1..][i] == t[i + 1];
      SameWeight(s[1..], t[1..]);
    }
  }

  lemma HasU(s: string, k: nat)
    requires k < |s| && s[k] == 'U'
    ensures Weight(s) > 0
  {
    WeightCut(s, k);
  }

  lemma {:induction false} RestWeight(s: string)
    ensures Weight(s[WordSpan(s)..]) <= Weight(s)
  {
    WeightCut(s, WordSpan(s));
  }

  lemma QuotedRestWeight(s: string, quote: char)
    ensures Weight(QuotedTarget(s, quote).1) <= Weight(s)
  {
    var k := IndexOf(s, quote);
    if k + 1 < |s| { WeightCut(s, k + 1); }
  }

  lemma TargetRestWeight(after: string)
    requires AccountTarget(after).Ok?
    ensures Weight(AccountTarget(after).value.1) <= Weight(after)
  {
    hide QuotedTarget, Trim;
    WeightCut(after, 1);
    QuotedRestWeight(after[1..], '\'');
    QuotedRestWeight(after[1..], '"');
    RestWeight(after);
    TrimWeight(after[WordSpan(after)..]);
  }

  lemma FoundText(text: string, kw: string)
    requires kw != "" && FindKeyword(text, kw).Some?
    ensures var i := FindKeyword(text, kw).value; i + |kw| <= |text| && SameIgnoreCase(text[i..i + |kw|], kw)
  {
    hide SameIgnoreCase;
    FoundKeyword(text, kw);
  }

  lemma KeywordCutWeight(text: string, kw: string)
    requires kw != "" && AllAscii(kw) && CutAt(text, kw).Some?
    ensures var parts := CutAt(text, kw).value; Weight(parts.0) + Weight(kw) + Weight(parts.1) <= Weight(text)
  {
    FoundText(text, kw);
    hide Weight, FindKeyword, SameIgnoreCase;
    var i := FindKeyword(text, kw).value;
    var rest := text[i..];
    assert rest[..|kw|] == text[i..i + |kw|] && rest[|kw|..] == text[i + |kw|..];
    SameWeight(rest[..|kw|], kw);
    WeightCut(text, i);
    WeightCut(rest, |kw|);
  }

  /** Taking out the account clause takes out a U. */
  lemma CutWeight(text: string)
    requires CutAt(text, ON_ACCOUNT).Some?
    ensures var parts := CutAt(text, ON_ACCOUNT).value; Weight(parts.0) + Weight(parts.1) < Weight(text)
  {
    hide *;
    AccountHasU();
    KeywordCutWeight(text, ON_ACCOUNT);
  }

  lemma AccountHasU()
    ensures ON_ACCOUNT != "" && AllAscii(ON_ACCOUNT) && Weight(ON_ACCOUNT) > 0
  {
    hide Weight;
    HasU(ON_ACCOUNT, 7);
  }

  lemma BodyWeight(text: string)
    requires Trim(text) == text && CutAt(text, ON_ACCOUNT).Some? && ExtractOnAccount(text).Ok?
    ensures Weight(ExtractOnAccount(text).value.1) < Weight(text)
  {
    hide Trim, Weight, CutAt, AccountTarget;
    CutWeight(text);
    var (before, behind) := CutAt(text, ON_ACCOUNT).value;
    var rest := AccountTarget(Trim(behind)).value.1;
    TrimWeight(behind);
    TargetRestWeight(Trim(behind));
    TrimWeight(rest);
    TrimWeight(before);
    var prefix := Trim(before);
    Weightless(" ");
    WeightConcat(prefix, " ");
    WeightConcat(prefix + " ", Trim(rest));
    TrimWeight(prefix + " " + Trim(rest));
    TrimWeight(Trim(rest));
  }

  lemma PrintedRuleWeight(part: string, text: string, clause: string)
    requires text == part + " " + ACTION + (" " + clause)
    ensures Weight(text) == Weight(part + " ") + Weight(clause)
  {
    hide Weight;
    assert text == (part + " ") + (ACTION + (" " + clause));
    WeightConcat(part + " ", ACTION + (" " + clause));
    WeightConcat(ACTION, " " + clause);
    WeightConcat(" ", clause);
    Weightless(ACTION);
    Weightless(" ");
  }

  /** What is left behind ACTION weighs less than what was printed there. */
  lemma LessBehindAction(part: string, text: string, clause: string)
    requires text == part + " " + ACTION + (" " + clause) && Trim(text) == text
    requires CutAt(text, ON_ACCOUNT).Some? && ExtractOnAccount(text).Ok?
    requires var cut := CutAt(Trim(ExtractOnAccount(text).value.1), ACTION); cut.Some? && cut.value.0 == part + " "
    ensures Weight(CutAt(Trim(ExtractOnAccount(text).value.1), ACTION).value.1) < Weight(clause)
  {
    hide Trim, Weight, ExtractOnAccount, CutAt;
    var body := ExtractOnAccount(text).value.1;
    BodyWeight(text);
    TrimWeight(body);
    KeywordCutWeight(Trim(body), ACTION);
    PrintedRuleWeight(part, text, clause);
  }

  /** The actions of a parsed rule come from behind its ACTION. */
  lemma ReadBehindAction(u: Unicode, text: string)
    requires ParseRule(u, text).Ok? && ParseRule(u, text).value.actions != []
    requires ExtractOnAccount(text).Ok? ==> CutAt(Trim(ExtractOnAccount(text).value.1), ACTION).Some?
    ensures ExtractOnAccount(text).Ok?
    ensures ParseActionsText(u, CutAt(Trim(ExtractOnAccount(text).value.1), ACTION).value.1) == Ok(ParseRule(u, text).value.actions)
  {
    hide ParseConditions, ParseActionsText, CutAt, ExtractOnAccount, Trim;
  }

  lemma ParsedIsExtracted(u: Unicode, text: string)
    requires ParseRule(u, text).Ok?
    ensures ExtractOnAccount(text).Ok?
  {
    hide ParseConditions, SplitWhereAndActions, ExtractOnAccount;
  }

  lemma SomeAccountClause(conditions: ConditionNode, actions: seq<RuleAction>)
    requires Unquoted(conditions) && !NoAccountClause(conditions, actions)
    ensures actions != [] && CutAt(Trim(RuleText(conditions, actions)), ON_ACCOUNT).Some?
  {
    hide RuleText, Unquoted, FindKeyword;
    if actions == [] { QuoteFreeNoAccountClause(conditions, actions); }
  }

  /** A rule in which quotes in targets make the scanner find an account clause does not come back: the parser takes
      the clause out of a target, and no reading makes up for it. */
  lemma AccountRuleIsLost(u: Unicode, conditions: ConditionNode, actions: seq<RuleAction>)
    requires u.Valid() && Unquoted(conditions) && !NoAccountClause(conditions, actions)
    ensures !RoundTripInvariant(u, conditions, actions)
  {
    NsqlLost.InvariantUnfold(u, conditions, actions);
    if RoundTripInvariant(u, conditions, actions) {
      hide *;
      var text, part := RuleText(conditions, actions), ConditionsPart(conditions);
      SomeAccountClause(conditions, actions);
      NsqlLost.RuleHeads(conditions, actions);
      NsqlLost.HeadIsQuiet(conditions);
      ParsedIsExtracted(u, text);
      NsqlLost.BodyCut(part, text);
      ReadBehindAction(u, text);
      ClauseTrimmed(actions);
      RuleTextParts(conditions, actions);
      LessBehindAction(part, text, ActionsClause(actions));
      ReadFromEnough(u, CutAt(Trim(ExtractOnAccount(text).value.1), ACTION).value.1);
    }
  }

  // ---------------------------------------------------------------- exactly

  /** For any tree without header fields whose lists outside IN hold plain literals: printing and parsing a rule gives
      back its conditions and actions exactly when no literal holds a single quote or one of the rewritten words,
      no header pattern stands in the printed conditions, every AND and OR is a pair, the tree is at most ten deep,
      every leaf reads back, no account clause and no separator is found in a target, and no target is empty or
      starts or ends with a quote. Undisturbed conditions may have any lists. */
  lemma RuleRoundTrips(u: Unicode, conditions: ConditionNode, actions: seq<RuleAction>)
    requires u.Valid() && HeaderFreeNode(conditions)
    requires (Unquoted(conditions) && NsqlReread.NoHeaderPattern(conditions)) || NsqlLost.TuplesPlain(conditions)
    ensures RoundTripInvariant(u, conditions, actions) <==>
            && Unquoted(conditions) && NsqlReread.NoHeaderPattern(conditions) && KeywordFree(u, conditions)
            && PairsOnly(conditions) && NsqlReread.ReadsBack(conditions)
            && Depth(conditions) <= NsqlConvert.MAX_AST_DEPTH
            && NoAccountClause(conditions, actions) && Separable(actions) && forall a | a in actions :: PlainAction(a)
  {
    hide *;
    if !Unquoted(conditions) {
      NsqlLost.QuotedRuleIsLost(u, conditions, actions);
    } else if !NsqlReread.NoHeaderPattern(conditions) {
      NsqlLost.HeaderRuleIsLost(u, conditions, actions);
    } else if !NoAccountClause(conditions, actions) {
      AccountRuleIsLost(u, conditions, actions);
    } else {
      UndisturbedRoundTrips(u, conditions, actions);
    }
  }
}
