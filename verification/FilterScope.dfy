/** Which accounts a rule with wildcards in its target applies to. */
module FilterScope {
  import opened Text
  import NsqlAst
  import FilterEval
  import opened FilterEngine

  /** The characters that mean the same to the pattern library from inside and outside a target: none of its
      operators except the dot, and the two wildcards. */
  predicate PlainGlob(target: string) { forall i | 0 <= i < |target| :: target[i] !in "\\+?()|[]{}^$" }

  predicate IsWild(c: char) { c == '*' || c == '%' }

  // ---------------------------------------------------------------- what a target means

  /** One character of the account against one of the target that is no wildcard: a dot takes any
      character but a newline. */
  predicate OneFits(same: (char, char) -> bool, k: char, c: char) {
    if k == '.' then c != '\n' else same(k, c)
  }

  predicate PartFits(same: (char, char) -> bool, k: char, part: string) {
    if IsWild(k) then '\n' !in part else |part| == 1 && OneFits(same, k, part[0])
  }

  predicate Splits(same: (char, char) -> bool, target: string, parts: seq<string>, s: string) {
    |parts| == |target| && Join(parts, "") == s && forall i | 0 <= i < |target| :: PartFits(same, target[i], parts[i])
  }

  /** The account falls into parts, one for each character of the target. */
  ghost predicate GlobFits(same: (char, char) -> bool, target: string, s: string) {
    exists parts :: Splits(same, target, parts, s)
  }

  // ---------------------------------------------------------------- what the pattern library reads

  /** The patterns built from plain targets: any run, any character, one character. */
  datatype Item = Run | Any | One(c: char)

  function ItemText(item: Item): string {
    match item case Run => ".*" case Any => "." case One(c) => [c]
  }

  function ItemsText(items: seq<Item>): string {
    if items == [] then "" else ItemText(items[0]) + ItemsText(items[1..])
  }

  predicate PlainItem(item: Item) { item.One? ==> item.c !in "\\.+*?()|[]{}^$" }

  predicate MatchesItems(same: (char, char) -> bool, items: seq<Item>, s: string)
    decreases |items|, |s|
  {
    if items == [] then s == ""
    else match items[0]
      case Run => MatchesItems(same, items[1..], s) || (s != "" && s[0] != '\n' && MatchesItems(same, items, s[1..]))
      case Any => s != "" && s[0] != '\n' && MatchesItems(same, items[1..], s[1..])
      case One(c) => s != "" && same(c, s[0]) && MatchesItems(same, items[1..], s[1..])
  }

  function Anchored(pattern: string): string { "(?i)^" + pattern + "$" }

  /** The case-insensitive pattern library on such patterns, with `same` its case folding. A pattern may still
      be refused, for instance for its size. */
  ghost predicate ReadsItems(lib: FilterEval.Libraries, same: (char, char) -> bool) {
    forall items | (forall i | 0 <= i < |items| :: PlainItem(items[i])) ::
      match lib.compile(Anchored(ItemsText(items)))
      case None => true
      case Some(regex) => forall s :: regex.isMatch(s) <==> MatchesItems(same, items, s)
  }

  /** Among ASCII characters folding is ASCII case folding, and every character is the same as itself. */
  ghost predicate FoldsAscii(same: (char, char) -> bool) {
    && (forall c, d | EqIgnoreCase(c, d) :: same(c, d))
    && (forall c, d | IsAscii(c) && IsAscii(d) && same(c, d) :: EqIgnoreCase(c, d))
  }

  function ItemOf(k: char): Item { if IsWild(k) then Run else if k == '.' then Any else One(k) }

  function ItemsOf(target: string): (items: seq<Item>)
    ensures |items| == |target| && forall i | 0 <= i < |target| :: items[i] == ItemOf(target[i])
  {
    if target == "" then [] else [ItemOf(target[0])] + ItemsOf(target[1..])
  }

  lemma {:induction false} TargetSpelled(target: string)
    ensures ItemsText(ItemsOf(target)) == Wildcards(target)
  {
    if target == "" {
    } else {
      assert ItemsOf(target)[1..] == ItemsOf(target[1..]);
      TargetSpelled(target[1..]);
    }
  }

  lemma PlainItems(target: string)
    requires PlainGlob(target)
    ensures forall i | 0 <= i < |target| :: PlainItem(ItemsOf(target)[i])
  {
    forall i | 0 <= i < |target|
      ensures PlainItem(ItemsOf(target)[i])
    {
      assert ItemsOf(target)[i] == ItemOf(target[i]);
    }
  }

  // ---------------------------------------------------------------- both readings agree

  lemma JoinFirst(parts: seq<string>)
    requires parts != []
    ensures Join(parts, "") == parts[0] + Join(parts[1..], "")
  {
    if |parts| == 1 {
      assert parts[1..] == [] && parts[0] + "" == parts[0];
    } else {
      assert parts[0] + "" == parts[0];
    }
  }

  lemma {:induction false} RunTakes(same: (char, char) -> bool, rest: seq<Item>, part: string, s: string)
    requires '\n' !in part && MatchesItems(same, rest, s)
    ensures MatchesItems(same, [Run] + rest, part + s)
    decreases |part|
  {
    var items := [Run] + rest;
    assert items[1..] == rest;
    if part == "" {
      assert part + s == s;
    } else {
      RunTakes(same, rest, part[1..], s);
      assert (part + s)[1..] == part[1..] + s && (part + s)[0] == part[0] && part[0] in part;
    }
  }

  lemma {:induction false} SplitMatches(same: (char, char) -> bool, target: string, parts: seq<string>, s: string)
    requires Splits(same, target, parts, s)
    ensures MatchesItems(same, ItemsOf(target), s)
    decreases |target|
  {
    if target == "" {
    } else {
      var rest := Join(parts[1..], "");
      JoinFirst(parts);
      assert Splits(same, target[1..], parts[1..], rest);
      SplitMatches(same, target[1..], parts[1..], rest);
      assert ItemsOf(target)[1..] == ItemsOf(target[1..]);
      assert PartFits(same, target[0], parts[0]);
      if IsWild(target[0]) {
        RunTakes(same, ItemsOf(target[1..]), parts[0], rest);
        assert ItemsOf(target) == [Run] + ItemsOf(target[1..]);
      } else {
        assert s[0] == parts[0][0] && s[1..] == rest;
      }
    }
  }

  lemma SplitsLonger(same: (char, char) -> bool, target: string, part: string, parts: seq<string>, s: string)
    requires target != "" && PartFits(same, target[0], part) && Splits(same, target[1..], parts, s)
    ensures Splits(same, target, [part] + parts, part + s)
  {
    var all := [part] + parts;
    JoinFirst(all);
    assert all[1..] == parts;
    forall i | 0 <= i < |target|
      ensures PartFits(same, target[i], all[i])
    {
      if i > 0 { assert target[1..][i - 1] == target[i] && parts[i - 1] == all[i]; }
    }
  }

  lemma {:induction false} MatchSplits(same: (char, char) -> bool, target: string, s: string) returns (parts: seq<string>)
    requires MatchesItems(same, ItemsOf(target), s)
    ensures Splits(same, target, parts, s)
    decreases |target|, |s|
  {
    if target == "" {
      parts := [];
    } else {
      var items, rest := ItemsOf(target), ItemsOf(target[1..]);
      assert items[1..] == rest;
      hide Splits;
      if IsWild(target[0]) {
        if MatchesItems(same, rest, s) {
          var found := MatchSplits(same, target[1..], s);
          SplitsLonger(same, target, "", found, s);
          parts := [""] + found;
          assert "" + s == s;
        } else {
          var found := MatchSplits(same, target, s[1..]);
          parts := WidenFirst(same, target, found, s);
        }
      } else {
        var found := MatchSplits(same, target[1..], s[1..]);
        SplitsLonger(same, target, [s[0]], found, s[1..]);
        parts := [[s[0]]] + found;
        assert [s[0]] + s[1..] == s;
      }
    }
  }

  /** A wildcard's part takes one more character. */
  lemma WidenFirst(same: (char, char) -> bool, target: string, parts: seq<string>, s: string) returns (wider: seq<string>)
    requires target != "" && IsWild(target[0]) && s != "" && s[0] != '\n' && Splits(same, target, parts, s[1..])
    ensures Splits(same, target, wider, s)
  {
    var part := [s[0]] + parts[0];
    wider := [part] + parts[1..];
    assert PartFits(same, target[0], parts[0]);
    assert wider[1..] == parts[1..];
    JoinFirst(parts);
    JoinFirst(wider);
    assert Join(wider, "") == [s[0]] + Join(parts, "") == s;
  }

  /** Targets for all accounts, or for none in particular, apply to every account. Any other target with a wildcard,
      and plain characters beside it, applies to exactly the accounts that fall into parts fitting it, as long as
      the library accepts its pattern; every target without wildcards, and one whose pattern is refused, to
      exactly those that equal it. */
  lemma WildcardScope(lib: FilterEval.Libraries, same: (char, char) -> bool, rule: NsqlAst.FilterRule, account: string)
    requires ReadsItems(lib, same) && FoldsAscii(same)
    requires var t := rule.targetAccount; PlainGlob(t) || !HasWildcard(t) || lib.compile(Anchored(Wildcards(t))).None?
    ensures var t := rule.targetAccount;
            MatchesAccount(lib, rule, account) <==>
              || t in ["*", "%", ""]
              || if HasWildcard(t) && lib.compile(Anchored(Wildcards(t))).Some? then GlobFits(same, t, account)
                 else SameIgnoreCase(t, account)
  {
    var t := rule.targetAccount;
    if HasWildcard(t) && lib.compile(Anchored(Wildcards(t))).Some? {
      PatternScope(lib, same, t, account);
      if SameIgnoreCase(t, account) { EqualFits(same, t, account); }
    }
    hide HasWildcard, SameIgnoreCase, GlobFits, ReadsItems, FoldsAscii;
  }

  /** The compiled pattern of a plain target matches the accounts that fit it. */
  lemma PatternScope(lib: FilterEval.Libraries, same: (char, char) -> bool, t: string, account: string)
    requires ReadsItems(lib, same) && PlainGlob(t) && lib.compile(Anchored(Wildcards(t))).Some?
    ensures lib.compile(Anchored(Wildcards(t))).value.isMatch(account) <==> GlobFits(same, t, account)
  {
    TargetSpelled(t);
    PlainItems(t);
    var items := ItemsOf(t);
    assert lib.compile(Anchored(ItemsText(items))).Some?;
    if MatchesItems(same, items, account) {
      var parts := MatchSplits(same, t, account);
    } else if GlobFits(same, t, account) {
      var parts :| Splits(same, t, parts, account);
      SplitMatches(same, t, parts, account);
    }
  }

  lemma {:induction false} EqualFits(same: (char, char) -> bool, t: string, s: string)
    requires FoldsAscii(same) && SameIgnoreCase(t, s)
    ensures GlobFits(same, t, s)
  {
    var parts := Singles(s);
    forall i | 0 <= i < |t|
      ensures PartFits(same, t[i], parts[i])
    {
      assert EqIgnoreCase(t[i], s[i]);
    }
    assert Splits(same, t, parts, s);
  }

  function Singles(s: string): (parts: seq<string>)
    ensures |parts| == |s| && Join(parts, "") == s && forall i | 0 <= i < |s| :: parts[i] == [s[i]]
  {
    if s == "" then [] else
      var rest := Singles(s[1..]);
      JoinFirst([[s[0]]] + rest);
      assert ([[s[0]]] + rest)[1..] == rest;
      [[s[0]]] + rest
  }

  // ---------------------------------------------------------------- targets in parts

  lemma {:induction false} JoinConcat(a: seq<string>, b: seq<string>)
    ensures Join(a + b, "") == Join(a, "") + Join(b, "")
  {
    if a == [] {
      assert a + b == b;
    } else {
      assert (a + b)[1..] == a[1..] + b;
      JoinFirst(a);
      JoinFirst(a + b);
      JoinConcat(a[1..], b);
    }
  }

  /** A target in two halves fits the accounts that fall into two halves fitting them. */
  lemma GlobConcat(same: (char, char) -> bool, a: string, b: string, s: string)
    ensures GlobFits(same, a + b, s) <==> exists i | 0 <= i <= |s| :: GlobFits(same, a, s[..i]) && GlobFits(same, b, s[i..])
  {
    if GlobFits(same, a + b, s) {
      var parts :| Splits(same, a + b, parts, s);
      var i := SplitsCut(same, a, b, parts, s);
    }
    forall i | 0 <= i <= |s| && GlobFits(same, a, s[..i]) && GlobFits(same, b, s[i..])
      ensures GlobFits(same, a + b, s)
    {
      var front :| Splits(same, a, front, s[..i]);
      var back :| Splits(same, b, back, s[i..]);
      assert s[..i] + s[i..] == s;
      SplitsJoin(same, a, b, front, back, s[..i], s[i..]);
    }
  }

  lemma SplitsCut(same: (char, char) -> bool, a: string, b: string, parts: seq<string>, s: string) returns (i: nat)
    requires Splits(same, a + b, parts, s)
    ensures i <= |s| && Splits(same, a, parts[..|a|], s[..i]) && Splits(same, b, parts[|a|..], s[i..])
  {
    var front, back := parts[..|a|], parts[|a|..];
    assert front + back == parts;
    JoinConcat(front, back);
    i := |Join(front, "")|;
    assert s[..i] == Join(front, "") && s[i..] == Join(back, "");
    assert forall k | 0 <= k < |b| :: (a + b)[|a| + k] == b[k] && parts[|a| + k] == back[k];
  }

  lemma SplitsJoin(same: (char, char) -> bool, a: string, b: string, front: seq<string>, back: seq<string>, s: string, t: string)
    requires Splits(same, a, front, s) && Splits(same, b, back, t)
    ensures Splits(same, a + b, front + back, s + t)
  {
    JoinConcat(front, back);
  }

  /** A target without wildcards fits character by character. */
  lemma {:induction false} FixedFits(same: (char, char) -> bool, t: string, s: string)
    requires !HasWildcard(t)
    ensures GlobFits(same, t, s) <==> |s| == |t| && forall i | 0 <= i < |t| :: OneFits(same, t[i], s[i])
  {
    if GlobFits(same, t, s) {
      var parts :| Splits(same, t, parts, s);
      forall i | 0 <= i < |t|
        ensures |parts[i]| == 1 && OneFits(same, t[i], parts[i][0])
      {
        assert PartFits(same, t[i], parts[i]) && t[i] in t;
      }
      SinglesOnly(parts);
    }
    if |s| == |t| && forall i | 0 <= i < |t| :: OneFits(same, t[i], s[i]) {
      assert forall i | 0 <= i < |t| :: t[i] in t && PartFits(same, t[i], Singles(s)[i]);
      assert Splits(same, t, Singles(s), s);
    }
  }

  lemma {:induction false} SinglesOnly(parts: seq<string>)
    requires forall i | 0 <= i < |parts| :: |parts[i]| == 1
    ensures |Join(parts, "")| == |parts| && forall i | 0 <= i < |parts| :: Join(parts, "")[i] == parts[i][0]
  {
    if parts == [] {
    } else {
      SinglesOnly(parts[1..]);
      JoinFirst(parts);
      assert forall i | 0 < i < |parts| :: parts[i] == parts[1..][i - 1];
    }
  }

  lemma WildFits(same: (char, char) -> bool, s: string)
    ensures GlobFits(same, "%", s) <==> '\n' !in s
  {
    assert Join([s], "") == s;
    if GlobFits(same, "%", s) {
      var parts :| Splits(same, "%", parts, s);
      assert parts[1..] == [] && PartFits(same, "%"[0], parts[0]);
      assert parts == [parts[0]];
    } else if '\n' !in s {
      assert PartFits(same, "%"[0], [s][0]);
      assert Splits(same, "%", [s], s);
    }
  }

  /** A target of one leading wildcard applies to the accounts that end in the rest of it, where a dot stands
      for any character. */
  lemma SuffixScope(lib: FilterEval.Libraries, same: (char, char) -> bool, rule: NsqlAst.FilterRule,
                    suffix: string, account: string)
    requires ReadsItems(lib, same) && FoldsAscii(same)
    requires rule.targetAccount == "%" + suffix && suffix != "" && PlainGlob(suffix) && !HasWildcard(suffix)
    requires lib.compile(Anchored(".*" + suffix)).Some?
    ensures MatchesAccount(lib, rule, account) <==>
              && |suffix| <= |account|
              && '\n' !in account[..|account| - |suffix|]
              && forall i | 0 <= i < |suffix| :: OneFits(same, suffix[i], account[|account| - |suffix| + i])
  {
    hide MatchesAccount, ReadsItems, GlobFits, FoldsAscii;
    var t := "%" + suffix;
    PlainTarget(suffix);
    WildcardScope(lib, same, rule, account);
    GlobConcat(same, "%", suffix, account);
    forall i | 0 <= i <= |account|
      ensures GlobFits(same, "%", account[..i]) <==> '\n' !in account[..i]
      ensures GlobFits(same, suffix, account[i..]) <==>
                |account| - i == |suffix| && forall k | 0 <= k < |suffix| :: OneFits(same, suffix[k], account[i..][k])
    {
      WildFits(same, account[..i]);
      FixedFits(same, suffix, account[i..]);
    }
    if |suffix| <= |account| {
      var i := |account| - |suffix|;
      assert forall k | 0 <= k < |suffix| :: account[i..][k] == account[i + k];
    }
  }

  lemma PlainTarget(suffix: string)
    requires suffix != "" && PlainGlob(suffix) && !HasWildcard(suffix)
    ensures var t := "%" + suffix;
            PlainGlob(t) && HasWildcard(t) && t !in ["*", "%"] && Wildcards(t) == ".*" + suffix
  {
    var t := "%" + suffix;
    assert t[0] == '%' && t[1..] == suffix;
    assert forall i | 0 < i < |t| :: t[i] == suffix[i - 1];
    WildcardsNone(suffix);
  }

  lemma {:induction false} WildcardsNone(s: string)
    requires !HasWildcard(s)
    ensures Wildcards(s) == s
  {
    if s == "" {
    } else {
      assert s[0] in s;
      WildcardsNone(s[1..]);
    }
  }

  /** The account ends in the text, ASCII case aside. */
  predicate EndsIn(account: string, suffix: string) {
    |suffix| <= |account| && SameIgnoreCase(account[|account| - |suffix|..], suffix)
  }

  /** For ASCII text on one line, `%` and a suffix apply to every account that ends in the suffix, and to another
      one exactly when that differs from such an account at dots of the suffix alone. */
  lemma SuffixIsAlmostExact(lib: FilterEval.Libraries, same: (char, char) -> bool, rule: NsqlAst.FilterRule,
                            suffix: string, account: string)
    requires ReadsItems(lib, same) && FoldsAscii(same) && AllAscii(suffix) && AllAscii(account) && '\n' !in account
    requires rule.targetAccount == "%" + suffix && suffix != "" && PlainGlob(suffix) && !HasWildcard(suffix)
    requires lib.compile(Anchored(".*" + suffix)).Some?
    ensures EndsIn(account, suffix) ==> MatchesAccount(lib, rule, account)
    ensures MatchesAccount(lib, rule, account) && !EndsIn(account, suffix) <==>
              && |suffix| <= |account|
              && var tail := account[|account| - |suffix|..];
                 && (forall i | 0 <= i < |suffix| :: suffix[i] == '.' || EqIgnoreCase(tail[i], suffix[i]))
                 && exists i | 0 <= i < |suffix| :: suffix[i] == '.' && tail[i] != '.'
  {
    SuffixScope(lib, same, rule, suffix, account);
    hide MatchesAccount, ReadsItems, SameIgnoreCase, FoldsAscii, PlainGlob, HasWildcard, OneFits, EqIgnoreCase;
    if |suffix| <= |account| {
      var n := |account| - |suffix|;
      NoNewlineInParts(account, n);
      assert forall i | 0 <= i < |suffix| :: account[n..][i] == account[n + i];
      TailFits(same, suffix, account[n..]);
    }
  }

  lemma NoNewlineInParts(s: string, n: nat)
    requires n <= |s| && '\n' !in s && AllAscii(s)
    ensures '\n' !in s[..n] && '\n' !in s[n..] && AllAscii(s[n..])
  {
  }

  /** An ASCII text of the suffix's length on one line: which fit, and which of these are not the suffix. */
  lemma TailFits(same: (char, char) -> bool, suffix: string, tail: string)
    requires FoldsAscii(same) && AllAscii(suffix) && AllAscii(tail) && '\n' !in tail && |tail| == |suffix|
    ensures forall i | 0 <= i < |suffix| :: OneFits(same, suffix[i], tail[i]) <==> suffix[i] == '.' || EqIgnoreCase(tail[i], suffix[i])
    ensures SameIgnoreCase(tail, suffix) <==>
              && (forall i | 0 <= i < |suffix| :: OneFits(same, suffix[i], tail[i]))
              && forall i | 0 <= i < |suffix| :: suffix[i] == '.' ==> tail[i] == '.'
  {
    forall i | 0 <= i < |suffix|
      ensures OneFits(same, suffix[i], tail[i]) <==> suffix[i] == '.' || EqIgnoreCase(tail[i], suffix[i])
      ensures suffix[i] == '.' ==> (EqIgnoreCase(tail[i], suffix[i]) <==> tail[i] == '.')
    {
      assert tail[i] in tail;
    }
    hide OneFits, EqIgnoreCase, FoldsAscii;
  }

  lemma DomainExample()
    ensures var suffix := "@kof22.com"; PlainGlob(suffix) && !HasWildcard(suffix) && "%@kof22.com" == "%" + suffix
    ensures var suffix, account := "@kof22.com", "alice@kof22xcom";
            forall i | 0 <= i < |suffix| :: account[5 + i] != '\n' && (suffix[i] == '.' || suffix[i] == account[5 + i])
  {
  }

  /** The dot of a domain is not escaped: a rule for `%@kof22.com` also applies to an account of another domain. */
  lemma DotIsAnyCharacter(lib: FilterEval.Libraries, same: (char, char) -> bool, rule: NsqlAst.FilterRule)
    requires ReadsItems(lib, same) && FoldsAscii(same)
    requires rule.targetAccount == "%@kof22.com" && lib.compile(Anchored(".*" + "@kof22.com")).Some?
    ensures MatchesAccount(lib, rule, "alice@kof22xcom")
  {
    var suffix, account := "@kof22.com", "alice@kof22xcom";
    assert |account| - |suffix| == 5 && '\n' !in account[..5];
    hide *;
    DomainExample();
    forall i | 0 <= i < |suffix|
      ensures OneFits(same, suffix[i], account[5 + i])
    {
      DotOrSame(same, suffix[i], account[5 + i]);
    }
    SuffixScope(lib, same, rule, suffix, account);
  }

  lemma DotOrSame(same: (char, char) -> bool, k: char, c: char)
    requires FoldsAscii(same) && c != '\n' && (k == '.' || k == c)
    ensures OneFits(same, k, c)
  {
    assert EqIgnoreCase(c, c);
  }
}
