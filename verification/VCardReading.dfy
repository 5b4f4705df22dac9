/** What the vCard parser makes of any property line, by the line's text: its name in any case, its parameters in any
    number and order, its value. */
module VCardReading {
  import opened Wrappers
  import opened Text
  import opened VCard

  // ---------------------------------------------------------------- the parts of a line

  /** The line is `NAME;PARAM;...:VALUE`, whitespace around it aside; neither colons nor semicolons stand in the name
      or in a parameter. */
  predicate IsLine(line: string, name: string, params: seq<string>, value: string) {
    && Trim(line) == Join([name] + params, ";") + ":" + value
    && forall p | p in [name] + params :: ':' !in p && ';' !in p
  }

  ghost predicate IsProperty(line: string, word: string) {
    exists name, params, value :: IsLine(line, name, params, value) && SameLetters(name, word)
  }

  lemma {:induction false} SplitJoined(parts: seq<string>, c: char)
    requires parts != [] && forall p | p in parts :: c !in p
    ensures SplitOn(Join(parts, [c]), c) == parts
  {
    assert parts[0] in parts;
    if |parts| == 1 {
      SplitOnNone(parts[0], c);
    } else {
      assert forall p | p in parts[1..] :: p in parts;
      SplitJoined(parts[1..], c);
      SplitOnFirst(parts[0], c, Join(parts[1..], [c]));
      assert parts == [parts[0]] + parts[1..];
    }
  }

  lemma {:induction false} JoinAvoids(parts: seq<string>, sep: string, c: char)
    requires c !in sep && forall p | p in parts :: c !in p
    ensures c !in Join(parts, sep)
  {
    if |parts| <= 1 {
      if parts != [] { assert parts[0] in parts; }
    } else {
      assert parts[0] in parts && forall p | p in parts[1..] :: p in parts;
      JoinAvoids(parts[1..], sep, c);
    }
  }

  lemma LineSplits(line: string, name: string, params: seq<string>, value: string)
    requires IsLine(line, name, params, value)
    ensures var prop := Join([name] + params, ";");
            && SplitOnce(Trim(line), ':') == Some((prop, value))
            && SplitOn(prop, ';') == [name] + params
  {
    hide Join;
    var prop := Join([name] + params, ";");
    JoinAvoids([name] + params, ";", ':');
    SplitOnFirst(prop, ':', value);
    assert prop + ":" + value == prop + [':'] + value && ";" == [';'];
    SplitJoined([name] + params, ';');
  }

  // ---------------------------------------------------------------- labels

  /** A TYPE parameter, in any case. */
  predicate IsType(param: string) { |param| >= 5 && SameLetters(param[..5], "TYPE=") }

  /** The first parameter that is one. */
  predicate IsFirstType(params: seq<string>, k: nat) {
    k < |params| && IsType(params[k]) && forall j | 0 <= j < k :: !IsType(params[j])
  }

  /** The label is the lowercased text behind `TYPE=` of the first parameter that starts so, and `other` exactly when
      none does. */
  ghost predicate IsLabel(params: seq<string>, text: string) {
    && (forall k: nat | IsFirstType(params, k) :: text == AsciiLower(params[k][5..]))
    && ((forall k | 0 <= k < |params| :: !IsType(params[k])) ==> text == "other")
  }

  lemma TypeParam(param: string)
    ensures TYPE_PARAM <= AsciiUpper(param) <==> IsType(param)
    ensures IsType(param) ==> AsciiLower(AsciiUpper(param)[5..]) == AsciiLower(param[5..])
  {
    UpperSpells(param, "TYPE=");
    if IsType(param) { assert AsciiUpper(param)[5..] == AsciiUpper(param[5..]); LowerOfUpper(param[5..]); }
  }

  lemma {:induction false} LabelIsFirst(params: seq<string>)
    ensures IsLabel(params, LabelOf(params))
  {
    hide IsType, AsciiUpper, AsciiLower;
    OtherIsLower();
    if params == [] {
    } else {
      TypeParam(params[0]);
      LabelIsFirst(params[1..]);
      assert forall k | 0 < k < |params| :: params[k] == params[1..][k - 1];
      forall k: nat | IsFirstType(params, k) && k > 0
        ensures IsFirstType(params[1..], k - 1)
      {
      }
    }
  }

  lemma OtherIsLower()
    ensures AsciiLower("other") == "other"
  {
  }

  // ---------------------------------------------------------------- what each property does

  /** The properties the parser knows. */
  predicate IsKnown(word: string) { word in {"FN", "N", "ORG", "TITLE", "EMAIL", "TEL"} }

  lemma NotEnvelope(line: string, name: string, params: seq<string>, value: string, word: string)
    requires IsLine(line, name, params, value) && SameLetters(name, word)
    requires IsKnown(word)
    ensures !IsEnvelope(AsciiUpper(Trim(line))) && Trim(line) != "" && AsciiUpper(name) == word
  {
    UpperSpells(name, word);
    JoinStarts(name, params);
    var text := Trim(line);
    assert text[..|name|] == name;
    assert AsciiUpper(text)[..|name|] == AsciiUpper(name);
    assert |text| > |name| && (text[|name|] == ';' || text[|name|] == ':');
    assert AsciiUpper(text)[|name|] == text[|name|];
    hide AsciiUpper, Trim, Join;
    NoEnvelopeStart(AsciiUpper(text), word);
  }

  lemma NoEnvelopeStart(upper: string, word: string)
    requires IsKnown(word)
    requires |upper| > |word| && upper[..|word|] == word && (upper[|word|] == ';' || upper[|word|] == ':')
    ensures !IsEnvelope(upper)
  {
    assert upper[0] == word[0];
  }

  lemma JoinStarts(name: string, params: seq<string>)
    ensures var prop := Join([name] + params, ";");
            |name| <= |prop| && prop[..|name|] == name && (|prop| > |name| ==> prop[|name|] == ';')
  {
    var parts := [name] + params;
    if params != [] { assert parts[1..] == params; }
  }

  /** A property line sets, replaces or adds exactly what its name says, in whatever case the name and however many its
      parameters. */
  lemma PropertyRead(f: Fields, line: string, name: string, params: seq<string>, value: string, text: string)
    requires IsLine(line, name, params, value) && IsLabel(params, text)
    ensures SameLetters(name, "FN") ==> ParseLine(f, line) == f.(displayName := Some(Trim(value)))
    ensures SameLetters(name, "ORG") ==> ParseLine(f, line) == f.(organization := Some(Trim(value)))
    ensures SameLetters(name, "TITLE") ==> ParseLine(f, line) == f.(jobTitle := Some(Trim(value)))
    ensures SameLetters(name, "EMAIL") ==>
              ParseLine(f, line) == f.(emails := f.emails + [ContactPoint(Trim(value), text, |f.emails| == 0)])
    ensures SameLetters(name, "TEL") ==>
              ParseLine(f, line) == f.(phones := f.phones + [ContactPoint(Trim(value), text, |f.phones| == 0)])
  {
    LineSplits(line, name, params, value);
    LabelIsFirst(params);
    LabelOnce(params, text, LabelOf(params));
    assert ([name] + params)[1..] == params;
    hide IsLine, IsLabel, Trim, Join, SplitOn, SplitOnce, IsEnvelope, LabelOf, AsciiUpper, SameLetters;
    if SameLetters(name, "FN") { NotEnvelope(line, name, params, value, "FN"); }
    if SameLetters(name, "ORG") { NotEnvelope(line, name, params, value, "ORG"); }
    if SameLetters(name, "TITLE") { NotEnvelope(line, name, params, value, "TITLE"); }
    if SameLetters(name, "EMAIL") { NotEnvelope(line, name, params, value, "EMAIL"); }
    if SameLetters(name, "TEL") { NotEnvelope(line, name, params, value, "TEL"); }
  }

  /** An N line holds the family name, then the given name, then parts nobody reads; a blank part leaves the field as
      it was. */
  lemma NameRead(f: Fields, line: string, name: string, params: seq<string>, parts: seq<string>)
    requires parts != [] && IsLine(line, name, params, Join(parts, ";")) && SameLetters(name, "N")
    requires forall p | p in parts :: ';' !in p
    ensures ParseLine(f, line) ==
            f.(familyName := if Trim(parts[0]) != "" then Some(Trim(parts[0])) else f.familyName,
               givenName := if |parts| > 1 && Trim(parts[1]) != "" then Some(Trim(parts[1])) else f.givenName)
  {
    LineSplits(line, name, params, Join(parts, ";"));
    SplitJoined(parts, ';');
    assert ";" == [';'];
    assert ([name] + params)[0] == name;
    NotEnvelope(line, name, params, Join(parts, ";"), "N");
    hide *;
    KnownLine(f, line, Join([name] + params, ";"), Join(parts, ";"));
    NameAssigned(f, Join([name] + params, ";"), Join(parts, ";"), parts);
  }

  lemma KnownLine(f: Fields, line: string, prop: string, value: string)
    requires Trim(line) != "" && !IsEnvelope(AsciiUpper(Trim(line))) && SplitOnce(Trim(line), ':') == Some((prop, value))
    ensures ParseLine(f, line) == Assign(f, prop, value)
  {
    hide Trim, IsEnvelope, AsciiUpper, SplitOnce, Assign;
  }

  lemma NameAssigned(f: Fields, prop: string, value: string, parts: seq<string>)
    requires AsciiUpper(SplitOn(prop, ';')[0]) == "N" && SplitOn(value, ';') == parts && parts != []
    ensures Assign(f, prop, value) ==
            f.(familyName := if Trim(parts[0]) != "" then Some(Trim(parts[0])) else f.familyName,
               givenName := if |parts| > 1 && Trim(parts[1]) != "" then Some(Trim(parts[1])) else f.givenName)
  {
    hide Trim, AsciiUpper, SplitOn, LabelOf;
  }

  /** Any other property, and a line without a colon, changes nothing. */
  lemma OtherLineRead(f: Fields, line: string)
    requires forall word | IsKnown(word) :: !IsProperty(line, word)
    ensures ParseLine(f, line) == f
  {
    var text := Trim(line);
    assert IsKnown("FN") && IsKnown("N") && IsKnown("ORG") && IsKnown("TITLE") && IsKnown("EMAIL") && IsKnown("TEL");
    if ':' in text {
      var name, params, value := LineParts(line);
      LineSplits(line, name, params, value);
      assert ([name] + params)[0] == name;
      hide *;
      OtherName(name);
      OtherAssigned(f, line, Join([name] + params, ";"), value, name);
    } else {
      hide IsEnvelope, AsciiUpper, IsProperty, Trim;
      NoColon(text);
    }
  }

  lemma OtherName(name: string)
    ensures AsciiUpper(name) == "FN" <==> SameLetters(name, "FN")
    ensures AsciiUpper(name) == "N" <==> SameLetters(name, "N")
    ensures AsciiUpper(name) == "ORG" <==> SameLetters(name, "ORG")
    ensures AsciiUpper(name) == "TITLE" <==> SameLetters(name, "TITLE")
    ensures AsciiUpper(name) == "EMAIL" <==> SameLetters(name, "EMAIL")
    ensures AsciiUpper(name) == "TEL" <==> SameLetters(name, "TEL")
  {
    UpperSpells(name, "FN");
    UpperSpells(name, "N");
    UpperSpells(name, "ORG");
    UpperSpells(name, "TITLE");
    UpperSpells(name, "EMAIL");
    UpperSpells(name, "TEL");
    hide AsciiUpper, SameLetters;
  }

  lemma OtherAssigned(f: Fields, line: string, prop: string, value: string, name: string)
    requires SplitOnce(Trim(line), ':') == Some((prop, value)) && SplitOn(prop, ';')[0] == name
    requires AsciiUpper(name) !in {"FN", "N", "ORG", "TITLE", "EMAIL", "TEL"}
    ensures ParseLine(f, line) == f
  {
    hide Trim, IsEnvelope, AsciiUpper, SplitOnce, SplitOn, LabelOf;
  }

  lemma NoColon(text: string)
    requires ':' !in text
    ensures SplitOnce(text, ':') == None
  {
  }

  /** Every line with a colon has such parts. */
  lemma LineParts(line: string) returns (name: string, params: seq<string>, value: string)
    requires ':' in Trim(line)
    ensures IsLine(line, name, params, value)
  {
    hide Trim;
    var text := Trim(line);
    var k := IndexOf(text, ':');
    assert k < |text|;
    var prop := text[..k];
    value := text[k + 1..];
    var parts := SplitOn(prop, ';');
    name, params := parts[0], parts[1..];
    assert [name] + params == parts;
    SplitOnParts(prop, ';');
    JoinedSplits(prop);
    assert text == prop + ":" + value;
    assert ':' !in prop;
  }

  lemma {:induction false} JoinedSplits(s: string)
    ensures Join(SplitOn(s, ';'), ";") == s
  {
    var k := IndexOf(s, ';');
    if k < |s| {
      JoinedSplits(s[k + 1..]);
      assert s == s[..k] + ";" + s[k + 1..];
      assert ([s[..k]] + SplitOn(s[k + 1..], ';'))[1..] == SplitOn(s[k + 1..], ';');
    }
  }

  lemma {:induction false} FirstType(params: seq<string>) returns (k: nat)
    ensures if k < |params| then IsFirstType(params, k) else forall j | 0 <= j < |params| :: !IsType(params[j])
  {
    hide IsType;
    k := 0;
    while k < |params| && !IsType(params[k])
      invariant k <= |params| && forall j | 0 <= j < k :: !IsType(params[j])
    {
      k := k + 1;
    }
  }

  /** A line has one label. */
  lemma LabelOnce(params: seq<string>, a: string, b: string)
    requires IsLabel(params, a) && IsLabel(params, b)
    ensures a == b
  {
    hide IsType, AsciiLower;
    var k := FirstType(params);
  }

  // ---------------------------------------------------------------- whole cards

  /** How many of the first `n` lines are such a property. */
  ghost function Count(lines: seq<string>, n: nat, word: string): nat
    requires n <= |lines|
  {
    if n == 0 then 0 else Count(lines, n - 1, word) + if IsProperty(lines[n - 1], word) then 1 else 0
  }

  lemma NameLineRead(f: Fields, line: string)
    requires IsProperty(line, "N")
    ensures var g := ParseLine(f, line); g == f.(familyName := g.familyName, givenName := g.givenName)
  {
    hide IsLine, SameLetters, ParseLine;
    var name, params, value :| IsLine(line, name, params, value) && SameLetters(name, "N");
    JoinedSplits(value);
    SplitOnParts(value, ';');
    NameRead(f, line, name, params, SplitOn(value, ';'));
  }

  lemma SomeLabel(params: seq<string>) returns (text: string)
    ensures IsLabel(params, text)
  {
    text := LabelOf(params);
    LabelIsFirst(params);
  }

  /** What one line does to the names and lists collected so far. */
  lemma LineStep(f: Fields, line: string)
    ensures var g := ParseLine(f, line);
            && (g.displayName.Some? <==> f.displayName.Some? || IsProperty(line, "FN"))
            && (!IsProperty(line, "FN") ==> g.displayName == f.displayName)
            && (if IsProperty(line, "EMAIL") then f.emails <= g.emails && |g.emails| == |f.emails| + 1 else g.emails == f.emails)
            && (if IsProperty(line, "TEL") then f.phones <= g.phones && |g.phones| == |f.phones| + 1 else g.phones == f.phones)
  {
    hide IsLine, SameLetters, ParseLine, IsLabel, IsKnown;
    OneWord(line);
    if word :| word in ["FN", "ORG", "TITLE", "EMAIL", "TEL"] && IsProperty(line, word) {
      var name, params, value :| IsLine(line, name, params, value) && SameLetters(name, word);
      var text := SomeLabel(params);
      PropertyRead(f, line, name, params, value, text);
    } else if IsProperty(line, "N") {
      NameLineRead(f, line);
    } else {
      KnownWords();
      OtherLineRead(f, line);
    }
  }

  lemma KnownWords()
    ensures forall word | IsKnown(word) :: word in ["FN", "N", "ORG", "TITLE", "EMAIL", "TEL"]
  {
  }

  lemma KnownIsUpper(word: string)
    requires word in ["FN", "N", "ORG", "TITLE", "EMAIL", "TEL"]
    ensures forall i | 0 <= i < |word| :: !IsAsciiLower(word[i])
  {
  }

  lemma SameName(line: string, v: string, w: string)
    requires v in ["FN", "N", "ORG", "TITLE", "EMAIL", "TEL"] && w in ["FN", "N", "ORG", "TITLE", "EMAIL", "TEL"]
    requires IsProperty(line, v) && IsProperty(line, w)
    ensures v == w
  {
    var name, params, value :| IsLine(line, name, params, value) && SameLetters(name, v);
    var name', params', value' :| IsLine(line, name', params', value') && SameLetters(name', w);
    hide IsLine, SameLetters, AsciiUpper;
    LineSplits(line, name, params, value);
    LineSplits(line, name', params', value');
    assert ([name] + params)[0] == name && ([name'] + params')[0] == name';
    KnownIsUpper(v);
    KnownIsUpper(w);
    UpperSpells(name, v);
    UpperSpells(name, w);
  }

  /** A line is at most one of the properties. */
  lemma OneWord(line: string)
    ensures forall v, w | v in ["FN", "N", "ORG", "TITLE", "EMAIL", "TEL"] && w in ["FN", "N", "ORG", "TITLE", "EMAIL", "TEL"]
                          && IsProperty(line, v) && IsProperty(line, w) :: v == w
  {
    hide IsProperty;
    forall v, w | v in ["FN", "N", "ORG", "TITLE", "EMAIL", "TEL"] && w in ["FN", "N", "ORG", "TITLE", "EMAIL", "TEL"]
                  && IsProperty(line, v) && IsProperty(line, w)
      ensures v == w
    {
      SameName(line, v, w);
    }
  }

  lemma {:induction false} ParseLinesSnoc(f: Fields, lines: seq<string>, line: string)
    ensures ParseLines(f, lines + [line]) == ParseLine(ParseLines(f, lines), line)
    decreases |lines|
  {
    hide ParseLine;
    if lines == [] {
      assert [] + [line] == [line];
    } else {
      assert (lines + [line])[1..] == lines[1..] + [line];
      ParseLinesSnoc(ParseLine(f, lines[0]), lines[1..], line);
    }
  }

  lemma Upto(lines: seq<string>, n: nat)
    requires n < |lines|
    ensures ParseLines(NO_FIELDS, lines[..n + 1]) == ParseLine(ParseLines(NO_FIELDS, lines[..n]), lines[n])
  {
    hide ParseLine, ParseLines;
    assert lines[..n + 1] == lines[..n] + [lines[n]];
    ParseLinesSnoc(NO_FIELDS, lines[..n], lines[n]);
  }

  /** There are as many entries as lines so far, and a name once a line gave one. */
  lemma {:induction false} Collected(lines: seq<string>, n: nat)
    requires n <= |lines|
    ensures var f := ParseLines(NO_FIELDS, lines[..n]);
            && |f.emails| == Count(lines, n, "EMAIL") && |f.phones| == Count(lines, n, "TEL")
            && (f.displayName.Some? <==> exists j :: 0 <= j < n && IsProperty(lines[j], "FN"))
  {
    hide IsProperty, ParseLine;
    if n == 0 {
    } else {
      Collected(lines, n - 1);
      Upto(lines, n - 1);
      LineStep(ParseLines(NO_FIELDS, lines[..n - 1]), lines[n - 1]);
    }
  }

  /** Later lines keep the entries, and the name unless one of them gives another. */
  lemma {:induction false} KeptBehind(lines: seq<string>, m: nat, n: nat)
    requires m <= n <= |lines|
    ensures var (f, g) := (ParseLines(NO_FIELDS, lines[..m]), ParseLines(NO_FIELDS, lines[..n]));
            && f.emails <= g.emails && f.phones <= g.phones
            && ((forall j | m <= j < n :: !IsProperty(lines[j], "FN")) ==> g.displayName == f.displayName)
    decreases n - m
  {
    hide IsProperty, ParseLine;
    if m == n {
    } else {
      KeptBehind(lines, m, n - 1);
      Upto(lines, n - 1);
      LineStep(ParseLines(NO_FIELDS, lines[..n - 1]), lines[n - 1]);
    }
  }

  predicate MarkerAt(raw: string, i: nat) { i + 11 <= |raw| && SameLetters(raw[i..i + 11], "BEGIN:VCARD") }

  /** The marker stands somewhere in the raw text, in any case. */
  predicate HasMarker(raw: string) { exists i | 0 <= i < |raw| :: MarkerAt(raw, i) }

  lemma MarkerFound(raw: string)
    ensures Contains(AsciiUpper(raw), "BEGIN:VCARD") <==> HasMarker(raw)
  {
    var upper := AsciiUpper(raw);
    forall i | 0 <= i <= |raw|
      ensures "BEGIN:VCARD" <= upper[i..] <==> MarkerAt(raw, i)
    {
      assert upper[i..] == AsciiUpper(raw[i..]);
      UpperSpells(raw[i..], "BEGIN:VCARD");
      if i + 11 <= |raw| { assert raw[i..][..11] == raw[i..i + 11]; }
    }
    hide SameLetters, AsciiUpper;
    assert forall i: nat | MarkerAt(raw, i) :: i < |raw|;
  }

  /** When parsing fails, and why: more than 1048576 bytes, no marker, or neither an FN nor an EMAIL line. */
  lemma CardOutcome(id: string, accountId: string, raw: string)
    ensures var (r, lines) := (Parse(id, accountId, raw), Lines(Unfold(raw)));
            && (r == Err(PayloadTooLarge) <==> Utf8Len(raw) > 1048576)
            && (r == Err(MissingBegin) <==> Utf8Len(raw) <= 1048576 && !HasMarker(raw))
            && (r.Ok? <==> Utf8Len(raw) <= 1048576 && HasMarker(raw) &&
                           exists j :: 0 <= j < |lines| && (IsProperty(lines[j], "FN") || IsProperty(lines[j], "EMAIL")))
            && (r.Ok? ==> r.value.id == id && r.value.accountId == Some(accountId))
  {
    hide IsProperty, HasMarker, Contains, ParseLines, AsciiUpper;
    MarkerFound(raw);
    var lines := Lines(Unfold(raw));
    assert lines[..|lines|] == lines;
    Collected(lines, |lines|);
    CountPositive(lines, |lines|, "EMAIL");
  }

  lemma {:induction false} CountPositive(lines: seq<string>, n: nat, word: string)
    requires n <= |lines|
    ensures Count(lines, n, word) > 0 <==> exists j :: 0 <= j < n && IsProperty(lines[j], word)
  {
    hide IsProperty;
    if n == 0 {
    } else {
      CountPositive(lines, n - 1, word);
    }
  }

  /** Each EMAIL or TEL line gives the entry of its rank: its value, the label its parameters ask for, primary exactly
      when first; and there are no others. */
  lemma EntryRead(id: string, accountId: string, raw: string, i: nat, name: string, params: seq<string>, value: string, text: string)
    requires Parse(id, accountId, raw).Ok? && i < |Lines(Unfold(raw))|
    requires IsLine(Lines(Unfold(raw))[i], name, params, value) && IsLabel(params, text)
    ensures var (c, lines) := (Parse(id, accountId, raw).value, Lines(Unfold(raw)));
            && |c.emails| == Count(lines, |lines|, "EMAIL") && |c.phones| == Count(lines, |lines|, "TEL")
            && (SameLetters(name, "EMAIL") ==>
                  var k := Count(lines, i, "EMAIL"); k < |c.emails| && c.emails[k] == ContactPoint(Trim(value), text, k == 0))
            && (SameLetters(name, "TEL") ==>
                  var k := Count(lines, i, "TEL"); k < |c.phones| && c.phones[k] == ContactPoint(Trim(value), text, k == 0))
  {
    hide IsProperty, IsLine, SameLetters, ParseLine, Contains, IsLabel, ParseLines, AsciiUpper;
    var lines := Lines(Unfold(raw));
    assert lines[..|lines|] == lines;
    Collected(lines, |lines|);
    Collected(lines, i);
    Upto(lines, i);
    PropertyRead(ParseLines(NO_FIELDS, lines[..i]), lines[i], name, params, value, text);
    KeptBehind(lines, i + 1, |lines|);
  }

  /** The display name is the value of the last FN line; in a card without one, the value of the first EMAIL line. */
  lemma DisplayNameRead(id: string, accountId: string, raw: string, i: nat, name: string, params: seq<string>, value: string)
    requires Parse(id, accountId, raw).Ok? && i < |Lines(Unfold(raw))|
    requires IsLine(Lines(Unfold(raw))[i], name, params, value)
    ensures var (c, lines) := (Parse(id, accountId, raw).value, Lines(Unfold(raw)));
            && (SameLetters(name, "FN") && (forall j | i < j < |lines| :: !IsProperty(lines[j], "FN")) ==> c.displayName == Trim(value))
            && ((SameLetters(name, "EMAIL") && Count(lines, i, "EMAIL") == 0 && forall j | 0 <= j < |lines| :: !IsProperty(lines[j], "FN"))
                ==> c.displayName == Trim(value))
  {
    hide IsProperty, IsLine, SameLetters, ParseLine, Contains, IsLabel, ParseLines, AsciiUpper;
    var lines := Lines(Unfold(raw));
    var text := SomeLabel(params);
    assert lines[..|lines|] == lines;
    Collected(lines, |lines|);
    Collected(lines, i);
    Upto(lines, i);
    PropertyRead(ParseLines(NO_FIELDS, lines[..i]), lines[i], name, params, value, text);
    KeptBehind(lines, i + 1, |lines|);
  }
}
