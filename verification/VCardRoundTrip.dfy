/** What a vCard keeps: printing then parsing a contact, and folding lines. */
module VCardRoundTrip {
  import opened Wrappers
  import opened Text
  import opened VCard

  // ---------------------------------------------------------------- physical lines

  /** Two line lists joined: the last line of one runs on into the first of the other. */
  function Glue(p: seq<string>, q: seq<string>): seq<string>
    requires p != [] && q != []
  {
    p[..|p| - 1] + [p[|p| - 1] + q[0]] + q[1..]
  }

  lemma {:induction false} PhysicalLinesConcat(a: string, b: string)
    requires !(a != "" && a[|a| - 1] == '\r' && b != "" && b[0] == '\n')
    ensures PhysicalLines(a + b) == Glue(PhysicalLines(a), PhysicalLines(b))
  {
    if a == "" {
      assert a + b == b;
      assert "" + PhysicalLines(b)[0] == PhysicalLines(b)[0];
      assert PhysicalLines(b) == [PhysicalLines(b)[0]] + PhysicalLines(b)[1..];
    } else if CRLF <= a {
      assert CRLF <= a + b && (a + b)[2..] == a[2..] + b;
      PhysicalLinesConcat(a[2..], b);
      GlueAfter("", PhysicalLines(a[2..]), PhysicalLines(b));
    } else {
      assert (a + b)[1..] == a[1..] + b;
      assert !(CRLF <= a + b) by {
        if |a| == 1 { assert (a + b)[1..] == b; } else { assert (a + b)[..2] == a[..2]; }
      }
      PhysicalLinesConcat(a[1..], b);
      if a[0] == '\n' {
        GlueAfter("", PhysicalLines(a[1..]), PhysicalLines(b));
      } else {
        GluePrepend(a[0], PhysicalLines(a[1..]), PhysicalLines(b));
      }
    }
  }

  lemma GlueAfter(first: string, p: seq<string>, q: seq<string>)
    requires p != [] && q != []
    ensures Glue([first] + p, q) == [first] + Glue(p, q)
  {
  }

  lemma GluePrepend(c: char, p: seq<string>, q: seq<string>)
    requires p != [] && q != []
    ensures Glue(Prepend(c, p), q) == Prepend(c, Glue(p, q))
  {
    if |p| == 1 {
      assert [c] + p[0] + q[0] == [c] + (p[0] + q[0]);
    }
  }

  lemma GlueEmpty(p: seq<string>, q: seq<string>)
    requires p != []
    ensures Glue(p, [""] + q) == p + q
  {
    assert p[|p| - 1] + "" == p[|p| - 1];
    assert p == p[..|p| - 1] + [p[|p| - 1]];
    assert ([""] + q)[1..] == q;
  }

  lemma PhysicalLinesAfterCrlf(a: string, b: string)
    ensures PhysicalLines(a + CRLF + b) == PhysicalLines(a) + PhysicalLines(b)
  {
    assert a + CRLF + b == a + (CRLF + b);
    PhysicalLinesConcat(a, CRLF + b);
    assert CRLF <= CRLF + b && (CRLF + b)[2..] == b;
    GlueEmpty(PhysicalLines(a), PhysicalLines(b));
  }

  lemma {:induction false} PhysicalLinesSingle(s: string)
    requires '\n' !in s
    ensures PhysicalLines(s) == [s]
  {
    if s == "" {
    } else {
      assert forall i | 0 <= i < |s| :: s[i] in s;
      assert s[0] in s;
      PhysicalLinesSingle(s[1..]);
      assert [s[0]] + s[1..] == s;
    }
  }

  lemma {:induction false} UnfoldFromConcat(result: string, p: seq<string>, q: seq<string>)
    ensures UnfoldFrom(result, p + q) == UnfoldFrom(UnfoldFrom(result, p), q)
    decreases |p|
  {
    if p == [] {
      assert p + q == q;
    } else {
      assert (p + q)[1..] == p[1..] + q;
      UnfoldFromConcat(Extend(result, p[0]), p[1..], q);
    }
  }

  // ---------------------------------------------------------------- fold insensitivity

  /** `t` is `s` with a fold inserted inside a line, at a point not followed by whitespace. */
  ghost predicate FoldedOnce(s: string, t: string) {
    exists a, b, eol, w | s == a + b && t == a + eol + w + b :: IsFoldPoint(a, b) && IsFold(a, eol, w)
  }

  /** A fold is the end of a line, CRLF or a bare LF, and a run of spaces and tabs. */
  predicate IsFold(a: string, eol: string, w: string) {
    (eol == CRLF || (eol == "\n" && (a == "" || a[|a| - 1] != '\r'))) && IsRun(w)
  }

  predicate IsFoldPoint(a: string, b: string) {
    && a != "" && a[|a| - 1] != '\n'
    && (b == "" || !IsWhitespace(b[0]))
  }

  /** One inserted fold leaves the unfolded text unchanged, in any text at all. */
  lemma FoldKeepsText(a: string, b: string, eol: string, w: string)
    requires IsFoldPoint(a, b) && IsFold(a, eol, w)
    ensures Unfold(a + eol + w + b) == Unfold(a + b)
  {
    hide PhysicalLines, UnfoldFrom, Glue;
    var p, q := PhysicalLines(a), PhysicalLines(b);
    FirstLineStart(b);
    LastLineNonEmpty(a);
    PhysicalLinesConcat(a, b);
    assert a + eol + (w + b) == a + eol + w + b;
    PhysicalLinesAfterEol(a, eol, w + b);
    PhysicalLinesSingle(w);
    PhysicalLinesConcat(w, b);
    FoldInLines(p, q, w);
  }

  predicate IsRun(w: string) { w != "" && forall i | 0 <= i < |w| :: w[i] == ' ' || w[i] == '\t' }

  lemma {:induction false} TrimRun(w: string, next: string)
    requires (forall i | 0 <= i < |w| :: w[i] == ' ' || w[i] == '\t') && (next == "" || !IsWhitespace(next[0]))
    ensures TrimStart(w + next) == next
  {
    if w == "" {
      assert w + next == next;
    } else {
      assert (w + next)[1..] == w[1..] + next;
      TrimRun(w[1..], next);
    }
  }

  lemma PhysicalLinesAfterEol(a: string, eol: string, b: string)
    requires eol == CRLF || (eol == "\n" && (a == "" || a[|a| - 1] != '\r'))
    ensures PhysicalLines(a + eol + b) == PhysicalLines(a) + PhysicalLines(b)
  {
    if eol == CRLF {
      PhysicalLinesAfterCrlf(a, b);
    } else {
      assert a + eol + b == a + (eol + b);
      PhysicalLinesConcat(a, eol + b);
      assert (eol + b)[1..] == b && (eol + b)[0] == '\n' != CRLF[0];
      GlueEmpty(PhysicalLines(a), PhysicalLines(b));
    }
  }

  /** The same fold, on line lists. */
  lemma FoldInLines(p: seq<string>, q: seq<string>, w: string)
    requires p != [] && q != [] && p[|p| - 1] != "" && (q[0] == "" || !IsWhitespace(q[0][0]))
    requires IsRun(w)
    ensures UnfoldFrom("", p + Glue([w], q)) == UnfoldFrom("", Glue(p, q))
  {
    hide UnfoldFrom, Extend, Glue;
    var early, last, rest := p[..|p| - 1], p[|p| - 1], q[1..];
    var before := UnfoldFrom("", early);
    GlueSplit(p, q);
    GlueSplit([w], q);
    UnfoldFromConcat("", early, [last + q[0]] + rest);
    UnfoldStep(before, last + q[0], rest);
    FoldTail(before, last, w, q[0], rest);
    SplitLast(p, Glue([w], q));
    UnfoldFromConcat("", early, [last] + Glue([w], q));
  }

  lemma SplitLast(p: seq<string>, q: seq<string>)
    requires p != []
    ensures p + q == p[..|p| - 1] + ([p[|p| - 1]] + q)
  {
  }

  lemma FoldTail(before: string, last: string, w: string, next: string, rest: seq<string>)
    requires last != "" && (next == "" || !IsWhitespace(next[0])) && IsRun(w)
    ensures UnfoldFrom(before, [last] + ([w + next] + rest)) == UnfoldFrom(Extend(before, last + next), rest)
  {
    hide UnfoldFrom, Extend;
    UnfoldStep(before, last, [w + next] + rest);
    UnfoldStep(Extend(before, last), w + next, rest);
    ExtendTwice(before, last, w, next);
  }

  lemma GlueSplit(p: seq<string>, q: seq<string>)
    requires p != [] && q != []
    ensures Glue(p, q) == p[..|p| - 1] + ([p[|p| - 1] + q[0]] + q[1..])
    ensures |p| == 1 ==> Glue(p, q) == [p[0] + q[0]] + q[1..]
  {
  }

  lemma UnfoldStep(result: string, line: string, rest: seq<string>)
    ensures UnfoldFrom(result, [line] + rest) == UnfoldFrom(Extend(result, line), rest)
  {
    assert ([line] + rest)[1..] == rest;
  }

  lemma ExtendTwice(before: string, last: string, w: string, next: string)
    requires last != "" && (next == "" || !IsWhitespace(next[0])) && IsRun(w)
    ensures Extend(Extend(before, last), w + next) == Extend(before, last + next)
  {
    TrimRun(w, next);
    if IsContinuation(last) && before != "" {
      TrimStartConcat(last, next);
      assert before + TrimStart(last) + next == before + (TrimStart(last) + next);
    } else {
      var sep := if before == "" then "" else before + "\n";
      assert sep + last + next == sep + (last + next);
    }
  }

  lemma FirstLineStart(b: string)
    requires b == "" || !IsWhitespace(b[0])
    ensures PhysicalLines(b)[0] == "" || !IsWhitespace(PhysicalLines(b)[0][0])
  {
  }

  lemma {:induction false} LastLineNonEmpty(a: string)
    requires a != "" && a[|a| - 1] != '\n'
    ensures PhysicalLines(a)[|PhysicalLines(a)| - 1] != ""
  {
    var p := PhysicalLines(a);
    if CRLF <= a {
      LastLineNonEmpty(a[2..]);
    } else if a[0] == '\n' {
      LastLineNonEmpty(a[1..]);
    } else if |a| > 1 {
      LastLineNonEmpty(a[1..]);
    }
  }

  lemma FoldedKeepsText(s: string, t: string)
    requires FoldedOnce(s, t)
    ensures Unfold(t) == Unfold(s)
  {
    hide Unfold, IsFold, IsFoldPoint;
    var a, b, eol, w :| s == a + b && t == a + eol + w + b && IsFoldPoint(a, b) && IsFold(a, eol, w);
    FoldKeepsText(a, b, eol, w);
  }

  /** Any number of folds, inserted one after the other. */
  lemma {:induction false} FoldsKeepText(texts: seq<string>)
    requires texts != []
    requires forall i | 0 <= i < |texts| - 1 :: FoldedOnce(texts[i], texts[i + 1])
    ensures Unfold(texts[|texts| - 1]) == Unfold(texts[0])
  {
    hide FoldedOnce, Unfold;
    if |texts| <= 1 {
    } else {
      FoldedKeepsText(texts[0], texts[1]);
      var later := texts[1..];
      forall i | 0 <= i < |later| - 1
        ensures FoldedOnce(later[i], later[i + 1])
      {
        assert FoldedOnce(texts[i + 1], texts[i + 1 + 1]);
      }
      FoldsKeepText(later);
    }
  }

  /** The two checks made on the raw text, before it is unfolded. */
  predicate PassesRawChecks(raw: string) {
    Utf8Len(raw) <= MAX_PAYLOAD_BYTES && Contains(AsciiUpper(raw), "BEGIN:VCARD")
  }

  /** Folding changes the outcome of parsing only through the checks made on the raw text: a folded vCard
      parses to the same contact exactly when it still passes them. */
  lemma FoldInsensitive(id: string, account: string, texts: seq<string>)
    requires texts != []
    requires forall i | 0 <= i < |texts| - 1 :: FoldedOnce(texts[i], texts[i + 1])
    requires Parse(id, account, texts[0]).Ok?
    ensures Parse(id, account, texts[|texts| - 1]) == Parse(id, account, texts[0]) <==> PassesRawChecks(texts[|texts| - 1])
  {
    FoldsKeepText(texts);
  }

  /** The envelope check is not itself fold insensitive: a fold inside the first line hides the marker. */
  lemma FoldedEnvelopeIsRejected(s: string, t: string)
    requires s == "BEGIN:VCARD" + CRLF + "FN:A" && t == "BEGIN:V" + CRLF + " CARD" + CRLF + "FN:A"
    ensures FoldedOnce(s, t) && !Contains(AsciiUpper(t), "BEGIN:VCARD") && Contains(AsciiUpper(s), "BEGIN:VCARD")
  {
    hide AsciiUpper;
    var a, b := "BEGIN:V", "CARD" + CRLF + "FN:A";
    assert s == a + b && t == a + CRLF + " " + b && IsFoldPoint(a, b) && IsFold(a, CRLF, " ");
    MarkerAtStart(s);
    MarkerCut(t);
  }

  lemma MarkerAtStart(s: string)
    requires "BEGIN:VCARD" <= s
    ensures Contains(AsciiUpper(s), "BEGIN:VCARD")
  {
    assert AsciiUpper(s[..11]) == AsciiUpper(s)[..11];
    assert AsciiUpper("BEGIN:VCARD") == "BEGIN:VCARD";
    assert "BEGIN:VCARD" <= AsciiUpper(s)[0..];
  }

  lemma MarkerCut(t: string)
    requires t == "BEGIN:V" + CRLF + " CARD" + CRLF + "FN:A"
    ensures !Contains(AsciiUpper(t), "BEGIN:VCARD")
  {
    var upper := AsciiUpper(t);
    assert upper == "BEGIN:V" + CRLF + " CARD" + CRLF + "FN:A";
    forall i | 0 <= i <= |upper|
      ensures !("BEGIN:VCARD" <= upper[i..])
    {
      if i == 0 {
        assert upper[i..][7] == '\r';
      } else if i < |upper| {
        assert upper[i..][0] != 'B';
      }
    }
  }

  // ---------------------------------------------------------------- printed lines read back

  /** A line as the printer writes it. */
  predicate PlainLine(line: string) {
    line != "" && '\n' !in line && !IsContinuation(line) && line[|line| - 1] != '\r'
  }

  predicate PlainLines(lines: seq<string>) { forall i | 0 <= i < |lines| :: PlainLine(lines[i]) }

  lemma {:induction false} RenderedPhysicalLines(lines: seq<string>)
    requires PlainLines(lines)
    ensures PhysicalLines(Render(lines)) == lines + [""]
  {
    if lines == [] {
    } else {
      PhysicalLinesAfterCrlf(lines[0], Render(lines[1..]));
      PhysicalLinesSingle(lines[0]);
      RenderedPhysicalLines(lines[1..]);
      assert [lines[0]] + (lines[1..] + [""]) == lines + [""];
    }
  }

  /** Each line behind a line feed. */
  function Stacked(lines: seq<string>): string {
    if lines == [] then "" else "\n" + lines[0] + Stacked(lines[1..])
  }

  lemma {:induction false} UnfoldPlain(result: string, lines: seq<string>)
    requires PlainLines(lines) && result != ""
    ensures UnfoldFrom(result, lines + [""]) == result + Stacked(lines) + "\n"
    decreases |lines|
  {
    if lines == [] {
      assert UnfoldFrom(result, [""]) == UnfoldFrom(Extend(result, ""), [""][1..]);
      assert result + "\n" + "" == result + Stacked(lines) + "\n";
    } else {
      assert (lines + [""])[1..] == lines[1..] + [""];
      UnfoldPlain(result + "\n" + lines[0], lines[1..]);
      assert result + "\n" + lines[0] + Stacked(lines[1..]) == result + ("\n" + lines[0] + Stacked(lines[1..]));
    }
  }

  lemma UnfoldFirst(first: string, more: seq<string>)
    requires PlainLine(first)
    ensures first != "" && UnfoldFrom("", [first] + (more + [""])) == UnfoldFrom(first, more + [""])
  {
    assert ([first] + (more + [""]))[1..] == more + [""];
    assert Extend("", first) == "" + first == first;
  }

  lemma LinesHead(first: string, rest: string)
    requires PlainLine(first)
    ensures Lines(first + ['\n'] + rest) == [first] + Lines(rest)
  {
    var text := first + ['\n'] + rest;
    IndexOfConcat(first, '\n', rest);
    assert text[..|first|] == first && text[|first| + 1..] == rest;
  }

  lemma {:induction false} LinesOfStacked(first: string, lines: seq<string>)
    requires PlainLine(first) && PlainLines(lines)
    ensures Lines(first + Stacked(lines) + "\n") == [first] + lines
    decreases |lines|
  {
    if lines == [] {
      OnlyLine(first);
    } else {
      assert Stacked(lines) == "\n" + lines[0] + Stacked(lines[1..]);
      hide Lines, PlainLine, Stacked;
      StackedStep(first, lines[0], Stacked(lines[1..]));
      LinesHead(first, lines[0] + Stacked(lines[1..]) + "\n");
      LinesOfStacked(lines[0], lines[1..]);
      assert [lines[0]] + lines[1..] == lines;
    }
  }

  lemma OnlyLine(first: string)
    requires PlainLine(first)
    ensures Lines(first + Stacked([]) + "\n") == [first] + []
  {
    assert Stacked([]) == "" && Lines("") == [];
    hide Lines, PlainLine, Stacked;
    assert first + "" + "\n" == first + ['\n'] + "";
    LinesHead(first, "");
  }

  lemma StackedStep(first: string, next: string, rest: string)
    ensures first + ("\n" + next + rest) + "\n" == first + ['\n'] + (next + rest + "\n")
  {
  }

  /** The parser sees exactly the lines the printer wrote. */
  lemma RenderedLinesRead(lines: seq<string>)
    requires lines != [] && PlainLines(lines)
    ensures Lines(Unfold(Render(lines))) == lines
  {
    hide Lines, PhysicalLines, Render, Stacked, PlainLine, UnfoldFrom;
    RenderedPhysicalLines(lines);
    UnfoldFirst(lines[0], lines[1..]);
    assert [lines[0]] + (lines[1..] + [""]) == lines + [""];
    UnfoldPlain(lines[0], lines[1..]);
    assert [lines[0]] + lines[1..] == lines;
    LinesOfStacked(lines[0], lines[1..]);
  }

  // ---------------------------------------------------------------- which contacts round-trip

  /** A value that a vCard line can carry. */
  predicate PlainValue(s: string) { Trimmed(s) && '\n' !in s }

  predicate PlainOptional(s: Option<string>) { s.Some? ==> PlainValue(s.value) }

  /** A label survives the uppercasing of the printer and the lowercasing of the parser, and cannot be
      mistaken for the end of the parameter. */
  predicate StableLabel(u: Unicode, s: string) {
    && ':' !in s && ';' !in s && '\n' !in s
    && AsciiLower(AsciiUpper(u.Upper(s))) == s
  }

  predicate PlainNameParts(given: Option<string>, family: Option<string>) {
    || (given.None? && family.None?)
    || (given.Some? && family.Some? && PlainNamePart(given.value) && PlainNamePart(family.value))
  }

  predicate PlainNamePart(s: string) { PlainValue(s) && s != "" && ';' !in s }

  /** Every entry can be printed, and exactly the first one is marked primary. */
  predicate PlainPoints(u: Unicode, points: seq<ContactPoint>) {
    forall i | 0 <= i < |points| ::
      && PlainValue(points[i].value)
      && StableLabel(u, points[i].labelText)
      && points[i].isPrimary == (i == 0)
  }

  /** What a caller can check before printing. */
  predicate Printable(u: Unicode, c: Contact) {
    && PlainValue(c.displayName)
    && PlainNameParts(c.givenName, c.familyName)
    && PlainOptional(c.organization)
    && PlainOptional(c.jobTitle)
    && PlainPoints(u, c.emails)
    && PlainPoints(u, c.phones)
  }

  /** The parsed contact has the name, N, ORG and TITLE fields and the full email and phone lists of the
      one that was printed. */
  predicate Restores(p: Result<Contact, VCardError>, c: Contact) {
    && p.Ok?
    && p.value.displayName == c.displayName
    && p.value.givenName == c.givenName
    && p.value.familyName == c.familyName
    && p.value.organization == c.organization
    && p.value.jobTitle == c.jobTitle
    && p.value.emails == c.emails
    && p.value.phones == c.phones
  }

  /** Lowercase ASCII labels without a colon or semicolon are stable. */
  lemma LowercaseLabelIsStable(u: Unicode, s: string)
    requires u.Valid()
    requires forall c | c in s :: IsAscii(c) && !IsAsciiUpper(c) && c != ':' && c != ';' && c != '\n'
    ensures StableLabel(u, s)
  {
    assert forall i | 0 <= i < |s| :: s[i] in s;
    UpperAsciiPrefix(u, s, "");
    assert s + "" == s && AsciiUpper(s) + "" == AsciiUpper(s);
  }

  // ---------------------------------------------------------------- each line read back

  /** Uppercasing introduces no ASCII character other than letters. */
  lemma {:induction false} UpperAvoids(u: Unicode, s: string, c: char)
    requires u.Valid() && IsAscii(c) && !IsAsciiLetter(c) && c !in s
    ensures c !in u.Upper(s)
  {
    if s == "" {
    } else {
      assert s[0] in s;
      assert forall x | x in s[1..] :: x in s;
      UpperAvoids(u, s[1..], c);
      var head := u.upper(s[0]);
      if IsAscii(s[0]) {
        assert head == [UpperChar(s[0])];
      } else {
        assert forall i | 0 <= i < |head| :: IsAscii(head[i]) ==> IsAsciiUpper(head[i]);
      }
    }
  }

  /** A property line whose property part is not an envelope word is split at its first colon. */
  lemma ParsePropertyLine(f: Fields, prop: string, value: string)
    requires prop != "" && ':' !in prop && !IsWhitespace(prop[0]) && Trimmed(value)
    requires AsciiUpper(prop) != "BEGIN" && AsciiUpper(prop) != "END" && AsciiUpper(prop) != "VERSION"
    ensures ParseLine(f, prop + ":" + value) == Assign(f, prop, value)
    ensures Trim(value) == value
  {
    var line := prop + [':'] + value;
    assert line == prop + ":" + value;
    assert line[0] == prop[0] && line[|line| - 1] == (if value == "" then ':' else value[|value| - 1]);
    assert Trim(line) == line;
    SplitOnFirst(prop, ':', value);
    var upper := AsciiUpper(line);
    assert upper[..|prop|] == AsciiUpper(prop) && upper[|prop|] == ':';
    assert forall i | 0 <= i < |prop| :: prop[i] in prop;
    assert forall i | 0 <= i < |prop| :: upper[i] != ':';
    if IsEnvelope(upper) {
      EnvelopeColon(upper, |prop|);
    }
  }

  lemma EnvelopeColon(upper: string, k: nat)
    requires IsEnvelope(upper) && k < |upper| && upper[k] == ':' && forall i | 0 <= i < k :: upper[i] != ':'
    ensures upper[..k] == "BEGIN" || upper[..k] == "END" || upper[..k] == "VERSION"
  {
    if upper == "BEGIN:VCARD" {
      assert upper[5] == ':';
    } else if upper == "END:VCARD" {
      assert upper[3] == ':';
    } else {
      assert upper[7] == "VERSION:"[7] == ':';
      assert forall i | 0 <= i < 7 :: upper[i] == "VERSION:"[i];
      assert upper[..7] == "VERSION:"[..7] == "VERSION";
    }
  }

  /** A simple property has one segment and no parameters. */
  lemma SimpleProperty(prop: string)
    requires ';' !in prop
    ensures SplitOn(prop, ';')[0] == prop && SplitOn(prop, ';')[1..] == []
  {
    SplitOnNone(prop, ';');
  }

  lemma ParseNameLine(f: Fields, given: string, family: string)
    requires PlainNamePart(given) && PlainNamePart(family)
    ensures ParseLine(f, "N:" + family + ";" + given + ";;;") == f.(familyName := Some(family), givenName := Some(given))
  {
    hide ParseLine, Trim, SplitOn;
    var value := family + [';'] + (given + [';'] + ";;");
    assert "N" + ":" + value == "N:" + family + ";" + given + ";;;";
    assert value[0] == family[0] && value[|value| - 1] == ';';
    assert AsciiUpper("N") == "N";
    ParsePropertyLine(f, "N", value);
    SimpleProperty("N");
    SplitOnFirst(family, ';', given + [';'] + ";;");
    SplitOnFirst(given, ';', ";;");
    TrimIdentity(family);
    TrimIdentity(given);
  }

  lemma ParseFnLine(f: Fields, value: string)
    requires Trimmed(value)
    ensures ParseLine(f, "FN:" + value) == f.(displayName := Some(value))
  {
    hide ParseLine, Trim, SplitOn;
    assert "FN" + ":" + value == "FN:" + value;
    assert AsciiUpper("FN") == "FN";
    ParsePropertyLine(f, "FN", value);
    SimpleProperty("FN");
  }

  lemma ParseOrgLine(f: Fields, value: string)
    requires Trimmed(value)
    ensures ParseLine(f, "ORG:" + value) == f.(organization := Some(value))
  {
    hide ParseLine, Trim, SplitOn;
    assert "ORG" + ":" + value == "ORG:" + value;
    assert AsciiUpper("ORG") == "ORG";
    ParsePropertyLine(f, "ORG", value);
    SimpleProperty("ORG");
  }

  lemma ParseTitleLine(f: Fields, value: string)
    requires Trimmed(value)
    ensures ParseLine(f, "TITLE:" + value) == f.(jobTitle := Some(value))
  {
    hide ParseLine, Trim, SplitOn;
    assert "TITLE" + ":" + value == "TITLE:" + value;
    assert AsciiUpper("TITLE") == "TITLE";
    ParsePropertyLine(f, "TITLE", value);
    SimpleProperty("TITLE");
  }

  /** The label that a printed label is read back as. */
  function ReadLabel(u: Unicode, s: string): string { AsciiLower(AsciiUpper(u.Upper(s))) }

  lemma ParsePointLine(u: Unicode, f: Fields, property: string, p: ContactPoint)
    requires u.Valid() && (property == "EMAIL" || property == "TEL")
    requires Trimmed(p.value) && ':' !in p.labelText && ';' !in p.labelText
    ensures var read := ContactPoint(p.value, ReadLabel(u, p.labelText), (if property == "EMAIL" then f.emails else f.phones) == []);
            ParseLine(f, PointLine(u, property, p)) ==
            if property == "EMAIL" then f.(emails := f.emails + [read]) else f.(phones := f.phones + [read])
  {
    hide ParseLine, Trim, SplitOn, Assign, LabelOf, AsciiUpper, AsciiLower, Trimmed, Unicode.Upper, Unicode.Valid;
    var up := u.Upper(p.labelText);
    UpperAvoids(u, p.labelText, ':');
    UpperAvoids(u, p.labelText, ';');
    var param := "TYPE=" + up;
    var prop := property + [';'] + param;
    assert prop + ":" + p.value == PointLine(u, property, p);
    PointProperty(property, up);
    ParsePropertyLine(f, prop, p.value);
    SplitOnFirst(property, ';', param);
    SplitOnNone(param, ';');
    AssignPoint(f, property, prop, [param], p.value);
    ExtractPrinted(up);
  }

  lemma AssignPoint(f: Fields, property: string, prop: string, params: seq<string>, value: string)
    requires property == "EMAIL" || property == "TEL"
    requires SplitOn(prop, ';') == [property] + params
    ensures Assign(f, prop, value) ==
            if property == "EMAIL" then f.(emails := AddPoint(f.emails, value, params))
            else f.(phones := AddPoint(f.phones, value, params))
  {
    hide SplitOn, AddPoint;
    assert AsciiUpper(property) == property;
    assert ([property] + params)[1..] == params;
    if property == "EMAIL" {
      assert |AsciiUpper("EMAIL")| == 5;
    } else {
      assert |AsciiUpper("TEL")| == 3 && AsciiUpper("TEL")[0] == 'T';
    }
  }

  lemma PointProperty(property: string, up: string)
    requires (property == "EMAIL" || property == "TEL") && ':' !in up && ';' !in up
    ensures var prop := property + [';'] + ("TYPE=" + up);
            && ':' !in prop && AsciiUpper(prop) != "BEGIN" && AsciiUpper(prop) != "END" && AsciiUpper(prop) != "VERSION"
    ensures ';' !in property && ';' !in "TYPE=" + up && AsciiUpper(property) == property
  {
    var prop := property + [';'] + ("TYPE=" + up);
    assert AsciiUpper(prop)[|property|] == ';';
    assert |prop| > 7;
  }

  lemma ExtractPrinted(up: string)
    ensures LabelOf(["TYPE=" + up]) == AsciiLower(AsciiUpper(up))
  {
    var param := "TYPE=" + up;
    assert AsciiUpper(param) == "TYPE=" + AsciiUpper(up);
    assert AsciiUpper(param)[|TYPE_PARAM|..] == AsciiUpper(up);
  }

  function ReadPoints(u: Unicode, points: seq<ContactPoint>): seq<ContactPoint> {
    seq(|points|, i requires 0 <= i < |points| => ContactPoint(points[i].value, ReadLabel(u, points[i].labelText), i == 0))
  }

  lemma {:induction false} ParseLinesConcat(f: Fields, a: seq<string>, b: seq<string>)
    ensures ParseLines(f, a + b) == ParseLines(ParseLines(f, a), b)
    decreases |a|
  {
    if a == [] {
      assert a + b == b;
    } else {
      assert (a + b)[1..] == a[1..] + b;
      ParseLinesConcat(ParseLine(f, a[0]), a[1..], b);
    }
  }

  lemma ParseOneLine(f: Fields, line: string)
    ensures ParseLines(f, [line]) == ParseLine(f, line)
  {
    assert [line][1..] == [];
  }

  predicate PointsReadable(points: seq<ContactPoint>) {
    forall i | 0 <= i < |points| :: Trimmed(points[i].value) && ':' !in points[i].labelText && ';' !in points[i].labelText
  }

  /** All the lines of one list of points, read onto an empty list. */
  lemma {:induction false} ParsePointLines(u: Unicode, f: Fields, property: string, points: seq<ContactPoint>)
    requires u.Valid() && (property == "EMAIL" || property == "TEL")
    requires PointsReadable(points)
    requires (if property == "EMAIL" then f.emails else f.phones) == []
    ensures ParseLines(f, PointLines(u, property, points)) ==
            if property == "EMAIL" then f.(emails := ReadPoints(u, points)) else f.(phones := ReadPoints(u, points))
    decreases |points|
  {
    if points == [] {
      assert ReadPoints(u, points) == [];
    } else {
      hide ParseLine, ParseLines, PointLine, PointLines, ReadLabel, ReadPoints;
      var n := |points| - 1;
      var shorter := points[..n];
      ParsePointLines(u, f, property, shorter);
      PointLinesSnoc(u, property, points, n);
      assert points[..n + 1] == points;
      var line := PointLine(u, property, points[n]);
      ParseLinesConcat(f, PointLines(u, property, shorter), [line]);
      var g := ParseLines(f, PointLines(u, property, shorter));
      ParseOneLine(g, line);
      ParsePointLine(u, g, property, points[n]);
      ReadPointsSnoc(u, points);
    }
  }

  lemma ReadPointsSnoc(u: Unicode, points: seq<ContactPoint>)
    requires points != []
    ensures var n := |points| - 1;
            ReadPoints(u, points) == ReadPoints(u, points[..n]) + [ContactPoint(points[n].value, ReadLabel(u, points[n].labelText), n == 0)]
    ensures |points| > 1 ==> ReadPoints(u, points[..|points| - 1]) != []
    ensures |points| == 1 ==> ReadPoints(u, points[..|points| - 1]) == []
  {
  }

  // ---------------------------------------------------------------- the whole card

  /** Values and labels that print to plain lines; a weaker demand than `Printable`. */
  predicate Readable(c: Contact) {
    && PlainValue(c.displayName)
    && PlainNameParts(c.givenName, c.familyName)
    && PlainOptional(c.organization)
    && PlainOptional(c.jobTitle)
    && PointsPlain(c.emails)
    && PointsPlain(c.phones)
  }

  predicate PointsPlain(points: seq<ContactPoint>) {
    forall i | 0 <= i < |points| ::
      && PlainValue(points[i].value)
      && ':' !in points[i].labelText && ';' !in points[i].labelText && '\n' !in points[i].labelText
  }

  lemma PlainPrefixed(prefix: string, value: string)
    requires prefix != "" && '\n' !in prefix && !IsContinuation(prefix) && prefix[|prefix| - 1] == ':' && PlainValue(value)
    ensures PlainLine(prefix + value)
  {
    var line := prefix + value;
    assert line[|line| - 1] == (if value == "" then ':' else value[|value| - 1]);
  }

  lemma {:induction false} PlainPointLines(u: Unicode, property: string, points: seq<ContactPoint>)
    requires u.Valid() && (property == "EMAIL" || property == "TEL") && PointsPlain(points)
    ensures PlainLines(PointLines(u, property, points))
  {
    if points == [] {
    } else {
      PlainPointLines(u, property, points[1..]);
      UpperAvoids(u, points[0].labelText, '\n');
      PlainPrefixed(property + ";TYPE=" + u.Upper(points[0].labelText) + ":", points[0].value);
    }
  }

  lemma PlainNames(c: Contact)
    requires Readable(c)
    ensures PlainLines(NameLines(c))
    ensures PlainLines(OptionalLine("ORG:", c.organization)) && PlainLines(OptionalLine("TITLE:", c.jobTitle))
  {
    if c.organization.Some? { PlainPrefixed("ORG:", c.organization.value); }
    if c.jobTitle.Some? { PlainPrefixed("TITLE:", c.jobTitle.value); }
  }

  lemma CardLinesPlain(u: Unicode, c: Contact)
    requires u.Valid() && Readable(c)
    ensures PlainLines(VCardLines(u, c))
  {
    hide PlainLine, PointLines;
    var head := ["BEGIN:VCARD", "VERSION:4.0", "FN:" + c.displayName];
    assert PlainLines(head) by { PlainHead(c.displayName); }
    PlainNames(c);
    PlainPointLines(u, "EMAIL", c.emails);
    PlainPointLines(u, "TEL", c.phones);
    assert PlainLines(["END:VCARD"]) by { PlainHead(c.displayName); }
  }

  lemma PlainHead(name: string)
    requires PlainValue(name)
    ensures PlainLine("BEGIN:VCARD") && PlainLine("VERSION:4.0") && PlainLine("FN:" + name) && PlainLine("END:VCARD")
  {
    PlainPrefixed("FN:", name);
  }

  lemma EnvelopeLines(f: Fields)
    ensures ParseLine(f, "BEGIN:VCARD") == f && ParseLine(f, "VERSION:4.0") == f && ParseLine(f, "END:VCARD") == f
  {
    assert AsciiUpper("BEGIN:VCARD") == "BEGIN:VCARD";
    assert AsciiUpper("END:VCARD") == "END:VCARD";
    assert AsciiUpper("VERSION:4.0") == "VERSION:4.0";
    assert "VERSION:" <= "VERSION:4.0";
    assert Trimmed("BEGIN:VCARD") && Trimmed("VERSION:4.0") && Trimmed("END:VCARD");
  }

  lemma ParseOptionalTitle(f: Fields, c: Contact)
    requires Readable(c) && f.jobTitle.None?
    ensures ParseLines(f, OptionalLine("TITLE:", c.jobTitle)) == f.(jobTitle := c.jobTitle)
  {
    if c.jobTitle.Some? {
      ParseOneLine(f, "TITLE:" + c.jobTitle.value);
      ParseTitleLine(f, c.jobTitle.value);
    }
  }

  lemma ParseOptionalOrg(f: Fields, c: Contact)
    requires Readable(c) && f.organization.None?
    ensures ParseLines(f, OptionalLine("ORG:", c.organization)) == f.(organization := c.organization)
  {
    if c.organization.Some? {
      ParseOneLine(f, "ORG:" + c.organization.value);
      ParseOrgLine(f, c.organization.value);
    }
  }

  lemma ParseOptionalName(f: Fields, c: Contact)
    requires Readable(c) && f.givenName.None? && f.familyName.None?
    ensures ParseLines(f, NameLines(c)) == f.(givenName := c.givenName, familyName := c.familyName)
  {
    if c.givenName.Some? {
      ParseOneLine(f, NameLines(c)[0]);
      ParseNameLine(f, c.givenName.value, c.familyName.value);
    }
  }

  /** The fields read back from a printed card. */
  lemma CardFields(u: Unicode, c: Contact)
    requires u.Valid() && Readable(c)
    ensures ParseLines(NO_FIELDS, VCardLines(u, c)) ==
            Fields(Some(c.displayName), c.givenName, c.familyName, c.organization, c.jobTitle,
                   ReadPoints(u, c.emails), ReadPoints(u, c.phones))
  {
    hide ParseLine, PointLines, NameLines, OptionalLine, ParseLines;
    var s0 := ["BEGIN:VCARD", "VERSION:4.0", "FN:" + c.displayName];
    HeadFields(c.displayName);
    var s1 := s0 + NameLines(c);
    ParseLinesConcat(NO_FIELDS, s0, NameLines(c));
    var f1 := NO_FIELDS.(displayName := Some(c.displayName));
    ParseOptionalName(f1, c);
    var f2 := f1.(givenName := c.givenName, familyName := c.familyName);
    var s2 := s1 + OptionalLine("ORG:", c.organization);
    ParseLinesConcat(NO_FIELDS, s1, OptionalLine("ORG:", c.organization));
    ParseOptionalOrg(f2, c);
    var f3 := f2.(organization := c.organization);
    var s3 := s2 + OptionalLine("TITLE:", c.jobTitle);
    ParseLinesConcat(NO_FIELDS, s2, OptionalLine("TITLE:", c.jobTitle));
    ParseOptionalTitle(f3, c);
    var f4 := f3.(jobTitle := c.jobTitle);
    var s4 := s3 + PointLines(u, "EMAIL", c.emails);
    ParseLinesConcat(NO_FIELDS, s3, PointLines(u, "EMAIL", c.emails));
    ParsePointLines(u, f4, "EMAIL", c.emails);
    var f5 := f4.(emails := ReadPoints(u, c.emails));
    var s5 := s4 + PointLines(u, "TEL", c.phones);
    ParseLinesConcat(NO_FIELDS, s4, PointLines(u, "TEL", c.phones));
    ParsePointLines(u, f5, "TEL", c.phones);
    var f6 := f5.(phones := ReadPoints(u, c.phones));
    ParseLinesConcat(NO_FIELDS, s5, ["END:VCARD"]);
    ParseOneLine(f6, "END:VCARD");
    EnvelopeLines(f6);
  }

  lemma HeadFields(name: string)
    requires Trimmed(name)
    ensures ParseLines(NO_FIELDS, ["BEGIN:VCARD", "VERSION:4.0", "FN:" + name]) == NO_FIELDS.(displayName := Some(name))
  {
    hide ParseLine;
    EnvelopeLines(NO_FIELDS);
    ParseFnLine(NO_FIELDS, name);
    ParseOneLine(NO_FIELDS, "FN:" + name);
    assert ["BEGIN:VCARD", "VERSION:4.0", "FN:" + name][1..] == ["VERSION:4.0", "FN:" + name];
    assert ["VERSION:4.0", "FN:" + name][1..] == ["FN:" + name];
  }

  lemma RenderedHasBegin(u: Unicode, c: Contact)
    ensures Contains(AsciiUpper(Render(VCardLines(u, c))), "BEGIN:VCARD")
  {
    hide PointLines, NameLines, OptionalLine;
    var text := Render(VCardLines(u, c));
    assert VCardLines(u, c)[0] == "BEGIN:VCARD";
    assert "BEGIN:VCARD" <= text;
    assert AsciiUpper("BEGIN:VCARD") == "BEGIN:VCARD";
    assert AsciiUpper(text)[..11] == AsciiUpper(text[..11]);
    assert "BEGIN:VCARD" <= AsciiUpper(text)[0..];
  }

  /** A card with plain values parses to the same values, with labels as the parser reads them. */
  lemma ReadableCardParses(u: Unicode, id: string, account: string, c: Contact)
    requires u.Valid() && Readable(c) && Utf8Len(Render(VCardLines(u, c))) <= MAX_PAYLOAD_BYTES
    ensures Parse(id, account, Render(VCardLines(u, c))) ==
            Ok(Contact(id, Some(account), c.displayName, c.givenName, c.familyName, c.organization, c.jobTitle,
                       ReadPoints(u, c.emails), ReadPoints(u, c.phones)))
  {
    hide ParseLine, ParseLines, Lines, Unfold, Render;
    CardLinesPlain(u, c);
    RenderedLinesRead(VCardLines(u, c));
    CardFields(u, c);
    RenderedHasBegin(u, c);
  }

  // ---------------------------------------------------------------- what parsing can produce

  /** The shape of everything the parser assigns, whatever text it reads. */
  predicate Disciplined(f: Fields) {
    && PlainOptional(f.displayName)
    && PlainOptional(f.organization)
    && PlainOptional(f.jobTitle)
    && (f.givenName.Some? ==> PlainNamePart(f.givenName.value))
    && (f.familyName.Some? ==> PlainNamePart(f.familyName.value))
    && PointsPlain(f.emails) && FirstIsPrimary(f.emails)
    && PointsPlain(f.phones) && FirstIsPrimary(f.phones)
  }

  predicate FirstIsPrimary(points: seq<ContactPoint>) {
    forall i | 0 <= i < |points| :: points[i].isPrimary == (i == 0)
  }

  lemma {:induction false} LinesHaveNoLineFeed(s: string)
    ensures forall line | line in Lines(s) :: '\n' !in line
  {
    if s == "" {
    } else {
      var k := IndexOf(s, '\n');
      BeforeLineFeed(s, k);
      if k < |s| {
        assert Lines(s) == [StripCr(s[..k])] + Lines(s[k + 1..]);
        LinesHaveNoLineFeed(s[k + 1..]);
        hide Lines, IndexOf, StripCr;
      } else {
        assert Lines(s) == [s];
      }
    }
  }

  lemma BeforeLineFeed(s: string, k: nat)
    requires k <= |s| && k == IndexOf(s, '\n')
    ensures '\n' !in s[..k] && '\n' !in StripCr(s[..k]) && s[..|s|] == s
  {
  }

  lemma CaseAvoids(s: string, c: char)
    requires !IsAsciiLetter(c) && c !in s
    ensures c !in AsciiLower(s) && c !in AsciiUpper(s)
  {
    assert forall i | 0 <= i < |s| :: s[i] in s;
  }

  lemma {:induction false} LabelAvoids(params: seq<string>, c: char)
    requires !IsAsciiLetter(c) && forall p | p in params :: c !in p
    ensures ExtractType(params).Some? ==> c !in ExtractType(params).value
    ensures c !in LabelOf(params)
  {
    if params == [] {
    } else {
      CaseAvoids(params[0], c);
      LabelAvoids(params[1..], c);
    }
    CaseAvoids(match ExtractType(params) case Some(t) => t case None => "other", c);
  }

  lemma TrimmedIsPlain(s: string)
    requires '\n' !in s
    ensures PlainValue(Trim(s))
  {
    TrimIsTrimmed(s);
  }

  lemma ComponentDisciplined(value: string, k: nat, previous: Option<string>)
    requires '\n' !in value && (previous.Some? ==> PlainNamePart(previous.value))
    ensures var r := Component(SplitOn(value, ';'), k, previous); r.Some? ==> PlainNamePart(r.value)
  {
    var comps := SplitOn(value, ';');
    SplitOnParts(value, ';');
    if k < |comps| {
      assert comps[k] in comps;
      TrimmedIsPlain(comps[k]);
      TrimIsTrimmed(comps[k]);
    }
  }

  lemma PointDisciplined(points: seq<ContactPoint>, value: string, params: seq<string>)
    requires PointsPlain(points) && FirstIsPrimary(points) && '\n' !in value
    requires forall p | p in params :: ':' !in p && ';' !in p && '\n' !in p
    ensures PointsPlain(AddPoint(points, value, params)) && FirstIsPrimary(AddPoint(points, value, params))
  {
    hide LabelOf, Trim;
    TrimmedIsPlain(value);
    LabelAvoids(params, ':');
    LabelAvoids(params, ';');
    LabelAvoids(params, '\n');
  }

  lemma AssignDisciplined(f: Fields, prop: string, value: string)
    requires Disciplined(f) && ':' !in prop && '\n' !in prop && '\n' !in value
    ensures Disciplined(Assign(f, prop, value))
  {
    hide Trim, SplitOn, Component, AddPoint, AsciiUpper, PointsPlain, FirstIsPrimary, PlainNamePart, PlainValue;
    SplitOnParts(prop, ';');
    var params := SplitOn(prop, ';')[1..];
    assert forall p | p in params :: p in SplitOn(prop, ';');
    TrimmedIsPlain(value);
    ComponentDisciplined(value, 0, f.familyName);
    ComponentDisciplined(value, 1, f.givenName);
    PointDisciplined(f.emails, value, params);
    PointDisciplined(f.phones, value, params);
  }

  lemma ParseLineDisciplined(f: Fields, raw: string)
    requires Disciplined(f) && '\n' !in raw
    ensures Disciplined(ParseLine(f, raw))
  {
    hide Disciplined, Trim, Assign, IsEnvelope;
    var line := Trim(raw);
    TrimIsTrimmed(raw);
    var k := IndexOf(line, ':');
    if k < |line| {
      assert forall c | c in line[..k] :: c in line;
      assert forall c | c in line[k + 1..] :: c in line;
      AssignDisciplined(f, line[..k], line[k + 1..]);
    }
  }

  lemma {:induction false} ParseLinesDisciplined(f: Fields, lines: seq<string>)
    requires Disciplined(f) && forall line | line in lines :: '\n' !in line
    ensures Disciplined(ParseLines(f, lines))
    decreases |lines|
  {
    hide Disciplined, ParseLine;
    if lines == [] {
    } else {
      assert lines[0] in lines && forall line | line in lines[1..] :: line in lines;
      ParseLineDisciplined(f, lines[0]);
      ParseLinesDisciplined(ParseLine(f, lines[0]), lines[1..]);
    }
  }

  /** Whatever is parsed, its values are trimmed and on one line, its name parts are not blank, its labels
      hold no separator, and the first email and the first phone alone are primary. */
  lemma ParsedIsDisciplined(id: string, account: string, raw: string)
    requires Parse(id, account, raw).Ok?
    ensures var p := Parse(id, account, raw).value;
            && PlainValue(p.displayName)
            && Disciplined(Fields(Some(p.displayName), p.givenName, p.familyName, p.organization, p.jobTitle, p.emails, p.phones))
  {
    hide ParseLines, Lines, Unfold;
    LinesHaveNoLineFeed(Unfold(raw));
    ParseLinesDisciplined(NO_FIELDS, Lines(Unfold(raw)));
  }

  // ---------------------------------------------------------------- the round trip, exactly

  lemma StablePointsRead(u: Unicode, points: seq<ContactPoint>)
    requires PointsPlain(points)
    ensures ReadPoints(u, points) == points <==> PlainPoints(u, points)
  {
    var read := ReadPoints(u, points);
    if read == points {
      forall i | 0 <= i < |points|
        ensures StableLabel(u, points[i].labelText) && points[i].isPrimary == (i == 0)
      {
        assert read[i] == points[i];
      }
    }
  }

  lemma PrintableIsReadable(u: Unicode, c: Contact)
    requires Printable(u, c)
    ensures Readable(c)
  {
  }

  /** Printing a contact and parsing the text back restores its name, N, ORG and TITLE fields and its full
      email and phone lists exactly when the contact is printable and the text fits the size limit. */
  lemma VCardRoundTrips(u: Unicode, id: string, account: string, c: Contact)
    requires u.Valid()
    ensures var text := Render(VCardLines(u, c));
            Restores(Parse(id, account, text), c) <==> Printable(u, c) && Utf8Len(text) <= MAX_PAYLOAD_BYTES
  {
    hide Parse, Render, ReadPoints, PlainPoints, PlainValue, Unicode.Valid;
    var text := Render(VCardLines(u, c));
    if Printable(u, c) && Utf8Len(text) <= MAX_PAYLOAD_BYTES {
      PrintableIsReadable(u, c);
      ReadableCardParses(u, id, account, c);
      StablePointsRead(u, c.emails);
      StablePointsRead(u, c.phones);
    }
    if Restores(Parse(id, account, text), c) {
      ParsedWithinLimit(id, account, text);
      ParsedIsDisciplined(id, account, text);
      var d := if c.givenName.Some? && c.familyName.Some? then c else c.(givenName := None, familyName := None);
      assert VCardLines(u, d) == VCardLines(u, c);
      ReadableCardParses(u, id, account, d);
      StablePointsRead(u, c.emails);
      StablePointsRead(u, c.phones);
    }
  }

  lemma ParsedWithinLimit(id: string, account: string, raw: string)
    requires Parse(id, account, raw).Ok?
    ensures Utf8Len(raw) <= MAX_PAYLOAD_BYTES
  {
  }

  /** A contact with a given name and no family name: the printer writes no N line, and the name is lost. */
  lemma GivenNameAloneIsLost(u: Unicode, id: string, account: string, c: Contact)
    requires u.Valid() && c.givenName.Some? && c.familyName.None?
    ensures !Restores(Parse(id, account, Render(VCardLines(u, c))), c)
  {
    hide Parse, Render, VCardLines;
    VCardRoundTrips(u, id, account, c);
  }

  /** A second email marked primary comes back unmarked. */
  lemma SecondPrimaryIsLost(u: Unicode, id: string, account: string, c: Contact)
    requires u.Valid() && |c.emails| > 1 && c.emails[1].isPrimary
    ensures !Restores(Parse(id, account, Render(VCardLines(u, c))), c)
  {
    hide Parse, Render, VCardLines;
    VCardRoundTrips(u, id, account, c);
    assert c.emails[1].isPrimary != (1 == 0);
  }
}
