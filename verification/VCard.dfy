/** vCard text for contacts: the printer, the line unfolding and the parser. */
module VCard {
  import opened Wrappers
  import opened Text

  const MAX_PAYLOAD_BYTES: nat := 1024 * 1024
  const CRLF: string := "\r\n"

  /** An email address or a phone number of a contact, with its label. */
  datatype ContactPoint = ContactPoint(value: string, labelText: string, isPrimary: bool)

  datatype Contact = Contact(
    id: string,
    accountId: Option<string>,
    displayName: string,
    givenName: Option<string>,
    familyName: Option<string>,
    organization: Option<string>,
    jobTitle: Option<string>,
    emails: seq<ContactPoint>,
    phones: seq<ContactPoint>
  )

  datatype VCardError = PayloadTooLarge | MissingBegin | NoDisplayName

  // ---------------------------------------------------------------- printing

  function PointLine(u: Unicode, property: string, p: ContactPoint): string {
    property + ";TYPE=" + u.Upper(p.labelText) + ":" + p.value
  }

  function PointLines(u: Unicode, property: string, points: seq<ContactPoint>): (lines: seq<string>)
    ensures |lines| == |points|
  {
    if points == [] then [] else [PointLine(u, property, points[0])] + PointLines(u, property, points[1..])
  }

  function NameLines(c: Contact): seq<string> {
    if c.givenName.Some? && c.familyName.Some?
    then ["N:" + c.familyName.value + ";" + c.givenName.value + ";;;"]
    else []
  }

  function OptionalLine(prefix: string, value: Option<string>): seq<string> {
    if value.Some? then [prefix + value.value] else []
  }

  /** The lines of a contact's vCard, in order. */
  function VCardLines(u: Unicode, c: Contact): seq<string> {
    ["BEGIN:VCARD", "VERSION:4.0", "FN:" + c.displayName]
    + NameLines(c)
    + OptionalLine("ORG:", c.organization)
    + OptionalLine("TITLE:", c.jobTitle)
    + PointLines(u, "EMAIL", c.emails)
    + PointLines(u, "TEL", c.phones)
    + ["END:VCARD"]
  }

  /** Each line ended by CRLF. */
  function Render(lines: seq<string>): string {
    if lines == [] then "" else lines[0] + CRLF + Render(lines[1..])
  }

  lemma {:induction false} RenderConcat(a: seq<string>, b: seq<string>)
    ensures Render(a + b) == Render(a) + Render(b)
  {
    if a == [] {
      assert a + b == b;
    } else {
      assert (a + b)[1..] == a[1..] + b;
      RenderConcat(a[1..], b);
    }
  }

  lemma RenderSnoc(a: seq<string>, line: string)
    ensures Render(a + [line]) == Render(a) + line + CRLF
  {
    RenderConcat(a, [line]);
    assert Render([line]) == line + CRLF + Render([line][1..]);
  }

  /** The lines of points printed so far, while a loop appends one line a point. */
  lemma {:induction false} PointLinesSnoc(u: Unicode, property: string, points: seq<ContactPoint>, k: nat)
    requires k < |points|
    ensures PointLines(u, property, points[..k + 1]) == PointLines(u, property, points[..k]) + [PointLine(u, property, points[k])]
  {
    if k == 0 {
    } else {
      assert points[1..][..k] == points[..k + 1][1..];
      assert points[1..][..k - 1] == points[..k][1..];
      PointLinesSnoc(u, property, points[1..], k - 1);
    }
  }

  lemma NoPoints(u: Unicode, property: string)
    ensures PointLines(u, property, []) == []
  {
  }

  /** The loops of `to_vcard` over emails and phones, appending to the text. */
  method AppendPoints(u: Unicode, vcard: string, ghost lines: seq<string>, property: string, points: seq<ContactPoint>)
    returns (text: string)
    requires vcard == Render(lines)
    ensures text == Render(lines + PointLines(u, property, points))
  {
    hide PointLines, Render;
    text := vcard;
    ghost var printed := lines;
    NoPoints(u, property);
    for k := 0 to |points|
      invariant printed == lines + PointLines(u, property, points[..k])
      invariant text == Render(printed)
    {
      PointLinesSnoc(u, property, points, k);
      RenderSnoc(printed, PointLine(u, property, points[k]));
      var line := property + ";TYPE=" + u.Upper(points[k].labelText) + ":" + points[k].value;
      assert line == PointLine(u, property, points[k]);
      text := text + line + CRLF;
      printed := printed + [PointLine(u, property, points[k])];
    }
    assert points[..|points|] == points;
  }

  /** `vcard.push_str(&format!("{line}\r\n"))`. */
  method PushLine(vcard: string, ghost lines: seq<string>, line: string) returns (text: string)
    requires vcard == Render(lines)
    ensures text == Render(lines + [line])
  {
    RenderSnoc(lines, line);
    text := vcard + line + CRLF;
  }

  method PushOptional(vcard: string, ghost lines: seq<string>, prefix: string, value: Option<string>) returns (text: string)
    requires vcard == Render(lines)
    ensures text == Render(lines + OptionalLine(prefix, value))
  {
    text := vcard;
    if value.Some? {
      text := PushLine(vcard, lines, prefix + value.value);
    } else {
      assert lines + [] == lines;
    }
  }

  /** `to_vcard`: the text grows line by line, in the order the format asks for. */
  method ToVCard(u: Unicode, c: Contact) returns (vcard: string)
    ensures vcard == Render(VCardLines(u, c))
  {
    hide PointLines;
    ghost var lines := [];
    vcard := "";
    vcard := PushLine(vcard, lines, "BEGIN:VCARD");
    vcard := PushLine(vcard, ["BEGIN:VCARD"], "VERSION:4.0");
    vcard := PushLine(vcard, ["BEGIN:VCARD", "VERSION:4.0"], "FN:" + c.displayName);
    lines := ["BEGIN:VCARD", "VERSION:4.0", "FN:" + c.displayName];
    if c.givenName.Some? && c.familyName.Some? {
      vcard := PushLine(vcard, lines, "N:" + c.familyName.value + ";" + c.givenName.value + ";;;");
    } else {
      assert lines + [] == lines;
    }
    lines := lines + NameLines(c);
    vcard := PushOptional(vcard, lines, "ORG:", c.organization);
    lines := lines + OptionalLine("ORG:", c.organization);
    vcard := PushOptional(vcard, lines, "TITLE:", c.jobTitle);
    lines := lines + OptionalLine("TITLE:", c.jobTitle);
    vcard := AppendPoints(u, vcard, lines, "EMAIL", c.emails);
    lines := lines + PointLines(u, "EMAIL", c.emails);
    vcard := AppendPoints(u, vcard, lines, "TEL", c.phones);
    lines := lines + PointLines(u, "TEL", c.phones);
    vcard := PushLine(vcard, lines, "END:VCARD");
  }

  // ---------------------------------------------------------------- unfolding

  /** Put a character in front of the first line. */
  function Prepend(c: char, lines: seq<string>): (r: seq<string>)
    requires lines != []
    ensures |r| == |lines|
  {
    [[c] + lines[0]] + lines[1..]
  }

  /** `raw.split("\r\n")`, each piece split again at "\n": lines end at a CRLF or at a bare LF. */
  function PhysicalLines(raw: string): (lines: seq<string>)
    ensures lines != []
  {
    if raw == "" then [""]
    else if CRLF <= raw then [""] + PhysicalLines(raw[2..])
    else if raw[0] == '\n' then [""] + PhysicalLines(raw[1..])
    else Prepend(raw[0], PhysicalLines(raw[1..]))
  }

  predicate IsContinuation(line: string) {
    line != "" && (line[0] == ' ' || line[0] == '\t')
  }

  /** One round of the unfolding loop. */
  function Extend(result: string, line: string): string {
    if IsContinuation(line) && result != "" then result + TrimStart(line)
    else (if result == "" then "" else result + "\n") + line
  }

  function UnfoldFrom(result: string, lines: seq<string>): string
    decreases |lines|
  {
    if lines == [] then result else UnfoldFrom(Extend(result, lines[0]), lines[1..])
  }

  function Unfold(raw: string): string { UnfoldFrom("", PhysicalLines(raw)) }

  method UnfoldLines(raw: string) returns (result: string)
    ensures result == Unfold(raw)
  {
    var lines := PhysicalLines(raw);
    result := "";
    for i := 0 to |lines|
      invariant UnfoldFrom(result, lines[i..]) == Unfold(raw)
    {
      var line := lines[i];
      assert lines[i..][1..] == lines[i + 1..];
      if IsContinuation(line) && result != "" {
        result := result + TrimStart(line);
      } else {
        if result != "" {
          result := result + "\n";
        }
        result := result + line;
      }
    }
  }

  // ---------------------------------------------------------------- parsing

  /** `str::lines`: lines end at "\n" or "\r\n"; no last empty line. */
  function Lines(s: string): seq<string> {
    if s == "" then []
    else
      var k := IndexOf(s, '\n');
      if k < |s| then [StripCr(s[..k])] + Lines(s[k + 1..]) else [s]
  }

  function StripCr(s: string): string {
    if s != "" && s[|s| - 1] == '\r' then s[..|s| - 1] else s
  }

  /** The variables the parsing loop assigns. */
  datatype Fields = Fields(
    displayName: Option<string>,
    givenName: Option<string>,
    familyName: Option<string>,
    organization: Option<string>,
    jobTitle: Option<string>,
    emails: seq<ContactPoint>,
    phones: seq<ContactPoint>
  )

  const NO_FIELDS: Fields := Fields(None, None, None, None, None, [], [])

  const TYPE_PARAM: string := "TYPE="

  /** The value of the first `TYPE=` parameter, uppercased. */
  function ExtractType(params: seq<string>): Option<string> {
    if params == [] then None
    else if TYPE_PARAM <= AsciiUpper(params[0]) then Some(AsciiUpper(params[0])[|TYPE_PARAM|..])
    else ExtractType(params[1..])
  }

  function LabelOf(params: seq<string>): string {
    AsciiLower(match ExtractType(params) case Some(t) => t case None => "other")
  }

  function AddPoint(points: seq<ContactPoint>, value: string, params: seq<string>): seq<ContactPoint> {
    points + [ContactPoint(Trim(value), LabelOf(params), points == [])]
  }

  /** The components of an `N` value: family, then given; blank ones leave the field as it was. */
  function Component(comps: seq<string>, k: nat, previous: Option<string>): Option<string> {
    if k < |comps| && Trim(comps[k]) != "" then Some(Trim(comps[k])) else previous
  }

  predicate IsEnvelope(upper: string) {
    upper == "BEGIN:VCARD" || upper == "END:VCARD" || "VERSION:" <= upper
  }

  /** A property line, already split at its first colon. */
  function Assign(f: Fields, prop: string, value: string): Fields {
    var segments := SplitOn(prop, ';');
    var name := AsciiUpper(segments[0]);
    var params := segments[1..];
    if name == "FN" then f.(displayName := Some(Trim(value)))
    else if name == "N" then
      var comps := SplitOn(value, ';');
      f.(familyName := Component(comps, 0, f.familyName), givenName := Component(comps, 1, f.givenName))
    else if name == "ORG" then f.(organization := Some(Trim(value)))
    else if name == "TITLE" then f.(jobTitle := Some(Trim(value)))
    else if name == "EMAIL" then f.(emails := AddPoint(f.emails, value, params))
    else if name == "TEL" then f.(phones := AddPoint(f.phones, value, params))
    else f
  }

  /** One round of the parsing loop. */
  function ParseLine(f: Fields, raw: string): Fields {
    var line := Trim(raw);
    if line == "" || IsEnvelope(AsciiUpper(line)) then f
    else
      match SplitOnce(line, ':')
      case None => f
      case Some((prop, value)) => Assign(f, prop, value)
  }

  function ParseLines(f: Fields, lines: seq<string>): Fields
    decreases |lines|
  {
    if lines == [] then f else ParseLines(ParseLine(f, lines[0]), lines[1..])
  }

  predicate Contains(s: string, needle: string) {
    exists i :: 0 <= i <= |s| && needle <= s[i..]
  }

  /** The display name, or the first email when there is none. */
  function ToContact(id: string, accountId: string, f: Fields): Result<Contact, VCardError> {
    if f.displayName.None? && f.emails == [] then Err(NoDisplayName)
    else
      var name := if f.displayName.Some? then f.displayName.value else f.emails[0].value;
      Ok(Contact(id, Some(accountId), name, f.givenName, f.familyName, f.organization, f.jobTitle, f.emails, f.phones))
  }

  function Parse(id: string, accountId: string, raw: string): Result<Contact, VCardError> {
    if Utf8Len(raw) > MAX_PAYLOAD_BYTES then Err(PayloadTooLarge)
    else if !Contains(AsciiUpper(raw), "BEGIN:VCARD") then Err(MissingBegin)
    else ToContact(id, accountId, ParseLines(NO_FIELDS, Lines(Unfold(raw))))
  }

  /** `parse_vcard`. */
  method ParseVCard(id: string, accountId: string, raw: string) returns (r: Result<Contact, VCardError>)
    ensures r == Parse(id, accountId, raw)
  {
    if Utf8Len(raw) > MAX_PAYLOAD_BYTES {
      return Err(PayloadTooLarge);
    }
    if !Contains(AsciiUpper(raw), "BEGIN:VCARD") {
      return Err(MissingBegin);
    }
    var unfolded := UnfoldLines(raw);
    var lines := Lines(unfolded);
    var f := NO_FIELDS;
    for i := 0 to |lines|
      invariant ParseLines(f, lines[i..]) == ParseLines(NO_FIELDS, lines)
    {
      assert lines[i..][1..] == lines[i + 1..];
      var line := Trim(lines[i]);
      if line == "" || IsEnvelope(AsciiUpper(line)) {
        continue;
      }
      var colon := SplitOnce(line, ':');
      if colon.None? {
        continue;
      }
      f := Assign(f, colon.value.0, colon.value.1);
    }
    r := ToContact(id, accountId, f);
  }
}
