/** The string operations of the Rust standard library that the parsers and printers rely on.
    A `string` is a sequence of Unicode scalar values, as in Rust; byte offsets are computed
    from the UTF-8 length of each character where the source slices by bytes. */
module Text {
  import opened Wrappers

  // ---------------------------------------------------------------- characters

  /** `char::is_whitespace`: the Unicode White_Space property. */
  predicate IsWhitespace(c: char) {
    || '\t' <= c <= '\r'
    || c == ' '
    || c == '\U{85}'
    || c == '\U{A0}'
    || c == '\U{1680}'
    || '\U{2000}' <= c <= '\U{200A}'
    || c == '\U{2028}'
    || c == '\U{2029}'
    || c == '\U{202F}'
    || c == '\U{205F}'
    || c == '\U{3000}'
  }

  /** The 25 characters of that property. */
  lemma WhitespaceCharacters(c: char)
    ensures IsWhitespace(c) <==>
            || c as int in {9, 10, 11, 12, 13, 32, 0x85, 0xA0, 0x1680, 0x2028, 0x2029, 0x202F, 0x205F, 0x3000}
            || 0x2000 <= c as int <= 0x200A
  {
  }

  predicate IsAscii(c: char) { c < '\U{80}' }

  predicate IsDigit(c: char) { '0' <= c <= '9' }

  predicate IsAsciiUpper(c: char) { 'A' <= c <= 'Z' }

  predicate IsAsciiLower(c: char) { 'a' <= c <= 'z' }

  predicate IsAsciiLetter(c: char) { IsAsciiUpper(c) || IsAsciiLower(c) }

  function UpperChar(c: char): char {
    if IsAsciiLower(c) then (c as int - 32) as char else c
  }

  function LowerChar(c: char): char {
    if IsAsciiUpper(c) then (c as int + 32) as char else c
  }

  /** `str::to_ascii_uppercase`. */
  function AsciiUpper(s: string): (r: string)
    ensures |r| == |s|
  {
    seq(|s|, i requires 0 <= i < |s| => UpperChar(s[i]))
  }

  /** `str::to_ascii_lowercase`. */
  function AsciiLower(s: string): (r: string)
    ensures |r| == |s|
  {
    seq(|s|, i requires 0 <= i < |s| => LowerChar(s[i]))
  }

  predicate AllAscii(s: string) { forall i | 0 <= i < |s| :: IsAscii(s[i]) }

  /** `char::eq_ignore_ascii_case`. */
  predicate EqIgnoreCase(a: char, b: char) { LowerChar(a) == LowerChar(b) }

  /** `str::eq_ignore_ascii_case`. */
  predicate SameIgnoreCase(s: string, t: string) {
    |s| == |t| && forall i | 0 <= i < |s| :: EqIgnoreCase(s[i], t[i])
  }

  /** The same character, or the same ASCII letter in the other case. */
  predicate SameLetter(a: char, b: char) {
    || a == b
    || ('A' <= a <= 'Z' && b as int == a as int + 32)
    || ('A' <= b <= 'Z' && a as int == b as int + 32)
  }

  predicate SameLetters(s: string, t: string) { |s| == |t| && forall i | 0 <= i < |s| :: SameLetter(s[i], t[i]) }

  lemma LettersIgnoreCase(s: string, t: string)
    ensures SameIgnoreCase(s, t) <==> SameLetters(s, t)
  {
    forall i | 0 <= i < |s| && |s| == |t|
      ensures EqIgnoreCase(s[i], t[i]) <==> SameLetter(s[i], t[i])
    {
    }
    hide EqIgnoreCase, SameLetter;
  }

  /** Text in upper case spells a word without small letters exactly when it is that word in any case. */
  lemma UpperSpells(s: string, word: string)
    requires forall i | 0 <= i < |word| :: !IsAsciiLower(word[i])
    ensures AsciiUpper(s) == word <==> SameLetters(s, word)
    ensures |word| <= |s| ==> (word <= AsciiUpper(s) <==> SameLetters(s[..|word|], word))
  {
    forall i | 0 <= i < |s| && i < |word|
      ensures UpperChar(s[i]) == word[i] <==> SameLetter(s[i], word[i])
    {
    }
    hide UpperChar, SameLetter;
  }

  /** Lower case after upper case is lower case. */
  lemma LowerOfUpper(s: string)
    ensures AsciiLower(AsciiUpper(s)) == AsciiLower(s)
  {
  }

  /** The Unicode tables the code consults through the standard library. Everything proved holds
      for every table whose ASCII part is the usual one, in which letters are alphanumeric and whitespace
      is in no word, and in which the uppercase form of a character outside ASCII contributes no ASCII
      characters except the letters A to Z. */
  datatype Unicode = Unicode(
    upper: char -> string,           // char::to_uppercase, which str::to_uppercase applies to each character
    lower: string -> string,         // str::to_lowercase
    alphabetic: char -> bool,        // char::is_alphabetic
    alphanumeric: char -> bool,      // char::is_alphanumeric
    word: char -> bool               // \w of the regex crate
  ) {
    ghost predicate Valid() {
      && (forall c | IsAscii(c) ::
            && upper(c) == [UpperChar(c)]
            && alphabetic(c) == IsAsciiLetter(c)
            && alphanumeric(c) == (IsAsciiLetter(c) || IsDigit(c))
            && word(c) == (IsAsciiLetter(c) || IsDigit(c) || c == '_'))
      && (forall c | alphabetic(c) :: alphanumeric(c))
      && (forall c | IsWhitespace(c) :: !word(c))
      && word('\U{17F}')   // the long s, which case-insensitive matching identifies with s
      && (forall c, i | !IsAscii(c) && 0 <= i < |upper(c)| && IsAscii(upper(c)[i]) :: IsAsciiUpper(upper(c)[i]))
      && (forall s | AllAscii(s) :: lower(s) == AsciiLower(s))
    }

    /** `str::to_uppercase`. */
    function Upper(s: string): string {
      if s == "" then "" else upper(s[0]) + Upper(s[1..])
    }
  }

  /** `str::to_uppercase` on ASCII text is the ASCII mapping, whatever follows it. */
  lemma {:induction false} UpperAsciiPrefix(u: Unicode, s: string, rest: string)
    requires u.Valid() && AllAscii(s)
    ensures u.Upper(s + rest) == AsciiUpper(s) + u.Upper(rest)
  {
    if s == "" {
      assert s + rest == rest;
    } else {
      assert (s + rest)[1..] == s[1..] + rest;
      UpperAsciiPrefix(u, s[1..], rest);
      assert AsciiUpper(s) == [UpperChar(s[0])] + AsciiUpper(s[1..]);
    }
  }

  // ---------------------------------------------------------------- UTF-8 lengths

  function Utf8Width(c: char): (w: nat)
    ensures 1 <= w <= 4
  {
    if c < '\U{80}' then 1 else if c < '\U{800}' then 2 else if c < '\U{10000}' then 3 else 4
  }

  /** A character takes as many bytes as its code point needs: seven bits, eleven, sixteen, or more. */
  lemma Utf8Widths(c: char)
    ensures Utf8Width(c) == if c as int <= 0x7F then 1 else if c as int <= 0x7FF then 2 else if c as int <= 0xFFFF then 3 else 4
  {
  }

  /** `str::len`: the number of UTF-8 bytes. */
  function Utf8Len(s: string): nat {
    if s == "" then 0 else Utf8Width(s[0]) + Utf8Len(s[1..])
  }

  /** `&s[b..]`, or None where Rust would panic: `b` past the end or inside a character. */
  function ByteDrop(s: string, b: nat): Option<string> {
    if b == 0 then Some(s)
    else if s == "" || b < Utf8Width(s[0]) then None
    else ByteDrop(s[1..], b - Utf8Width(s[0]))
  }

  /** `&s[..b]`, or None where Rust would panic. */
  function ByteTake(s: string, b: nat): Option<string> {
    if b == 0 then Some("")
    else if s == "" || b < Utf8Width(s[0]) then None
    else match ByteTake(s[1..], b - Utf8Width(s[0]))
      case None => None
      case Some(t) => Some([s[0]] + t)
  }

  lemma {:induction false} Utf8LenConcat(s: string, t: string)
    ensures Utf8Len(s + t) == Utf8Len(s) + Utf8Len(t)
  {
    if s == "" {
      assert s + t == t;
    } else {
      assert (s + t)[1..] == s[1..] + t;
      Utf8LenConcat(s[1..], t);
    }
  }

  lemma {:induction false} Utf8LenAscii(s: string)
    requires AllAscii(s)
    ensures Utf8Len(s) == |s|
  {
    if s == "" {
    } else {
      Utf8LenAscii(s[1..]);
    }
  }

  /** Cutting at the byte length of a prefix cuts exactly after that prefix. */
  lemma {:induction false} ByteCut(s: string, t: string)
    ensures ByteDrop(s + t, Utf8Len(s)) == Some(t)
    ensures ByteTake(s + t, Utf8Len(s)) == Some(s)
  {
    if s == "" {
      assert s + t == t;
    } else {
      assert (s + t)[1..] == s[1..] + t;
      ByteCut(s[1..], t);
      assert [s[0]] + s[1..] == s;
    }
  }

  // ---------------------------------------------------------------- trimming

  /** `str::trim_start`. */
  function TrimStart(s: string): string {
    if s != "" && IsWhitespace(s[0]) then TrimStart(s[1..]) else s
  }

  /** `str::trim_end`. */
  function TrimEnd(s: string): string {
    if s != "" && IsWhitespace(s[|s| - 1]) then TrimEnd(s[..|s| - 1]) else s
  }

  /** `str::trim`. */
  function Trim(s: string): string { TrimEnd(TrimStart(s)) }

  predicate Trimmed(s: string) {
    s == "" || (!IsWhitespace(s[0]) && !IsWhitespace(s[|s| - 1]))
  }

  lemma TrimIdentity(s: string)
    requires Trimmed(s)
    ensures Trim(s) == s
  {
  }

  /** Trimming leaves a piece of the text with no whitespace at either end. */
  lemma {:induction false} TrimEndFacts(s: string)
    ensures TrimEnd(s) <= s
    ensures TrimEnd(s) == "" || !IsWhitespace(TrimEnd(s)[|TrimEnd(s)| - 1])
  {
    if s == "" || !IsWhitespace(s[|s| - 1]) {
    } else {
      TrimEndFacts(s[..|s| - 1]);
    }
  }

  lemma {:induction false} TrimStartFacts(s: string)
    ensures |TrimStart(s)| <= |s| && TrimStart(s) == s[|s| - |TrimStart(s)|..]
    ensures TrimStart(s) == "" || !IsWhitespace(TrimStart(s)[0])
  {
    if s == "" || !IsWhitespace(s[0]) {
    } else {
      TrimStartFacts(s[1..]);
    }
  }

  lemma TrimIsTrimmed(s: string)
    ensures Trimmed(Trim(s))
    ensures forall c | c in Trim(s) :: c in s
  {
    TrimStartFacts(s);
    TrimEndFacts(TrimStart(s));
  }

  lemma {:induction false} TrimStartConcat(s: string, t: string)
    requires TrimStart(s) != "" || t == "" || !IsWhitespace(t[0])
    ensures TrimStart(s + t) == TrimStart(s) + t
  {
    if s == "" {
      assert s + t == t;
    } else if IsWhitespace(s[0]) {
      assert (s + t)[1..] == s[1..] + t;
      TrimStartConcat(s[1..], t);
    }
  }

  // ---------------------------------------------------------------- splitting

  /** Position of the first `c`, or the length of the text. */
  function IndexOf(s: string, c: char): (k: nat)
    ensures k <= |s|
    ensures forall i | 0 <= i < k :: s[i] != c
    ensures k < |s| ==> s[k] == c
  {
    if s == "" || s[0] == c then 0 else 1 + IndexOf(s[1..], c)
  }

  lemma IndexOfConcat(s: string, c: char, t: string)
    requires c !in s
    ensures IndexOf(s + [c] + t, c) == |s|
  {
    assert (s + [c] + t)[|s|] == c;
    var k := IndexOf(s + [c] + t, c);
    assert (s + [c] + t)[k] == c;
    assert forall i | 0 <= i < |s| :: (s + [c] + t)[i] == s[i] && s[i] in s;
  }

  /** `str::split_once` on a character. */
  function SplitOnce(s: string, c: char): Option<(string, string)> {
    var k := IndexOf(s, c);
    if k < |s| then Some((s[..k], s[k + 1..])) else None
  }

  /** `str::split` on a character: never empty. */
  function SplitOn(s: string, c: char): (parts: seq<string>)
    ensures |parts| > 0
  {
    var k := IndexOf(s, c);
    if k < |s| then [s[..k]] + SplitOn(s[k + 1..], c) else [s]
  }

  lemma SplitOnNone(s: string, c: char)
    requires c !in s
    ensures SplitOn(s, c) == [s]
  {
    assert forall i | 0 <= i < |s| :: s[i] in s;
  }

  lemma SplitOnFirst(s: string, c: char, t: string)
    requires c !in s
    ensures SplitOn(s + [c] + t, c) == [s] + SplitOn(t, c)
    ensures SplitOnce(s + [c] + t, c) == Some((s, t))
  {
    IndexOfConcat(s, c, t);
    assert (s + [c] + t)[..|s|] == s;
    assert (s + [c] + t)[|s| + 1..] == t;
  }

  /** The pieces contain no separator. */
  lemma {:induction false} SplitOnParts(s: string, c: char)
    ensures forall p | p in SplitOn(s, c) :: c !in p && forall x | x in p :: x in s
  {
    var k := IndexOf(s, c);
    if k >= |s| {
    } else {
      SplitOnParts(s[k + 1..], c);
      forall p | p in SplitOn(s, c)
        ensures c !in p && forall x | x in p :: x in s
      {
        if p != s[..k] { assert p in SplitOn(s[k + 1..], c); }
      }
    }
  }

  /** `str::replace` of one character by another. */
  function ReplaceChar(s: string, from: char, to: char): string {
    seq(|s|, i requires 0 <= i < |s| => if s[i] == from then to else s[i])
  }

  /** `[T]::join`. */
  function Join(parts: seq<string>, sep: string): string {
    if parts == [] then "" else if |parts| == 1 then parts[0] else parts[0] + sep + Join(parts[1..], sep)
  }
}
