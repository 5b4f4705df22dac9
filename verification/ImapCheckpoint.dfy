/** The folder checkpoint text "{uidvalidity}:{uidnext}", how it is read back, and the
    `UID FETCH` sequence set it leads to. */
module ImapCheckpoint {
  import opened Wrappers
  import opened Text
  import opened Decimal

  const MAX_U32: nat := 0xFFFF_FFFF

  type u32 = x: int | 0 <= x <= 0xFFFF_FFFF

  const DELIM: char := ':'
  const RESYNC_MARKER: string := "full-resync-required"

  /** The four ways a stored checkpoint can be resolved; all but the last fetch everything. */
  datatype FetchRange =
    | Full
    | CorruptCheckpoint
    | UidValidityChanged(stored: u32, current: Option<u32>)
    | Incremental(uid: u32)
  {
    /** The sequence set put in the `UID FETCH` command. */
    function SequenceSet(): string {
      match this
      case Incremental(uid) => NatToString(uid) + ":*"
      case _ => "1:*"
    }
  }

  function ParseU32(s: string): Option<u32> {
    match ParseUnsigned(s, MAX_U32)
    case Some(n) => Some(n)
    case None => None
  }

  /** Both halves of a checkpoint, or None when it is malformed. */
  function ParseCheckpoint(raw: string): Option<(u32, u32)> {
    match SplitOnce(raw, DELIM)
    case None => None
    case Some((validity, uid)) =>
      match (ParseU32(Trim(validity)), ParseU32(Trim(uid)))
      case (Some(v), Some(u)) => Some((v, u))
      case _ => None
  }

  function ResolveFetchRange(since: Option<string>, current: Option<u32>): FetchRange {
    match since
    case None => Full
    case Some(raw) =>
      match ParseCheckpoint(raw)
      case None => CorruptCheckpoint
      case Some((stored, uid)) =>
        if uid < 1 then CorruptCheckpoint
        else if current == Some(stored) then Incremental(uid)
        else UidValidityChanged(stored, current)
  }

  function FormatCheckpoint(validity: u32, uid: u32): string {
    NatToString(validity) + [DELIM] + NatToString(uid)
  }

  // ---------------------------------------------------------------- the codec

  lemma NumeralIsBare(n: nat)
    ensures Trim(NatToString(n)) == NatToString(n)
    ensures DELIM !in NatToString(n)
  {
    var s := NatToString(n);
    assert IsDigit(s[0]) && IsDigit(s[|s| - 1]);
  }

  /** A checkpoint that was formatted parses back to the pair it was formatted from. */
  lemma FormattedCheckpointParses(validity: u32, uid: u32)
    ensures ParseCheckpoint(FormatCheckpoint(validity, uid)) == Some((validity, uid))
  {
    NumeralIsBare(validity);
    NumeralIsBare(uid);
    SplitOnFirst(NatToString(validity), DELIM, NatToString(uid));
    ParsePrinted(validity, MAX_U32);
    ParsePrinted(uid, MAX_U32);
  }

  /** Whitespace around either number is no matter, and a next UID of zero is corrupt. */
  lemma PaddedCheckpointRead(validity: u32, uid: u32, current: Option<u32>, raw: string, l: string, m: string, n: string, r: string)
    requires (forall c | c in l :: IsWhitespace(c)) && (forall c | c in m :: IsWhitespace(c))
    requires (forall c | c in n :: IsWhitespace(c)) && (forall c | c in r :: IsWhitespace(c))
    requires raw == l + NatToString(validity) + m + ":" + n + NatToString(uid) + r
    ensures ResolveFetchRange(Some(raw), current) ==
            if uid == 0 then CorruptCheckpoint
            else if current == Some(validity) then Incremental(uid)
            else UidValidityChanged(validity, current)
  {
    var (low, high) := (l + NatToString(validity) + m, n + NatToString(uid) + r);
    assert raw == low + [':'] + high;
    NoColon(l, validity, m);
    hide *;
    SplitOnFirst(low, ':', high);
    NumeralDigits(validity);
    NumeralDigits(uid);
    PaddedNumeral(l, NatToString(validity), m);
    PaddedNumeral(n, NatToString(uid), r);
    ParsePrinted(validity, 0xFFFF_FFFF);
    ParsePrinted(uid, 0xFFFF_FFFF);
    HalvesRead(raw, low, high, validity, uid, current);
  }

  lemma NoColon(l: string, n: nat, m: string)
    requires (forall c | c in l :: IsWhitespace(c)) && (forall c | c in m :: IsWhitespace(c))
    ensures ':' !in l + NatToString(n) + m
  {
    NumeralIsBare(n);
    hide NatToString;
    assert !IsWhitespace(':');
  }

  lemma NumeralDigits(n: nat)
    ensures NatToString(n) != "" && AllDigits(NatToString(n))
  {
  }

  lemma HalvesRead(raw: string, low: string, high: string, validity: u32, uid: u32, current: Option<u32>)
    requires SplitOnce(raw, ':') == Some((low, high))
    requires ParseUnsigned(Trim(low), 0xFFFF_FFFF) == Some(validity) && ParseUnsigned(Trim(high), 0xFFFF_FFFF) == Some(uid)
    ensures ResolveFetchRange(Some(raw), current) ==
            if uid == 0 then CorruptCheckpoint
            else if current == Some(validity) then Incremental(uid)
            else UidValidityChanged(validity, current)
  {
    hide SplitOnce, ParseUnsigned, Trim;
  }

  lemma {:induction false} PaddedNumeral(before: string, s: string, behind: string)
    requires s != "" && AllDigits(s) && (forall c | c in before :: IsWhitespace(c)) && (forall c | c in behind :: IsWhitespace(c))
    ensures Trim(before + s + behind) == s
  {
    assert IsDigit(s[0]) && IsDigit(s[|s| - 1]);
    if before != "" {
      assert before[0] in before && (before + s + behind)[1..] == before[1..] + s + behind;
      assert forall c | c in before[1..] :: c in before;
      PaddedNumeral(before[1..], s, behind);
    } else if behind != "" {
      var text := before + s + behind;
      assert behind[|behind| - 1] in behind && text[..|text| - 1] == before + s + behind[..|behind| - 1];
      assert forall c | c in behind[..|behind| - 1] :: c in behind;
      PaddedNumeral(before, s, behind[..|behind| - 1]);
      assert text[0] == s[0];
    } else {
      assert before + s + behind == s;
      TrimIdentity(s);
    }
  }

  /** The stored texts themselves: two numerals around a colon, and the marker that asks for everything. */
  lemma CheckpointTexts(validity: u32, uid: u32)
    ensures FormatCheckpoint(validity, uid) == NatToString(validity) + ":" + NatToString(uid)
    ensures RESYNC_MARKER == "full-resync-required"
  {
  }

  /** A formatted checkpoint is resumed exactly under the UIDVALIDITY it was written for; any other
      current UIDVALIDITY, or none, is reported as a change carrying the stored one. */
  lemma CheckpointCodec(validity: u32, uid: u32, current: Option<u32>)
    requires uid >= 1
    ensures var range := ResolveFetchRange(Some(FormatCheckpoint(validity, uid)), current);
            if current == Some(validity) then range == Incremental(uid)
            else range == UidValidityChanged(validity, current)
  {
    FormattedCheckpointParses(validity, uid);
  }

  /** Text without the delimiter, the resync marker and legacy bare numbers among it, never narrows
      a fetch. */
  lemma BareTextIsCorrupt(raw: string, current: Option<u32>)
    requires DELIM !in raw
    ensures ResolveFetchRange(Some(raw), current) == CorruptCheckpoint
    ensures DELIM !in RESYNC_MARKER
  {
    assert forall i | 0 <= i < |raw| :: raw[i] in raw;
  }

  /** Distinct checkpoints have distinct texts. */
  lemma FormatInjective(v1: u32, u1: u32, v2: u32, u2: u32)
    requires FormatCheckpoint(v1, u1) == FormatCheckpoint(v2, u2)
    ensures v1 == v2 && u1 == u2
  {
    FormattedCheckpointParses(v1, u1);
    FormattedCheckpointParses(v2, u2);
  }

  // ---------------------------------------------------------------- the server's side of a sequence set

  /** A server's reading of the sequence set "n:*" (section 9 of RFC 3501): its lower end. */
  function ReadSequenceSet(text: string): Option<u32> {
    match SplitOnce(text, ':')
    case Some((low, "*")) => ParseU32(low)
    case _ => None
  }

  /** The lowest UID a resolved range asks for. */
  function LowestUid(range: FetchRange): u32 {
    if range.Incremental? then range.uid else 1
  }

  lemma SequenceSetRead(range: FetchRange)
    ensures ReadSequenceSet(range.SequenceSet()) == Some(LowestUid(range))
  {
    LowestPrinted(range);
    hide *;
    var low := NatToString(LowestUid(range));
    NumeralIsBare(LowestUid(range));
    ParsePrinted(LowestUid(range), MAX_U32);
    SplitOnFirst(low, ':', "*");
    LowerRead(low, LowestUid(range));
  }

  lemma LowestPrinted(range: FetchRange)
    ensures var low := NatToString(LowestUid(range)); range.SequenceSet() == low + [':'] + "*" && LowestUid(range) <= MAX_U32
    ensures ':' == DELIM
  {
    assert NatToString(1) == "1";
  }

  lemma LowerRead(low: string, uid: u32)
    requires SplitOnce(low + [':'] + "*", ':') == Some((low, "*")) && ParseUnsigned(low, MAX_U32) == Some(uid)
    ensures ReadSequenceSet(low + [':'] + "*") == Some(uid)
  {
    hide SplitOnce, ParseUnsigned;
  }

  /** The messages "n:*" selects (section 6.4.8 of RFC 3501): those from n up, and always the
      highest one, even when it lies below n. */
  ghost function UidFetch(messages: set<u32>, low: u32): set<u32> {
    set m | m in messages && (low <= m || IsHighest(messages, m))
  }

  ghost predicate IsHighest(messages: set<u32>, m: u32) {
    m in messages && forall k | k in messages :: k <= m
  }

  /** An incremental fetch returns at most one message below its boundary: the mailbox's highest,
      and only when nothing at or above the boundary exists. */
  lemma AtMostOneRedelivered(messages: set<u32>, low: u32, a: u32, b: u32)
    requires a in UidFetch(messages, low) && a < low
    ensures IsHighest(messages, a) && forall k | k in messages :: k < low
    ensures b in UidFetch(messages, low) ==> b == a
  {
    if b in UidFetch(messages, low) {
      assert b <= a;
    }
  }
}
