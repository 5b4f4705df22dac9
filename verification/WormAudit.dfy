/** The WORM audit log: records sealed by a MAC over their fields and the previous record's MAC. */
module WormAudit {
  import opened Wrappers

  type byte = b: int | 0 <= b < 256
  type Bytes = seq<byte>
  type u64 = n: int | 0 <= n < 0x1_0000_0000_0000_0000
  type i64 = n: int | -0x8000_0000_0000_0000 <= n < 0x8000_0000_0000_0000

  /** A 32-byte digest. */
  type Digest = d: Bytes | |d| == 32 witness seq(32, i => 0)

  /** HMAC-SHA256 of a message under a key, and SHA-256: any functions into 32 bytes. */
  type Hmac = (Bytes, Bytes) -> Digest
  type Sha256 = Bytes -> Digest

  /** Text is kept as its UTF-8 bytes. */
  datatype Record = Record(
    sequence: u64,
    timestampNs: i64,
    actor: Bytes,
    action: Bytes,
    dataHash: Bytes,
    previousBlockHash: Bytes,
    recordHmac: Bytes
  )

  datatype AuditError = TamperingDetected(sequence: u64, expectedHmac: Bytes, actualHmac: Bytes)

  /** "GENESIS". */
  const GENESIS: Bytes := [71, 69, 78, 69, 83, 73, 83]

  // ---------------------------------------------------------------- byte layout

  /** The low `width` bytes of `n`, most significant first. */
  function BigEndian(n: nat, width: nat): (b: Bytes)
    ensures |b| == width
  {
    if width == 0 then [] else BigEndian(n / 256, width - 1) + [n % 256]
  }

  function Pow256(width: nat): (p: nat)
    ensures p > 0
  {
    if width == 0 then 1 else 256 * Pow256(width - 1)
  }

  lemma {:induction false} BigEndianInjective(m: nat, n: nat, width: nat)
    requires m < Pow256(width) && n < Pow256(width)
    requires BigEndian(m, width) == BigEndian(n, width)
    ensures m == n
  {
    if width == 0 {
    } else {
      var a, b := BigEndian(m, width), BigEndian(n, width);
      assert a[..width - 1] == BigEndian(m / 256, width - 1);
      assert b[..width - 1] == BigEndian(n / 256, width - 1);
      assert a[width - 1] == b[width - 1];
      BigEndianInjective(m / 256, n / 256, width - 1);
    }
  }

  lemma EightBytes()
    ensures Pow256(8) == 0x1_0000_0000_0000_0000
  {
    assert Pow256(2) == 0x1_0000;
    assert Pow256(4) == 0x1_0000_0000;
    assert Pow256(6) == 0x1_0000_0000_0000;
  }

  /** `i64::to_be_bytes`: two's complement. */
  function TwosComplement(n: i64): nat {
    if n < 0 then n + 0x1_0000_0000_0000_0000 else n
  }

  function HexDigit(d: nat): (c: byte)
    requires d < 16
  {
    if d < 10 then 48 + d else 87 + d
  }

  predicate IsHexDigit(c: byte) { 48 <= c <= 57 || 97 <= c <= 102 }

  /** `hex::encode`. */
  function HexEncode(bytes: Bytes): (s: Bytes)
    ensures |s| == 2 * |bytes|
    ensures forall i | 0 <= i < |s| :: IsHexDigit(s[i])
  {
    if bytes == [] then [] else HexEncode(bytes[..|bytes| - 1]) + [HexDigit(bytes[|bytes| - 1] / 16), HexDigit(bytes[|bytes| - 1] % 16)]
  }

  lemma HexPairInjective(a: byte, b: byte)
    requires HexDigit(a / 16) == HexDigit(b / 16) && HexDigit(a % 16) == HexDigit(b % 16)
    ensures a == b
  {
    assert a == 16 * (a / 16) + a % 16 && b == 16 * (b / 16) + b % 16;
  }

  lemma {:induction false} HexInjective(a: Bytes, b: Bytes)
    requires HexEncode(a) == HexEncode(b)
    ensures a == b
  {
    if a == [] {
    } else {
      var n := |a| - 1;
      assert HexEncode(a)[..2 * n] == HexEncode(a[..n]);
      assert HexEncode(b)[..2 * n] == HexEncode(b[..n]);
      HexInjective(a[..n], b[..n]);
      assert HexEncode(a)[2 * n] == HexEncode(b)[2 * n] && HexEncode(a)[2 * n + 1] == HexEncode(b)[2 * n + 1];
      HexPairInjective(a[n], b[n]);
      assert a == a[..n] + [a[n]] && b == b[..n] + [b[n]];
    }
  }

  /** What is fed to the MAC: nothing separates actor, action and data hash. */
  function Message(r: Record): Bytes {
    BigEndian(r.sequence, 8) + BigEndian(TwosComplement(r.timestampNs), 8) + Payload(r) + r.previousBlockHash
  }

  function Payload(r: Record): Bytes { r.actor + r.action + r.dataHash }

  function ComputeHmac(mac: Hmac, key: Bytes, r: Record): Bytes {
    HexEncode(mac(key, Message(r)))
  }

  // ---------------------------------------------------------------- the layout, byte by byte

  /** The number whose base-256 digits the bytes are, the first one most significant. */
  function NumberOf(b: Bytes): nat {
    if b == [] then 0 else 256 * NumberOf(b[..|b| - 1]) + b[|b| - 1]
  }

  predicate EightDigits(b: Bytes, n: int) { |b| == 8 && NumberOf(b) == n }

  /** There is one way to write a number so. */
  lemma {:induction false} DigitsOnce(a: Bytes, b: Bytes)
    requires |a| == |b| && NumberOf(a) == NumberOf(b)
    ensures a == b
  {
    if a == [] {
    } else {
      DigitsOnce(a[..|a| - 1], b[..|b| - 1]);
      assert a == a[..|a| - 1] + [a[|a| - 1]] && b == b[..|b| - 1] + [b[|b| - 1]];
    }
  }

  /** The message of a record: sequence, timestamp modulo 2^64, actor, action, data hash, previous hash. */
  predicate IsLayout(m: Bytes, r: Record) {
    var (a, b, c) := (16 + |r.actor|, 16 + |r.actor| + |r.action|, 16 + |r.actor| + |r.action| + |r.dataHash|);
    && |m| == c + |r.previousBlockHash|
    && EightDigits(m[..8], r.sequence)
    && EightDigits(m[8..16], r.timestampNs % 0x1_0000_0000_0000_0000)
    && m[16..a] == r.actor
    && m[a..b] == r.action
    && m[b..c] == r.dataHash
    && m[c..] == r.previousBlockHash
  }

  const HEX_DIGITS: string := "0123456789abcdef"

  /** Two hexadecimal digits for each byte, the higher one first. */
  predicate IsHex(s: Bytes, bytes: Bytes) {
    && |s| == 2 * |bytes|
    && forall k | 0 <= k < |bytes| ::
         s[2 * k] == HEX_DIGITS[bytes[k] / 16] as int && s[2 * k + 1] == HEX_DIGITS[bytes[k] % 16] as int
  }

  lemma {:induction false} HexSpelled(bytes: Bytes)
    ensures IsHex(HexEncode(bytes), bytes)
  {
    if bytes == [] {
    } else {
      var front, last := bytes[..|bytes| - 1], bytes[|bytes| - 1];
      HexSpelled(front);
      DigitSpelled(last / 16);
      DigitSpelled(last % 16);
      hide HexDigit, HEX_DIGITS;
    }
  }

  lemma DigitSpelled(d: nat)
    requires d < 16
    ensures HexDigit(d) == HEX_DIGITS[d] as int
  {
  }

  lemma {:induction false} BigEndianNumber(n: nat, width: nat)
    requires n < Pow256(width)
    ensures NumberOf(BigEndian(n, width)) == n
  {
    if width == 0 {
    } else {
      BigEndianNumber(n / 256, width - 1);
      assert BigEndian(n, width)[..width - 1] == BigEndian(n / 256, width - 1);
    }
  }

  lemma BigEndianDigits(n: u64)
    ensures EightDigits(BigEndian(n, 8), n)
  {
    EightBytes();
    BigEndianNumber(n, 8);
  }

  lemma WrapOnce(n: i64)
    ensures TwosComplement(n) == n % 0x1_0000_0000_0000_0000 && TwosComplement(n) < 0x1_0000_0000_0000_0000
  {
  }

  lemma MessageLayout(r: Record)
    ensures IsLayout(Message(r), r)
  {
    WrapOnce(r.timestampNs);
    hide TwosComplement;
    BigEndianDigits(r.sequence);
    BigEndianDigits(TwosComplement(r.timestampNs));
    hide BigEndian, EightDigits;
    Sixteen(BigEndian(r.sequence, 8), BigEndian(TwosComplement(r.timestampNs), 8), r.actor, r.action, r.dataHash, r.previousBlockHash);
  }

  lemma Sixteen(a: Bytes, b: Bytes, c: Bytes, d: Bytes, e: Bytes, f: Bytes)
    requires |a| == 8 && |b| == 8
    ensures var m := a + b + (c + d + e) + f;
            var (x, y, z) := (16 + |c|, 16 + |c| + |d|, 16 + |c| + |d| + |e|);
            && |m| == z + |f| && m[..8] == a && m[8..16] == b && m[16..x] == c && m[x..y] == d && m[y..z] == e && m[z..] == f
  {
  }

  /** A record has one such message. */
  lemma LayoutOnce(m: Bytes, n: Bytes, r: Record)
    requires IsLayout(m, r) && IsLayout(n, r)
    ensures m == n
  {
    DigitsOnce(m[..8], n[..8]);
    DigitsOnce(m[8..16], n[8..16]);
    hide EightDigits, NumberOf;
    var (a, b, c) := (16 + |r.actor|, 16 + |r.actor| + |r.action|, 16 + |r.actor| + |r.action| + |r.dataHash|);
    assert m[c..|m|] == m[c..] && n[c..|n|] == n[c..];
    forall i | 0 <= i < |m|
      ensures m[i] == n[i]
    {
      hide IsLayout;
      if i < 8 { SliceAt(m, n, 0, 8, i); }
      else if i < 16 { SliceAt(m, n, 8, 16, i); }
      else if i < a { SliceAt(m, n, 16, a, i); }
      else if i < b { SliceAt(m, n, a, b, i); }
      else if i < c { SliceAt(m, n, b, c, i); }
      else { SliceAt(m, n, c, |m|, i); }
    }
  }

  lemma SliceAt(m: Bytes, n: Bytes, lo: nat, hi: nat, i: nat)
    requires lo <= i < hi <= |m| == |n| && m[lo..hi] == n[lo..hi]
    ensures m[i] == n[i]
  {
    assert m[lo..hi][i - lo] == m[i] && n[lo..hi][i - lo] == n[i];
  }

  /** The hexadecimal MAC of the record's layout. */
  ghost predicate IsSeal(mac: Hmac, key: Bytes, r: Record, hex: Bytes) {
    exists m :: IsLayout(m, r) && IsHex(hex, mac(key, m))
  }

  lemma SealIsHmac(mac: Hmac, key: Bytes, r: Record, hex: Bytes)
    ensures IsSeal(mac, key, r, hex) <==> hex == ComputeHmac(mac, key, r)
  {
    hide IsLayout, IsHex, Message, HexEncode;
    MessageLayout(r);
    HexSpelled(mac(key, Message(r)));
    forall m | IsLayout(m, r) && IsHex(hex, mac(key, m))
      ensures hex == ComputeHmac(mac, key, r)
    {
      LayoutOnce(m, Message(r), r);
      HexOnce(hex, HexEncode(mac(key, m)), mac(key, m));
    }
  }

  lemma HexOnce(s: Bytes, t: Bytes, bytes: Bytes)
    requires IsHex(s, bytes) && IsHex(t, bytes)
    ensures s == t
  {
    forall i | 0 <= i < |s|
      ensures s[i] == t[i]
    {
      var k := i / 2;
      assert i == 2 * k || i == 2 * k + 1;
      assert s[2 * k] == t[2 * k] && s[2 * k + 1] == t[2 * k + 1];
    }
  }

  /** A MAC being fed piece by piece. */
  class MacState {
    const mac: Hmac
    const key: Bytes
    var fed: Bytes

    constructor (mac: Hmac, key: Bytes)
      ensures this.mac == mac && this.key == key && fed == []
    {
      this.mac := mac;
      this.key := key;
      this.fed := [];
    }

    method Update(data: Bytes)
      modifies this
      ensures fed == old(fed) + data
    {
      fed := fed + data;
    }

    method Finalize() returns (d: Digest)
      ensures d == mac(key, fed)
    {
      d := mac(key, fed);
    }
  }

  /** `compute_hmac`: six updates, in the order of the layout. */
  method FeedHmac(mac: Hmac, key: Bytes, r: Record) returns (hex: Bytes)
    ensures hex == ComputeHmac(mac, key, r)
    ensures exists m :: IsLayout(m, r) && IsHex(hex, mac(key, m))
    ensures |hex| == 64 && forall i | 0 <= i < |hex| :: IsHexDigit(hex[i])
  {
    var state := new MacState(mac, key);
    state.Update(BigEndian(r.sequence, 8));
    state.Update(BigEndian(TwosComplement(r.timestampNs), 8));
    state.Update(r.actor);
    state.Update(r.action);
    state.Update(r.dataHash);
    state.Update(r.previousBlockHash);
    assert state.fed == Message(r);
    var digest := state.Finalize();
    hex := HexEncode(digest);
    MessageLayout(r);
    HexSpelled(digest);
    hide Message, IsLayout, HexEncode, IsHex;
    assert IsLayout(state.fed, r) && IsHex(hex, mac(key, state.fed));
  }

  // ---------------------------------------------------------------- sealing and verification

  function CreateSigned(mac: Hmac, sha: Sha256, key: Bytes, sequence: u64, timestampNs: i64, actor: Bytes,
                        action: Bytes, data: Bytes, previousBlockHash: Bytes): Record {
    var r := Record(sequence, timestampNs, actor, action, HexEncode(sha(data)), previousBlockHash, []);
    r.(recordHmac := ComputeHmac(mac, key, r))
  }

  function VerifyIntegrity(mac: Hmac, key: Bytes, r: Record): Result<(), AuditError> {
    var expected := ComputeHmac(mac, key, r);
    if expected == r.recordHmac then Ok(()) else Err(TamperingDetected(r.sequence, expected, r.recordHmac))
  }

  /** The hash record `i` has to carry as its previous one. */
  function Predecessor(records: seq<Record>, i: nat): Bytes
    requires i <= |records|
  {
    if i == 0 then GENESIS else records[i - 1].recordHmac
  }

  /** Record `i` links to its predecessor and carries its own HMAC. */
  predicate Sound(mac: Hmac, key: Bytes, records: seq<Record>, i: nat)
    requires i < |records|
  {
    && records[i].previousBlockHash == Predecessor(records, i)
    && records[i].recordHmac == ComputeHmac(mac, key, records[i])
  }

  predicate Verified(mac: Hmac, key: Bytes, records: seq<Record>) {
    forall i | 0 <= i < |records| :: Sound(mac, key, records, i)
  }

  lemma SoundPrefix(mac: Hmac, key: Bytes, records: seq<Record>, n: nat)
    requires n <= |records| && forall i | 0 <= i < n :: Sound(mac, key, records, i)
    ensures Verified(mac, key, records[..n])
  {
    forall i | 0 <= i < n
      ensures Sound(mac, key, records[..n], i)
    {
      assert Sound(mac, key, records, i);
    }
  }

  /** The bytes of the word GENESIS. */
  predicate IsGenesis(p: Bytes) { |p| == 7 && forall k | 0 <= k < 7 :: p[k] == "GENESIS"[k] as int }

  /** The record names the MAC of the one before it, or the genesis marker, and carries the MAC of its own layout. */
  ghost predicate IsChained(mac: Hmac, key: Bytes, records: seq<Record>, i: nat)
    requires i < |records|
  {
    && IsLinked(records, i)
    && IsSeal(mac, key, records[i], records[i].recordHmac)
  }

  predicate IsLinked(records: seq<Record>, i: nat)
    requires i < |records|
  {
    if i == 0 then IsGenesis(records[i].previousBlockHash) else records[i].previousBlockHash == records[i - 1].recordHmac
  }

  lemma GenesisSpelled(p: Bytes)
    ensures IsGenesis(p) <==> p == GENESIS
  {
  }

  lemma SoundIsChained(mac: Hmac, key: Bytes, records: seq<Record>, i: nat)
    requires i < |records|
    ensures IsLinked(records, i) <==> records[i].previousBlockHash == Predecessor(records, i)
    ensures Sound(mac, key, records, i) <==> IsChained(mac, key, records, i)
  {
    hide IsGenesis, GENESIS, IsSeal, ComputeHmac;
    GenesisSpelled(records[i].previousBlockHash);
    SealIsHmac(mac, key, records[i], records[i].recordHmac);
  }

  lemma VerifiedIsChained(mac: Hmac, key: Bytes, records: seq<Record>)
    ensures Verified(mac, key, records) <==> forall i | 0 <= i < |records| :: IsChained(mac, key, records, i)
  {
    forall i | 0 <= i < |records|
      ensures Sound(mac, key, records, i) <==> IsChained(mac, key, records, i)
    {
      SoundIsChained(mac, key, records, i);
    }
    hide Sound, IsChained;
  }

  /** What a rejection reports about the first record out of the chain: the hash it should name, or the MAC it should
      carry, and what it has instead. */
  ghost predicate Reports(mac: Hmac, key: Bytes, records: seq<Record>, k: nat, error: AuditError)
    requires k < |records|
  {
    && error.sequence == records[k].sequence
    && if IsLinked(records, k) then IsSeal(mac, key, records[k], error.expectedHmac) && error.actualHmac == records[k].recordHmac
       else && (if k == 0 then IsGenesis(error.expectedHmac) else error.expectedHmac == records[k - 1].recordHmac)
            && error.actualHmac == records[k].previousBlockHash
  }

  lemma ReportMeaning(mac: Hmac, key: Bytes, records: seq<Record>, k: nat)
    requires k < |records|
    ensures if IsLinked(records, k)
            then Reports(mac, key, records, k, TamperingDetected(records[k].sequence, ComputeHmac(mac, key, records[k]), records[k].recordHmac))
            else Reports(mac, key, records, k, TamperingDetected(records[k].sequence, Predecessor(records, k), records[k].previousBlockHash))
  {
    hide IsGenesis, GENESIS, IsSeal, ComputeHmac;
    GenesisSpelled(Predecessor(records, k));
    SealIsHmac(mac, key, records[k], ComputeHmac(mac, key, records[k]));
  }

  /** `verify_worm_chain` accepts exactly the chains in which every record is sound; a rejection names
      the first record that is not, and the chain before it verifies. */
  method VerifyWormChain(mac: Hmac, key: Bytes, records: seq<Record>) returns (r: Result<(), AuditError>)
    ensures r.Ok? <==> forall i | 0 <= i < |records| :: IsChained(mac, key, records, i)
    ensures r.Err? ==> exists k | 0 <= k < |records| ::
              && (forall i | 0 <= i < k :: IsChained(mac, key, records, i))
              && !IsChained(mac, key, records, k)
              && Reports(mac, key, records, k, r.error)
    ensures r.Ok? <==> Verified(mac, key, records)
    ensures r.Err? ==> exists k ::
              && 0 <= k < |records|
              && Verified(mac, key, records[..k])
              && !Sound(mac, key, records, k)
              && r.error.sequence == records[k].sequence
              && r.error == (if records[k].previousBlockHash != Predecessor(records, k)
                             then TamperingDetected(records[k].sequence, Predecessor(records, k), records[k].previousBlockHash)
                             else TamperingDetected(records[k].sequence, ComputeHmac(mac, key, records[k]), records[k].recordHmac))
  {
    hide IsChained, IsLinked, Reports, Message, HexEncode;
    VerifiedIsChained(mac, key, records);
    var lastHash := GENESIS;
    var i := 0;
    while i < |records|
      invariant 0 <= i <= |records|
      invariant lastHash == Predecessor(records, i)
      invariant forall j | 0 <= j < i :: Sound(mac, key, records, j) && IsChained(mac, key, records, j)
    {
      var record := records[i];
      SoundPrefix(mac, key, records, i);
      SoundIsChained(mac, key, records, i);
      ReportMeaning(mac, key, records, i);
      if record.previousBlockHash != lastHash {
        assert !Sound(mac, key, records, i);
        return Err(TamperingDetected(record.sequence, lastHash, record.previousBlockHash));
      }
      var intact := VerifyIntegrity(mac, key, record);
      if intact.Err? {
        assert !Sound(mac, key, records, i);
        return intact;
      }
      lastHash := record.recordHmac;
      i := i + 1;
    }
    r := Ok(());
  }

  // ---------------------------------------------------------------- logs grown by signing

  datatype Entry = Entry(sequence: u64, timestampNs: i64, actor: Bytes, action: Bytes, data: Bytes)

  /** The log obtained by signing each entry onto the last HMAC. */
  function GrowLog(mac: Hmac, sha: Sha256, key: Bytes, entries: seq<Entry>): (log: seq<Record>)
    ensures |log| == |entries|
  {
    if entries == [] then []
    else
      var log := GrowLog(mac, sha, key, entries[..|entries| - 1]);
      var e := entries[|entries| - 1];
      log + [CreateSigned(mac, sha, key, e.sequence, e.timestampNs, e.actor, e.action, e.data, Predecessor(log, |log|))]
  }

  lemma {:induction false} GrownLogVerifies(mac: Hmac, sha: Sha256, key: Bytes, entries: seq<Entry>)
    ensures Verified(mac, key, GrowLog(mac, sha, key, entries))
  {
    if entries == [] {
    } else {
      GrownLogVerifies(mac, sha, key, entries[..|entries| - 1]);
      var shorter := GrowLog(mac, sha, key, entries[..|entries| - 1]);
      var log := GrowLog(mac, sha, key, entries);
      var last := log[|shorter|];
      assert Message(last) == Message(last.(recordHmac := []));
      forall i | 0 <= i < |log|
        ensures Sound(mac, key, log, i)
      {
        if i < |shorter| { assert Sound(mac, key, shorter, i); }
      }
    }
  }

  // ---------------------------------------------------------------- what the last HMAC fixes

  predicate IsHexDigest(s: Bytes) {
    |s| == 64 && forall i | 0 <= i < |s| :: IsHexDigit(s[i])
  }

  /** Two records agree on everything the MAC separates: all but the cut points between actor, action
      and data hash. */
  predicate SameContent(a: Record, b: Record) {
    && a.sequence == b.sequence
    && a.timestampNs == b.timestampNs
    && Payload(a) == Payload(b)
    && a.previousBlockHash == b.previousBlockHash
  }

  /** A previous hash is a hex digest or the genesis marker, which ends in a byte no digest contains;
      so the message determines where the previous hash begins, and with it everything else. */
  lemma MessageFixesContent(a: Record, b: Record)
    requires IsHexDigest(a.previousBlockHash) || a.previousBlockHash == GENESIS
    requires IsHexDigest(b.previousBlockHash) || b.previousBlockHash == GENESIS
    ensures Message(a) == Message(b) <==> SameContent(a, b)
  {
    if Message(a) == Message(b) {
      var m, n := Message(a), Message(b);
      assert m[|m| - 1] == a.previousBlockHash[|a.previousBlockHash| - 1];
      assert n[|n| - 1] == b.previousBlockHash[|b.previousBlockHash| - 1];
      assert |a.previousBlockHash| == |b.previousBlockHash|;
      var k := |m| - |a.previousBlockHash|;
      assert m[k..] == a.previousBlockHash && n[k..] == b.previousBlockHash;
      assert m[16..k] == Payload(a) && n[16..k] == Payload(b);
      assert m[..8] == BigEndian(a.sequence, 8) && n[..8] == BigEndian(b.sequence, 8);
      assert m[8..16] == BigEndian(TwosComplement(a.timestampNs), 8) && n[8..16] == BigEndian(TwosComplement(b.timestampNs), 8);
      EightBytes();
      BigEndianInjective(a.sequence, b.sequence, 8);
      BigEndianInjective(TwosComplement(a.timestampNs), TwosComplement(b.timestampNs), 8);
    }
  }

  /** Some record of one log and some record of the other were fed different messages and got the same MAC. */
  ghost predicate Collide(mac: Hmac, key: Bytes, c: seq<Record>, d: seq<Record>) {
    exists i, j | 0 <= i < |c| && 0 <= j < |d| ::
      Message(c[i]) != Message(d[j]) && mac(key, Message(c[i])) == mac(key, Message(d[j]))
  }

  predicate SameHistory(c: seq<Record>, d: seq<Record>) {
    |c| == |d| && forall i | 0 <= i < |c| :: SameContent(c[i], d[i]) && c[i].recordHmac == d[i].recordHmac
  }

  lemma LinkShape(mac: Hmac, key: Bytes, c: seq<Record>, i: nat)
    requires Verified(mac, key, c) && i < |c|
    ensures IsHexDigest(c[i].recordHmac)
    ensures if i == 0 then c[i].previousBlockHash == GENESIS else IsHexDigest(c[i].previousBlockHash)
  {
    assert Sound(mac, key, c, i);
    if i > 0 { assert Sound(mac, key, c, i - 1); }
  }

  /** What was found in the logs before their last records holds of the logs. */
  lemma EarlierStays(mac: Hmac, key: Bytes, c: seq<Record>, d: seq<Record>, i: nat, j: nat)
    requires i == |c| - 1 && j == |d| - 1 && SameContent(c[i], d[j]) && c[i].recordHmac == d[j].recordHmac
    requires SameHistory(c[..i], d[..j]) || Collide(mac, key, c[..i], d[..j])
    ensures SameHistory(c, d) || Collide(mac, key, c, d)
  {
    hide Message, SameContent;
    var c', d' := c[..i], d[..j];
    if Collide(mac, key, c', d') {
      var k, l :| 0 <= k < |c'| && 0 <= l < |d'| && Message(c'[k]) != Message(d'[l]) && mac(key, Message(c'[k])) == mac(key, Message(d'[l]));
      assert Message(c[k]) != Message(d[l]);
    } else {
      assert forall k | 0 <= k < i :: c[k] == c'[k] && d[k] == d'[k];
    }
  }

  /** The last HMAC fixes the whole history, its length included: two non-empty verified logs under one
      key that end in the same HMAC agree record by record, unless the MAC gave the same value to two
      different messages occurring in them. */
  lemma {:induction false} LastHmacFixesHistory(mac: Hmac, key: Bytes, c: seq<Record>, d: seq<Record>)
    requires Verified(mac, key, c) && Verified(mac, key, d) && c != [] && d != []
    requires c[|c| - 1].recordHmac == d[|d| - 1].recordHmac
    ensures SameHistory(c, d) || Collide(mac, key, c, d)
    decreases |c|
  {
    var i, j := |c| - 1, |d| - 1;
    assert Sound(mac, key, c, i) && Sound(mac, key, d, j);
    HexInjective(mac(key, Message(c[i])), mac(key, Message(d[j])));
    if Message(c[i]) == Message(d[j]) {
      LinkShape(mac, key, c, i);
      LinkShape(mac, key, d, j);
      MessageFixesContent(c[i], d[j]);
      hide Message, Sound;
      if i > 0 && j > 0 {
        SoundPrefix(mac, key, c, i);
        SoundPrefix(mac, key, d, j);
        LastHmacFixesHistory(mac, key, c[..i], d[..j]);
        EarlierStays(mac, key, c, d, i, j);
      } else {
        assert |c[i].previousBlockHash| == |d[j].previousBlockHash|;
      }
    }
  }

  predicate SameEntry(sha: Sha256, e: Entry, f: Entry) {
    && e.sequence == f.sequence
    && e.timestampNs == f.timestampNs
    && e.actor + e.action == f.actor + f.action
    && sha(e.data) == sha(f.data)
  }

  /** For logs grown by signing, each data hash has a fixed width, so the last HMAC also fixes every
      data hash and every actor followed by its action. */
  lemma LastHmacFixesGrownLog(mac: Hmac, sha: Sha256, key: Bytes, es: seq<Entry>, fs: seq<Entry>,
                              c: seq<Record>, d: seq<Record>)
    requires c == GrowLog(mac, sha, key, es) && d == GrowLog(mac, sha, key, fs) && c != [] && d != []
    requires c[|c| - 1].recordHmac == d[|d| - 1].recordHmac
    requires !Collide(mac, key, c, d)
    ensures |es| == |fs|
    ensures forall i | 0 <= i < |es| :: SameEntry(sha, es[i], fs[i])
  {
    hide GrowLog, HexEncode, Message, CreateSigned, Verified, Sound, Collide, Payload;
    GrownLogVerifies(mac, sha, key, es);
    GrownLogVerifies(mac, sha, key, fs);
    LastHmacFixesHistory(mac, key, c, d);
    forall i | 0 <= i < |es|
      ensures SameEntry(sha, es[i], fs[i])
    {
      GrownRecord(mac, sha, key, es, i);
      GrownRecord(mac, sha, key, fs, i);
      assert SameContent(c[i], d[i]);
      PayloadSplits(c[i], d[i]);
      HexInjective(sha(es[i].data), sha(fs[i].data));
    }
  }

  lemma PayloadSplits(a: Record, b: Record)
    requires |a.dataHash| == |b.dataHash| && Payload(a) == Payload(b)
    ensures a.dataHash == b.dataHash && a.actor + a.action == b.actor + b.action
  {
    var p, n := Payload(a), |a.dataHash|;
    assert p[..|p| - n] == a.actor + a.action && p[..|p| - n] == b.actor + b.action;
    assert p[|p| - n..] == a.dataHash && p[|p| - n..] == b.dataHash;
  }

  lemma {:induction false} GrownRecord(mac: Hmac, sha: Sha256, key: Bytes, es: seq<Entry>, i: nat)
    requires i < |es|
    ensures var r := GrowLog(mac, sha, key, es)[i];
            && r.sequence == es[i].sequence && r.timestampNs == es[i].timestampNs
            && r.actor == es[i].actor && r.action == es[i].action
            && r.dataHash == HexEncode(sha(es[i].data)) && |r.dataHash| == 64
  {
    if i == |es| - 1 {
    } else {
      GrownRecord(mac, sha, key, es[..|es| - 1], i);
    }
  }
}
