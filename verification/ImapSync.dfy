/** One folder sync over a selected session: the loop that reads the `FETCH` items and the
    derivation of the next checkpoint. */
module ImapSync {
  import opened Wrappers
  import Decimal
  import opened ImapCheckpoint

  /** What `SELECT` reported; a server may leave either number out. */
  datatype SelectReply = SelectReply(uidNext: Option<u32>, uidValidity: Option<u32>)

  /** One read from the `FETCH` response stream. */
  datatype FetchItem =
    | Message(uid: Option<u32>)          // a message whose body or envelope was turned into an email
    | Unparsable                         // a body that is not a MIME message
    | ReadError                          // the stream failed
    | Stalled                            // no item within the per-item time limit

  datatype MailError = ImapError | FetchStalled | ParseFailed

  /** The emails a sync returns, each named by its UID, and the checkpoint to store. */
  datatype Synced = Synced(emails: seq<u32>, checkpoint: string)

  function Max(a: u32, b: u32): u32 { if a < b then b else a }

  /** `fetch_data.uid.unwrap_or(0)`. */
  function UidOf(item: FetchItem): u32 {
    if item.Message? && item.uid.Some? then item.uid.value else 0
  }

  /** The UIDs of a stream, or the error of the first item that has one. */
  function ReadItems(items: seq<FetchItem>): Result<seq<u32>, MailError> {
    if items == [] then Ok([])
    else
      match ReadItems(items[..|items| - 1])
      case Err(e) => Err(e)
      case Ok(uids) =>
        match items[|items| - 1]
        case Message(_) => Ok(uids + [UidOf(items[|items| - 1])])
        case Unparsable => Err(ParseFailed)
        case ReadError => Err(ImapError)
        case Stalled => Err(FetchStalled)
  }

  function MaxUid(uids: seq<u32>): u32 {
    if uids == [] then 0 else Max(MaxUid(uids[..|uids| - 1]), uids[|uids| - 1])
  }

  /** One past the highest UID seen, saturating at the largest 32-bit number. */
  function SaturatingNext(uid: u32): u32 {
    if uid == MAX_U32 then uid else uid + 1
  }

  function BoundaryUid(reply: SelectReply, maxUidSeen: u32): Option<u32> {
    if reply.uidNext.Some? then reply.uidNext
    else if maxUidSeen > 0 then Some(SaturatingNext(maxUidSeen))
    else None
  }

  function NextCheckpoint(since: Option<string>, reply: SelectReply, maxUidSeen: u32): string {
    match (reply.uidValidity, BoundaryUid(reply, maxUidSeen))
    case (Some(validity), Some(uid)) => FormatCheckpoint(validity, uid)
    case _ => if since.Some? then since.value else RESYNC_MARKER
  }

  /** What a whole sync returns, given the stored checkpoint and the server's replies. */
  function SyncResult(since: Option<string>, reply: SelectReply, items: seq<FetchItem>): Result<Synced, MailError> {
    match ReadItems(items)
    case Err(e) => Err(e)
    case Ok(uids) => Ok(Synced(uids, NextCheckpoint(since, reply, MaxUid(uids))))
  }

  lemma {:induction false} ReadErrorStays(items: seq<FetchItem>, k: nat)
    requires k <= |items| && ReadItems(items[..k]).Err?
    ensures ReadItems(items) == ReadItems(items[..k])
    decreases |items|
  {
    if k == |items| {
      assert items[..k] == items;
    } else {
      assert items[..|items| - 1][..k] == items[..k];
      ReadErrorStays(items[..|items| - 1], k);
    }
  }

  /** The checkpoint to store after a sync that returned these UIDs: the reported UIDVALIDITY and UIDNEXT; without
      UIDNEXT one past the highest UID, if there is one; otherwise what was stored, or the marker. */
  ghost predicate IsNext(since: Option<string>, reply: SelectReply, uids: seq<u32>, checkpoint: string) {
    if reply.uidValidity.Some? && reply.uidNext.Some? then
      checkpoint == Decimal.NatToString(reply.uidValidity.value) + ":" + Decimal.NatToString(reply.uidNext.value)
    else if reply.uidValidity.Some? && exists u :: u in uids && u > 0 then
      exists m :: m in uids && (forall u | u in uids :: u <= m)
                  && checkpoint == Decimal.NatToString(reply.uidValidity.value) + ":"
                                   + Decimal.NatToString(if m == 0xFFFF_FFFF then m else m + 1)
    else checkpoint == if since.Some? then since.value else "full-resync-required"
  }

  lemma NextIsNext(since: Option<string>, reply: SelectReply, uids: seq<u32>)
    ensures IsNext(since, reply, uids, NextCheckpoint(since, reply, MaxUid(uids)))
  {
    MaxUidBounds(uids);
    hide Decimal.NatToString, MaxUid;
  }

  /** The error of the first item that is no message. */
  predicate IsFirstError(items: seq<FetchItem>, k: nat, error: MailError) {
    && k < |items| && !items[k].Message? && (forall i | 0 <= i < k :: items[i].Message?)
    && (items[k].Unparsable? ==> error == ParseFailed)
    && (items[k].ReadError? ==> error == ImapError)
    && (items[k].Stalled? ==> error == FetchStalled)
  }

  /** `sync_folder_messages_with_session` after `SELECT` and `UID FETCH` were answered. The result is
      a success exactly when every item could be read, and it then carries their UIDs in order. */
  method SyncFolderMessages(since: Option<string>, reply: SelectReply, items: seq<FetchItem>)
    returns (r: Result<Synced, MailError>)
    ensures r == SyncResult(since, reply, items)
    ensures r.Ok? <==> forall i | 0 <= i < |items| :: items[i].Message?
    ensures r.Ok? ==>
              && |r.value.emails| == |items|
              && (forall i | 0 <= i < |items| ::
                    r.value.emails[i] == if items[i].uid.Some? then items[i].uid.value else 0)
              && IsNext(since, reply, r.value.emails, r.value.checkpoint)
    ensures r.Err? ==> exists k :: IsFirstError(items, k, r.error)
  {
    hide NextCheckpoint, IsNext;
    var emails: seq<u32> := [];
    var maxUidSeen: u32 := 0;
    var next := 0;
    while next < |items|
      invariant 0 <= next <= |items|
      invariant ReadItems(items[..next]) == Ok(emails)
      invariant maxUidSeen == MaxUid(emails)
      invariant |emails| == next
      invariant forall i | 0 <= i < next :: items[i].Message? && emails[i] == UidOf(items[i])
    {
      assert items[..next + 1][..next] == items[..next];
      var item := items[next];
      match item {
        case Stalled =>
          ReadErrorStays(items, next + 1);
          assert IsFirstError(items, next, FetchStalled);
          return Err(FetchStalled);
        case ReadError =>
          ReadErrorStays(items, next + 1);
          assert IsFirstError(items, next, ImapError);
          return Err(ImapError);
        case Unparsable =>
          ReadErrorStays(items, next + 1);
          assert IsFirstError(items, next, ParseFailed);
          return Err(ParseFailed);
        case Message(_) =>
          var uid := UidOf(item);
          maxUidSeen := Max(maxUidSeen, uid);
          assert (emails + [uid])[..next] == emails;
          emails := emails + [uid];
      }
      next := next + 1;
    }
    assert items[..next] == items;
    NextIsNext(since, reply, emails);
    r := Ok(Synced(emails, NextCheckpoint(since, reply, maxUidSeen)));
  }

  /** Every UID read is at most the maximum, and a positive maximum was read. */
  lemma {:induction false} MaxUidBounds(uids: seq<u32>)
    ensures forall u | u in uids :: u <= MaxUid(uids)
    ensures MaxUid(uids) > 0 ==> MaxUid(uids) in uids
  {
    if uids == [] {
    } else {
      var rest := uids[..|uids| - 1];
      MaxUidBounds(rest);
      assert uids == rest + [uids[|uids| - 1]];
    }
  }
}
