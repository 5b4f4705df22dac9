/** Repeated syncs of one folder against a server that keeps delivering, expunging and now and then
    recreating the mailbox. The stored checkpoint is the text the previous sync returned. */
module ImapProtocol {
  import opened Wrappers
  import opened ImapCheckpoint
  import opened ImapSync

  /** The mailbox: its UIDVALIDITY, the UIDs present, the next UID it would assign (2^32 once the
      largest UID is taken), and every UIDVALIDITY it has ever had. */
  datatype Server = Server(validity: u32, messages: set<u32>, uidNext: nat, used: set<u32>)

  datatype Session = Idle | Selected(reply: SelectReply)

  /** `delivered` records, per UIDVALIDITY, the UIDs that a successful sync has returned. */
  datatype State = State(server: Server, session: Session, stored: Option<string>, delivered: set<(u32, u32)>)

  /** What can happen next. Deliveries and expunges may fall anywhere, also between the `SELECT` and
      the `FETCH` of a sync; the UIDVALIDITY is stable within a session. */
  datatype Step =
    | Deliver(uid: u32, uidNext: nat)
    | Expunge(gone: set<u32>)
    | Recreate(validity: u32, messages: set<u32>, uidNext: nat)
    | Select(reply: SelectReply)
    | SyncSucceeds(items: seq<FetchItem>)
    | SyncFails                             // a refused command, a stalled or broken stream, an unreadable body

  ghost predicate ServerValid(server: Server) {
    && server.validity in server.used
    && 1 <= server.uidNext
    && forall m | m in server.messages :: 1 <= m < server.uidNext
  }

  ghost predicate Init(s: State) {
    && ServerValid(s.server)
    && s.session == Idle
    && s.delivered == {}
    && (s.stored.Some? ==> ParseCheckpoint(s.stored.value).None?)
  }

  /** A truthful `SELECT` reply: each number is the mailbox's own or left out. */
  predicate Truthful(server: Server, reply: SelectReply) {
    && (reply.uidValidity.Some? ==> reply.uidValidity.value == server.validity)
    && (reply.uidNext.Some? ==> reply.uidNext.value == server.uidNext)
  }

  /** The sequence set the client sends in the current session. */
  function RequestedLow(s: State): Option<u32>
    requires s.session.Selected?
  {
    ReadSequenceSet(ResolveFetchRange(s.stored, s.session.reply.uidValidity).SequenceSet())
  }

  /** The stream answers `UID FETCH low:*` in full: every selected message, each with its UID. */
  ghost predicate Answers(server: Server, low: u32, items: seq<FetchItem>) {
    && (forall i | 0 <= i < |items| && items[i].Message? :: items[i].uid.Some? && items[i].uid.value in UidFetch(server.messages, low))
    && (forall m | m in UidFetch(server.messages, low) :: exists i :: 0 <= i < |items| && items[i] == Message(Some(m)))
  }

  ghost predicate Next(s: State, step: Step, t: State) {
    match step
    case Deliver(uid, uidNext) =>
      && s.server.uidNext <= uid < uidNext
      && t == s.(server := s.server.(messages := s.server.messages + {uid}, uidNext := uidNext))
    case Expunge(gone) =>
      t == s.(server := s.server.(messages := s.server.messages - gone))
    case Recreate(validity, messages, uidNext) =>
      && s.session == Idle
      && validity !in s.server.used
      && 1 <= uidNext
      && (forall m | m in messages :: 1 <= m < uidNext)
      && t == s.(server := Server(validity, messages, uidNext, s.server.used + {validity}))
    case Select(reply) =>
      && s.session == Idle
      && Truthful(s.server, reply)
      && t == s.(session := Selected(reply))
    case SyncSucceeds(items) =>
      && s.session.Selected?
      && RequestedLow(s).Some?
      && Answers(s.server, RequestedLow(s).value, items)
      && var r := SyncResult(s.stored, s.session.reply, items);
      && r.Ok?
      && t == s.(session := Idle,
                 stored := Some(r.value.checkpoint),
                 delivered := s.delivered + Returned(s.server.validity, r.value.emails))
    case SyncFails =>
      && s.session.Selected?
      && t == s.(session := Idle)
  }

  function Returned(validity: u32, uids: seq<u32>): set<(u32, u32)> {
    set u | u in uids :: (validity, u)
  }

  datatype Run = Run(states: seq<State>, steps: seq<Step>)

  ghost predicate IsRun(run: Run) {
    && |run.states| == |run.steps| + 1
    && Init(run.states[0])
    && forall i {:trigger run.steps[i]} | 0 <= i < |run.steps| :: Next(run.states[i], run.steps[i], run.states[i + 1])
  }

  // ---------------------------------------------------------------- what every step keeps

  /** The pair a stored checkpoint stands for, if a later sync could resume from it. */
  function Boundary(stored: Option<string>): Option<(u32, u32)> {
    match stored
    case None => None
    case Some(raw) =>
      match ParseCheckpoint(raw)
      case Some((v, u)) => if u >= 1 then Some((v, u)) else None
      case None => None
  }

  /** A stored boundary is honest: its UIDVALIDITY was really used, and while that is still the
      mailbox's own, every message below the boundary has been delivered and none can appear there. */
  ghost predicate BoundaryHonest(s: State) {
    Boundary(s.stored).Some? ==>
      var (v, u) := Boundary(s.stored).value;
      && v in s.server.used
      && (v == s.server.validity ==>
            && u <= s.server.uidNext
            && forall m | m in s.server.messages && m < u :: (v, m) in s.delivered)
  }

  /** A reply is about this mailbox, and possibly outdated only by later deliveries. */
  ghost predicate ReplyHonest(s: State) {
    s.session.Selected? ==>
      var reply := s.session.reply;
      && (reply.uidValidity.Some? ==> reply.uidValidity.value == s.server.validity)
      && (reply.uidNext.Some? ==> 1 <= reply.uidNext.value <= s.server.uidNext)
      && (reply.uidNext.Some? && Boundary(s.stored).Some? && Boundary(s.stored).value.0 == s.server.validity ==>
            Boundary(s.stored).value.1 <= reply.uidNext.value)
  }

  ghost predicate Inv(s: State) {
    && ServerValid(s.server)
    && BoundaryHonest(s)
    && ReplyHonest(s)
  }

  lemma ResolveByBoundary(stored: Option<string>, current: Option<u32>)
    ensures LowestUid(ResolveFetchRange(stored, current)) ==
            (if Boundary(stored).Some? && current == Some(Boundary(stored).value.0) then Boundary(stored).value.1 else 1)
  {
  }

  /** The emails of a successful sync are exactly the messages the sequence set selects. */
  lemma EmailsAreFetched(server: Server, low: u32, items: seq<FetchItem>, uids: seq<u32>)
    requires Answers(server, low, items) && ReadItems(items) == Ok(uids)
    ensures forall m :: m in uids <==> m in UidFetch(server.messages, low)
  {
    ReadItemsInOrder(items);
    forall m | m in uids
      ensures m in UidFetch(server.messages, low)
    {
      var i :| 0 <= i < |uids| && uids[i] == m;
      assert items[i].uid == Some(m);
    }
    forall m | m in UidFetch(server.messages, low)
      ensures m in uids
    {
      var i :| 0 <= i < |items| && items[i] == Message(Some(m));
      assert uids[i] == m;
    }
  }

  lemma {:induction false} ReadItemsInOrder(items: seq<FetchItem>)
    requires ReadItems(items).Ok?
    ensures |ReadItems(items).value| == |items|
    ensures forall i | 0 <= i < |items| :: items[i].Message? && ReadItems(items).value[i] == UidOf(items[i])
  {
    if items == [] {
    } else {
      ReadItemsInOrder(items[..|items| - 1]);
    }
  }

  /** Every message present when the `FETCH` is answered is delivered once the sync succeeds, whether
      it arrived before the `SELECT` or after it, and whatever the server left unreported. */
  lemma SyncDeliversEverything(s: State, items: seq<FetchItem>, t: State)
    requires Inv(s) && Next(s, SyncSucceeds(items), t)
    ensures forall m | m in s.server.messages :: (s.server.validity, m) in t.delivered
  {
    var reply := s.session.reply;
    SequenceSetRead(ResolveFetchRange(s.stored, reply.uidValidity));
    ResolveByBoundary(s.stored, reply.uidValidity);
    var low := RequestedLow(s).value;
    var uids := ReadItems(items).value;
    EmailsAreFetched(s.server, low, items, uids);
    forall m | m in s.server.messages
      ensures (s.server.validity, m) in t.delivered
    {
      if low <= m {
        assert m in uids;
        assert (s.server.validity, m) in Returned(s.server.validity, uids);
      }
    }
  }

  /** The checkpoint a successful sync stores resumes at the derived boundary, or where the previous
      one did. */
  lemma NextBoundary(since: Option<string>, reply: SelectReply, maxUidSeen: u32)
    requires reply.uidNext.Some? ==> reply.uidNext.value >= 1
    ensures Boundary(Some(NextCheckpoint(since, reply, maxUidSeen))) ==
            match (reply.uidValidity, BoundaryUid(reply, maxUidSeen)) {
              case (Some(v), Some(u)) => Some((v, u))
              case _ => Boundary(since)
            }
  {
    match (reply.uidValidity, BoundaryUid(reply, maxUidSeen)) {
      case (Some(v), Some(u)) =>
        FormattedCheckpointParses(v, u);
      case _ =>
        if since.None? { BareTextIsCorrupt(RESYNC_MARKER, None); }
    }
  }

  /** The boundary a successful sync stores is the previous one, or one the mailbox has reached. */
  lemma NewBoundaryIsReached(s: State, items: seq<FetchItem>, t: State)
    requires Inv(s) && Next(s, SyncSucceeds(items), t)
    ensures Boundary(t.stored) == Boundary(s.stored)
            || (Boundary(t.stored).Some?
                && Boundary(t.stored).value.0 == s.server.validity
                && Boundary(t.stored).value.1 <= s.server.uidNext)
  {
    var reply := s.session.reply;
    var uids := ReadItems(items).value;
    EmailsAreFetched(s.server, RequestedLow(s).value, items, uids);
    MaxUidBounds(uids);
    NextBoundary(s.stored, reply, MaxUid(uids));
  }

  lemma InvInductive(s: State, step: Step, t: State)
    requires Inv(s) && Next(s, step, t)
    ensures Inv(t)
    ensures s.delivered <= t.delivered
  {
    match step {
      case SyncSucceeds(items) =>
        SyncDeliversEverything(s, items, t);
        NewBoundaryIsReached(s, items, t);
      case _ =>
    }
  }

  lemma {:induction false} InvOnRun(run: Run, i: nat)
    requires IsRun(run) && i < |run.states|
    ensures Inv(run.states[i])
  {
    if i == 0 {
    } else {
      InvOnRun(run, i - 1);
      InvInductive(run.states[i - 1], run.steps[i - 1], run.states[i]);
    }
  }

  lemma {:induction false} DeliveredGrows(run: Run, i: nat, j: nat)
    requires IsRun(run) && i <= j < |run.states|
    ensures run.states[i].delivered <= run.states[j].delivered
    decreases j - i
  {
    if i == j {
    } else {
      InvOnRun(run, j - 1);
      InvInductive(run.states[j - 1], run.steps[j - 1], run.states[j]);
      DeliveredGrows(run, i, j - 1);
    }
  }

  // ---------------------------------------------------------------- safety over whole runs

  /** No message is silently skipped. At every point of every run, a message that lies below a stored
      boundary the next sync would resume from has been delivered; and once a sync has succeeded, every
      message that was in the mailbox when its `FETCH` was answered stays delivered for good. */
  lemma NoMessageSkipped(run: Run, i: nat)
    requires IsRun(run) && i < |run.states|
    ensures var s := run.states[i];
            Boundary(s.stored).Some? && Boundary(s.stored).value.0 == s.server.validity ==>
              forall m | m in s.server.messages && m < Boundary(s.stored).value.1 :: (s.server.validity, m) in s.delivered
    ensures forall k | 0 <= k < i && run.steps[k].SyncSucceeds? ::
              forall m | m in run.states[k].server.messages ::
                (run.states[k].server.validity, m) in run.states[i].delivered
  {
    InvOnRun(run, i);
    forall k, m | 0 <= k < i && run.steps[k].SyncSucceeds? && m in run.states[k].server.messages
      ensures (run.states[k].server.validity, m) in run.states[i].delivered
    {
      InvOnRun(run, k);
      SyncDeliversEverything(run.states[k], run.steps[k].items, run.states[k + 1]);
      DeliveredGrows(run, k + 1, i);
    }
  }

  /** What was delivered under the current UIDVALIDITY was assigned by it. */
  ghost predicate OnlyAssigned(s: State) {
    forall p | p in s.delivered ::
      && p.0 in s.server.used
      && (p.0 == s.server.validity ==> 1 <= p.1 < s.server.uidNext)
  }

  lemma OnlyAssignedStep(s: State, step: Step, t: State)
    requires Inv(s) && Next(s, step, t) && OnlyAssigned(s)
    ensures OnlyAssigned(t)
  {
    hide BoundaryHonest, ReplyHonest, ReadSequenceSet, ResolveFetchRange, NextCheckpoint;
    if step.SyncSucceeds? {
      EmailsAreFetched(s.server, RequestedLow(s).value, step.items, ReadItems(step.items).value);
    }
  }

  /** Nothing is invented: a sync never reports a message the mailbox did not assign. */
  lemma {:induction false} DeliveredWereAssigned(run: Run, i: nat)
    requires IsRun(run) && i < |run.states|
    ensures OnlyAssigned(run.states[i])
  {
    hide Next, Inv;
    if i == 0 {
    } else {
      DeliveredWereAssigned(run, i - 1);
      InvOnRun(run, i - 1);
      OnlyAssignedStep(run.states[i - 1], run.steps[i - 1], run.states[i]);
    }
  }

  // ---------------------------------------------------------------- bounded re-delivery and progress

  /** A step that neither recreates the mailbox nor ends a sync whose `SELECT` left out UIDNEXT. */
  predicate SteadyAndReporting(s: State, step: Step) {
    && !step.Recreate?
    && (step.SyncSucceeds? && s.session.Selected? ==> s.session.reply.uidNext.Some?)
  }

  /** The store holds a boundary for the mailbox's own UIDVALIDITY. */
  predicate Current(s: State) {
    Boundary(s.stored).Some? && Boundary(s.stored).value.0 == s.server.validity
  }

  lemma BoundaryStep(s: State, step: Step, t: State)
    requires Inv(s) && Next(s, step, t) && SteadyAndReporting(s, step) && Current(s)
    ensures Current(t) && t.server.validity == s.server.validity
    ensures Boundary(s.stored).value.1 <= Boundary(t.stored).value.1
  {
    if step.SyncSucceeds? {
      NextBoundary(s.stored, s.session.reply, MaxUid(ReadItems(step.items).value));
    }
  }

  /** While the UIDVALIDITY is unchanged and the server reports UIDNEXT, a stored boundary for the
      current UIDVALIDITY is never lost and never decreases. */
  lemma {:induction false} BoundaryNeverDecreases(run: Run, i: nat, j: nat)
    requires IsRun(run) && i <= j < |run.states|
    requires forall k | i <= k < j :: SteadyAndReporting(run.states[k], run.steps[k])
    requires Current(run.states[i])
    ensures Current(run.states[j]) && run.states[j].server.validity == run.states[i].server.validity
    ensures Boundary(run.states[i].stored).value.1 <= Boundary(run.states[j].stored).value.1
    decreases j - i
  {
    hide Next, Inv, Boundary;
    if i == j {
    } else {
      BoundaryNeverDecreases(run, i, j - 1);
      InvOnRun(run, j - 1);
      BoundaryStep(run.states[j - 1], run.steps[j - 1], run.states[j]);
    }
  }

  lemma {:induction false} HighestExists(messages: set<u32>) returns (h: u32)
    requires messages != {}
    ensures IsHighest(messages, h)
    decreases |messages|
  {
    var m :| m in messages;
    var rest := messages - {m};
    if rest == {} {
      assert messages == {m};
      h := m;
    } else {
      h := HighestExists(rest);
      assert messages == rest + {m};
      if h < m { h := m; }
    }
  }

  /** The highest UID of a resumed fetch is the mailbox's own. */
  lemma HighestIsFetched(messages: set<u32>, low: u32, uids: seq<u32>)
    requires forall m :: m in uids <==> m in UidFetch(messages, low)
    requires forall m | m in messages :: m >= 1
    ensures messages == {} ==> MaxUid(uids) == 0
    ensures messages != {} ==> IsHighest(messages, MaxUid(uids))
  {
    MaxUidBounds(uids);
    if messages != {} {
      var h := HighestExists(messages);
      assert h in UidFetch(messages, low) && h in uids;
    }
  }

  /** Every message of the mailbox lies at least one UID below what the boundary would follow. */
  ghost predicate AllWellBelow(messages: set<u32>, boundary: u32) {
    messages != {} && forall m | m in messages :: m + 1 < boundary
  }

  /** A sync that stores a smaller boundary: the server reported UIDVALIDITY but not UIDNEXT, and the mailbox
      is not empty but has nothing left at the UID just below the boundary or above. */
  ghost predicate MovesBack(s: State, step: Step) {
    && step.SyncSucceeds? && s.session.Selected? && Current(s)
    && s.session.reply.uidValidity.Some? && s.session.reply.uidNext.None?
    && AllWellBelow(s.server.messages, Boundary(s.stored).value.1)
  }

  lemma SyncMovesBackExactly(s: State, items: seq<FetchItem>, t: State)
    requires Inv(s) && Next(s, SyncSucceeds(items), t) && Current(s)
    ensures Current(t)
    ensures Boundary(t.stored).value.1 < Boundary(s.stored).value.1 <==> MovesBack(s, SyncSucceeds(items))
  {
    hide SyncResult, NextCheckpoint, ReadSequenceSet, ResolveFetchRange, Boundary, UidFetch;
    var reply := s.session.reply;
    SyncReads(s.stored, reply, items);
    var uids := ReadItems(items).value;
    EmailsAreFetched(s.server, RequestedLow(s).value, items, uids);
    HighestIsFetched(s.server.messages, RequestedLow(s).value, uids);
    NextBoundary(s.stored, reply, MaxUid(uids));
  }

  /** On every run, while the mailbox is not recreated, a boundary for its UIDVALIDITY is never lost, and a
      step makes it smaller exactly when it is a sync that moves back. */
  lemma BoundaryDecreasesExactly(run: Run, i: nat)
    requires IsRun(run) && i < |run.steps| && !run.steps[i].Recreate? && Current(run.states[i])
    ensures Current(run.states[i + 1])
    ensures Boundary(run.states[i + 1].stored).value.1 < Boundary(run.states[i].stored).value.1 <==>
              MovesBack(run.states[i], run.steps[i])
  {
    hide Boundary, Inv;
    InvOnRun(run, i);
    if run.steps[i].SyncSucceeds? {
      SyncMovesBackExactly(run.states[i], run.steps[i].items, run.states[i + 1]);
    }
  }

  lemma SyncReads(since: Option<string>, reply: SelectReply, items: seq<FetchItem>)
    requires SyncResult(since, reply, items).Ok?
    ensures ReadItems(items).Ok?
    ensures SyncResult(since, reply, items).value.checkpoint == NextCheckpoint(since, reply, MaxUid(ReadItems(items).value))
  {
  }

  /** The run on which that happens: a sync with UIDNEXT reported stores a boundary well above the one message
      in the mailbox, and the next SELECT leaves UIDNEXT out. */
  lemma DecreaseIsReachable(v: u32, m: u32, low: u32) returns (run: Run)
    requires 1 <= m && m + 1 < low
    ensures IsRun(run) && |run.states| == 4
    ensures run.states[3] == State(Server(v, {m}, low, {v}), Selected(SelectReply(None, Some(v))), Some(FormatCheckpoint(v, low)), {(v, m)})
  {
    hide ParseCheckpoint, FormatCheckpoint, ReadSequenceSet;
    var server := Server(v, {m}, low, {v});
    var items := [Message(Some(m))];
    var reply := SelectReply(Some(low), Some(v));
    var s0 := State(server, Idle, None, {});
    var s1 := s0.(session := Selected(reply));
    var s2 := State(server, Idle, Some(FormatCheckpoint(v, low)), {(v, m)});
    var s3 := s2.(session := Selected(SelectReply(None, Some(v))));
    SequenceSetRead(Full);
    OneMessageAnswer(server, 1, m);
    OneMessageRead(m);
    assert Next(s0, Select(reply), s1);
    assert Returned(v, [m]) == {(v, m)};
    assert s0.delivered + Returned(v, [m]) == {(v, m)};
    assert SyncResult(None, reply, items) == Ok(Synced([m], FormatCheckpoint(v, low)));
    assert Next(s1, SyncSucceeds(items), s2);
    assert Next(s2, Select(SelectReply(None, Some(v))), s3);
    run := Run([s0, s1, s2, s3], [Select(reply), SyncSucceeds(items), Select(SelectReply(None, Some(v)))]);
    RunOfThree(run);
  }

  lemma RunOfThree(run: Run)
    requires |run.states| == 4 && |run.steps| == 3 && Init(run.states[0])
    requires Next(run.states[0], run.steps[0], run.states[1])
    requires Next(run.states[1], run.steps[1], run.states[2])
    requires Next(run.states[2], run.steps[2], run.states[3])
    ensures IsRun(run)
  {
    hide Next, Init;
    forall i | 0 <= i < |run.steps|
      ensures Next(run.states[i], run.steps[i], run.states[i + 1])
    {
      if i == 0 {
      } else if i == 1 {
      } else {
        assert i == 2;
      }
    }
  }

  /** On that run, when everything above one message is gone, a sync without UIDNEXT stores one past that
      message, which lies below the boundary it resumed from. */
  lemma BoundaryCanDecreaseWithoutUidNext(s: State, v: u32, m: u32, low: u32)
    requires 1 <= m && m + 1 < low
    requires s == State(Server(v, {m}, low, {v}), Selected(SelectReply(None, Some(v))), Some(FormatCheckpoint(v, low)), {(v, m)})
    ensures exists run, i :: IsRun(run) && 0 <= i < |run.states| && run.states[i] == s
    ensures Inv(s) && Boundary(s.stored) == Some((v, low))
    ensures exists items, t :: Next(s, SyncSucceeds(items), t) && Boundary(t.stored) == Some((v, m + 1))
  {
    var run := DecreaseIsReachable(v, m, low);
    InvOnRun(run, 3);
    StepBack(s, v, m, low);
  }

  lemma StepBack(s: State, v: u32, m: u32, low: u32)
    requires 1 <= m && m + 1 < low
    requires s == State(Server(v, {m}, low, {v}), Selected(SelectReply(None, Some(v))), Some(FormatCheckpoint(v, low)), {(v, m)})
    ensures Boundary(s.stored) == Some((v, low))
    ensures exists items, t :: Next(s, SyncSucceeds(items), t) && Boundary(t.stored) == Some((v, m + 1))
  {
    hide ParseCheckpoint, FormatCheckpoint, ResolveFetchRange, ReadSequenceSet;
    var reply := s.session.reply;
    var items := [Message(Some(m))];
    FormattedCheckpointParses(v, low);
    NextBoundary(s.stored, reply, m);
    OneMessageAnswer(s.server, low, m);
    OneMessageRead(m);
    SequenceSetRead(Incremental(low));
    CheckpointCodec(v, low, Some(v));
    var next := NextCheckpoint(s.stored, reply, m);
    var t := State(s.server, Idle, Some(next), s.delivered + Returned(v, [m]));
    assert SyncResult(s.stored, reply, items) == Ok(Synced([m], next));
    assert Next(s, SyncSucceeds(items), t);
  }

  lemma OneMessageAnswer(server: Server, low: u32, m: u32)
    requires server.messages == {m}
    ensures Answers(server, low, [Message(Some(m))])
  {
    assert IsHighest({m}, m);
    assert [Message(Some(m))][0] == Message(Some(m));
  }

  lemma OneMessageRead(m: u32)
    ensures ReadItems([Message(Some(m))]) == Ok([m]) && MaxUid([m]) == m
  {
    var items := [Message(Some(m))];
    var none: seq<u32> := [];
    assert items[..|items| - 1] == [];
    assert none + [m] == [m] && [m][..|[m]| - 1] == none;
    assert MaxUid(none) == 0;
  }

  /** A resumed sync returns at most one message below its boundary, the mailbox's highest, and that one
      only when nothing at or above the boundary exists. */
  lemma ResumedSyncRedeliversAtMostOne(s: State, items: seq<FetchItem>, t: State, a: u32)
    requires Inv(s) && Next(s, SyncSucceeds(items), t)
    requires Boundary(s.stored).Some? && s.session.reply.uidValidity == Some(Boundary(s.stored).value.0)
    requires a in ReadItems(items).value && a < Boundary(s.stored).value.1
    ensures IsHighest(s.server.messages, a)
    ensures forall m | m in ReadItems(items).value :: m == a
  {
    SequenceSetRead(ResolveFetchRange(s.stored, s.session.reply.uidValidity));
    ResolveByBoundary(s.stored, s.session.reply.uidValidity);
    var low := RequestedLow(s).value;
    EmailsAreFetched(s.server, low, items, ReadItems(items).value);
    forall m | m in ReadItems(items).value
      ensures m == a
    {
      AtMostOneRedelivered(s.server.messages, low, a, m);
    }
    AtMostOneRedelivered(s.server.messages, low, a, a);
  }
}
