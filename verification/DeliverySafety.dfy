/** What every run of the delivery system keeps. */
module DeliverySafety {
  import opened Buffer
  import opened Delivery

  ghost predicate Inv(s: State) {
    IdsNameOnce(s) && MarksAreEarned(s) && RemovedAreSafe(s) && SlotsHold(s) && ChannelsOk(s) && ClosersOk(s) && FlushOk(s)
  }

  // ---- Frames: who touches what ----

  lemma WorkerFrame(s: State, a: Step)
    requires Guard(s, a) && IsWorkerStep(a)
    ensures var s' := Apply(s, a);
            && s'.acks == s.acks && s'.flush == s.flush && s'.wire == s.wire && s'.cloud == s.cloud
            && (!a.InsertOk? ==> s'.table == s.table && s'.issued == s.issued)
            && (!a.Push? ==> s'.outbox == s.outbox)
  {
  }

  /** What the tunnel's steps leave alone, or only add to. */
  ghost predicate TunnelLeaves(s: State, s': State) {
    && s'.sims == s.sims && s'.removed == s.removed && s'.issued == s.issued
    && (s'.workers == s.workers || s'.workers == map[])
    && s.wire <= s'.wire && s.cloud <= s'.cloud
  }

  lemma FlushFrame(s: State, a: Step)
    requires Guard(s, a) && IsFlushStep(a)
    ensures TunnelLeaves(s, Apply(s, a)) && Apply(s, a).table == s.table
  {
    FlushMoveAdds(s.flush, s.acks, s.wire, s.table, a);
    hide FlushMove, FlushGuard;
  }

  lemma FlushMoveAdds(f: Flush, k: Acks, wire: set<Event>, table: Table, a: Step)
    requires IsFlushStep(a) && FlushGuard(f, k, a)
    ensures var m := FlushMove(f, k, wire, table, a); wire <= m.2 && m.1.closed == k.closed && k.made <= m.1.made
  {
    hide PendingEvents, Full;
  }

  lemma SessionFrame(s: State, a: Step)
    requires Guard(s, a) && !IsWorkerStep(a) && !IsFlushStep(a)
    ensures TunnelLeaves(s, Apply(s, a)) && (!a.AckMark? && !a.Purge? ==> Apply(s, a).table == s.table)
  {
    hide Mark, Purged, Take, DrainAll, Lost;
  }

  lemma TunnelFrame(s: State, a: Step)
    requires Guard(s, a) && !IsWorkerStep(a)
    ensures TunnelLeaves(s, Apply(s, a)) && (!a.AckMark? && !a.Purge? ==> Apply(s, a).table == s.table)
  {
    hide Apply, Guard, TunnelLeaves;
    if IsFlushStep(a) { FlushFrame(s, a); } else { SessionFrame(s, a); }
  }

  /** Events come from the outbox or the flush, and reach the cloud over the wire. */
  lemma EventsFlow(s: State, a: Step)
    requires Guard(s, a) && !IsWorkerStep(a)
    ensures var s' := Apply(s, a);
            && (forall o :: o in s'.outbox ==> o in s.outbox || o.Other?)
            && (forall e :: e in s'.wire ==> e in s.wire || Sms(e) in s.outbox || (s.flush.Flushing? && e in s.flush.rows))
            && (forall e :: e in s'.cloud ==> e in s.cloud || e in s.wire)
  {
    if a.SendOk? || a.SendFails? {
      assert s.outbox[0] in s.outbox;
    } else if a.FlushWrite? {
      assert s.flush.rows[s.flush.i] in s.flush.rows;
    }
  }

  // ---- Ids ----

  lemma InsertKeepsIds(s: State, a: Step)
    requires IdsNameOnce(s) && Enabled(s, a) && a.InsertOk?
    ensures IdsNameOnce(Apply(s, a))
  {
    var s' := Apply(s, a);
    assert a.id !in s.issued;
    assert forall e: Event :: Genuine(s, e) ==> Genuine(s', e);
    assert forall b :: b in s.table.rows ==> s.table.rows[b].hash != s.workers[a.m].hash;
  }

  lemma WorkerKeepsIds(s: State, a: Step)
    requires IdsNameOnce(s) && Enabled(s, a) && IsWorkerStep(a) && !a.InsertOk?
    ensures IdsNameOnce(Apply(s, a))
  {
    var s' := Apply(s, a);
    WorkerFrame(s, a);
    hide TableOk;
    assert forall e: Event :: Genuine(s, e) <==> Genuine(s', e);
  }

  /** What marking and purging leave of a table: rows of before, with their hashes. */
  ghost predicate Shrunk(t: Table, t': Table) {
    && t'.nextId == t.nextId
    && forall id :: id in t'.rows ==> id in t.rows && t'.rows[id].hash == t.rows[id].hash
  }

  lemma MarkShrinks(t: Table, id: Id)
    ensures Shrunk(t, Mark(t, id))
  {
  }

  lemma PurgeShrinks(t: Table, cutoff: int)
    ensures Shrunk(t, Purged(t, cutoff))
  {
  }

  lemma ShrunkOk(t: Table, t': Table)
    requires TableOk(t) && Shrunk(t, t')
    ensures TableOk(t')
  {
  }

  lemma TableStepsShrink(s: State, a: Step)
    requires (a.AckMark? || a.Purge?) && Guard(s, a)
    ensures Shrunk(s.table, Apply(s, a).table)
  {
    hide Mark, Purged, Shrunk;
    if a.AckMark? { MarkShrinks(s.table, s.acks.acking.id); } else { PurgeShrinks(s.table, a.cutoff); }
  }

  lemma TableStepsKeepIds(s: State, a: Step)
    requires IdsNameOnce(s) && (a.AckMark? || a.Purge?) && Guard(s, a)
    ensures TableOk(Apply(s, a).table)
    ensures forall id :: id in Apply(s, a).table.rows ==> Genuine(s, Event(id, Apply(s, a).table.rows[id].hash))
    ensures Apply(s, a).table.nextId == s.table.nextId
  {
    hide Apply, Guard, Genuine, TableOk;
    TableStepsShrink(s, a);
    ShrunkOk(s.table, Apply(s, a).table);
  }

  lemma FlushRowsGenuine(s: State, a: Step)
    requires IdsNameOnce(s) && Guard(s, a) && !IsWorkerStep(a)
    ensures var s' := Apply(s, a); s'.flush.Flushing? ==> forall e :: e in s'.flush.rows ==> Genuine(s, e)
  {
    hide TableOk, Genuine;
    if a.FlushStart? {
      StartedRowsGenuine(s);
    } else if IsFlushStep(a) {
      hide PendingEvents, Full, Register, Forget;
    } else {
      SessionKeepsFlush(s, a);
      hide Apply, Guard;
    }
  }

  lemma StartedRowsGenuine(s: State)
    requires IdsNameOnce(s)
    ensures forall e :: e in PendingEvents(s.table) ==> Genuine(s, e)
  {
    hide PendingEvents, Genuine;
    PendingEventsExact(s.table);
    forall e | e in PendingEvents(s.table) ensures Genuine(s, e) {
      assert Genuine(s, Event(e.id, s.table.rows[e.id].hash));
    }
  }

  lemma SessionKeepsFlush(s: State, a: Step)
    requires Guard(s, a) && !IsWorkerStep(a) && !IsFlushStep(a)
    ensures Apply(s, a).flush == if a.Crash? then NoFlush else s.flush
  {
    hide Mark, Purged, Take, DrainAll, Lost;
  }

  lemma TunnelKeepsIds(s: State, a: Step)
    requires IdsNameOnce(s) && Guard(s, a) && !IsWorkerStep(a)
    ensures IdsNameOnce(Apply(s, a))
  {
    var s' := Apply(s, a);
    hide Apply, Guard, TableOk, Genuine;
    TunnelFrame(s, a);
    EventsFlow(s, a);
    FlushRowsGenuine(s, a);
    if a.AckMark? || a.Purge? { TableStepsKeepIds(s, a); }
    GenuineSame(s, s');
  }

  lemma GenuineSame(s: State, s': State)
    requires s'.issued == s.issued
    ensures forall e: Event :: Genuine(s, e) <==> Genuine(s', e)
  {
  }

  lemma StepKeepsIds(s: State, a: Step)
    requires IdsNameOnce(s) && Enabled(s, a)
    ensures IdsNameOnce(Apply(s, a))
  {
    hide IdsNameOnce, Apply;
    if a.InsertOk? {
      InsertKeepsIds(s, a);
    } else if IsWorkerStep(a) {
      WorkerKeepsIds(s, a);
    } else {
      TunnelKeepsIds(s, a);
    }
  }

  // ---- Marks ----

  lemma AckedStays(s: State, s': State, id: Id)
    requires s.cloud <= s'.cloud && Acked(s, id)
    ensures Acked(s', id)
  {
    var e :| e in s.cloud && e.id == id;
    assert e in s'.cloud;
  }

  lemma AckMarkKeepsMarks(s: State)
    requires IdsNameOnce(s) && MarksAreEarned(s) && Guard(s, AckMark)
    ensures MarksAreEarned(Apply(s, AckMark))
  {
    var e :| e in s.cloud && e.id == s.acks.acking.id;
    assert Genuine(s, e);
    if e.id in s.table.rows { assert Genuine(s, Event(e.id, s.table.rows[e.id].hash)); }
  }

  lemma StepKeepsMarks(s: State, a: Step)
    requires IdsNameOnce(s) && MarksAreEarned(s) && Enabled(s, a)
    ensures MarksAreEarned(Apply(s, a))
  {
    var s' := Apply(s, a);
    if a.AckMark? {
      AckMarkKeepsMarks(s);
    } else if IsWorkerStep(a) {
      WorkerFrame(s, a);
      hide IdsNameOnce;
      if !s.acks.acking.NoAck? { AckedStays(s, s', s.acks.acking.id); }
    } else {
      TunnelFrame(s, a);
      hide IdsNameOnce;
      if !s.acks.acking.NoAck? { AckedStays(s, s', s.acks.acking.id); }
      if a.AckTake? { AckedStays(s, s', a.id); }
    }
  }

  // ---- Safety of what was removed ----

  lemma SafeStays(s: State, a: Step, h: Hash)
    requires IdsNameOnce(s) && MarksAreEarned(s) && Enabled(s, a) && Safe(s, h)
    ensures Safe(Apply(s, a), h)
  {
    var s' := Apply(s, a);
    if IsWorkerStep(a) { WorkerFrame(s, a); } else { TunnelFrame(s, a); }
    if InCloud(s, h) {
      var e :| e in s.cloud && e.hash == h;
      assert e in s'.cloud;
    } else {
      var id :| id in s.table.rows && s.table.rows[id].hash == h;
      if a.Purge? {
        assert Event(id, h) !in s.cloud;
      }
      assert id in s'.table.rows && s'.table.rows[id].hash == h;
    }
  }

  lemma WorkerKeepsSafety(s: State, a: Step)
    requires RemovedAreSafe(s) && SlotsHold(s) && Guard(s, a) && IsWorkerStep(a)
    requires forall h :: Safe(s, h) ==> Safe(Apply(s, a), h)
    ensures RemovedAreSafe(Apply(s, a))
  {
    var s' := Apply(s, a);
    if a.InsertOk? {
      assert s'.table.rows[a.id].hash == s.workers[a.m].hash;
      assert Safe(s', s.workers[a.m].hash);
    }
    hide Safe;
  }

  lemma StepKeepsSafety(s: State, a: Step)
    requires IdsNameOnce(s) && MarksAreEarned(s) && RemovedAreSafe(s) && SlotsHold(s) && Enabled(s, a)
    ensures RemovedAreSafe(Apply(s, a))
  {
    var s' := Apply(s, a);
    hide Apply, Guard, IdsNameOnce, MarksAreEarned, Safe;
    forall h | Safe(s, h) ensures Safe(s', h) { SafeStays(s, a, h); }
    if IsWorkerStep(a) { WorkerKeepsSafety(s, a); } else { TunnelFrame(s, a); }
  }

  // ---- Slots ----

  lemma StepKeepsSlots(s: State, a: Step)
    requires SlotsHold(s) && Enabled(s, a)
    ensures SlotsHold(Apply(s, a))
  {
    if IsWorkerStep(a) { WorkerKeepsSlots(s, a); } else { TunnelFrame(s, a); hide Apply, Guard; }
  }

  lemma WorkerKeepsSlots(s: State, a: Step)
    requires SlotsHold(s) && Guard(s, a) && IsWorkerStep(a)
    ensures SlotsHold(Apply(s, a))
  {
    var s' := Apply(s, a);
    forall m | m in s'.workers && (s'.workers[m].Read? || s'.workers[m].Stored?)
      ensures (m, s'.workers[m].slot) in s'.sims && s'.sims[(m, s'.workers[m].slot)] == s'.workers[m].hash
    {
    }
  }

  // ---- Channels ----

  lemma MapInsertSize(p: map<Id, Chan>, id: Id, ch: Chan)
    ensures |p[id := ch]| <= |p| + 1
  {
    assert p[id := ch].Keys == p.Keys + {id};
    assert |p[id := ch]| == |p[id := ch].Keys| && |p| == |p.Keys|;
  }

  lemma RemovalKeepsSize(p: map<Id, Chan>, id: Id)
    ensures |p - {id}| <= |p|
  {
    assert (p - {id}).Keys == p.Keys - {id};
    SubmapSize(p.Keys - {id}, p.Keys);
    assert |p - {id}| == |(p - {id}).Keys| && |p| == |p.Keys|;
  }

  lemma RegisterKeepsApart(k: Acks, id: Id)
    requires Apart(k)
    ensures Apart(Register(k, id))
  {
  }

  lemma ForgetKeepsApart(k: Acks, id: Id)
    requires Apart(k)
    ensures Apart(Forget(k, id))
  {
  }

  lemma TakeKeepsApart(k: Acks, id: Id)
    requires Apart(k)
    ensures Apart(Take(k, id))
  {
  }

  lemma LostKeepsApart(k: Acks)
    requires Apart(k)
    ensures Apart(Lost(k)) && Apart(k.(acking := NoAck))
  {
  }

  lemma CloseKeepsApart(k: Acks)
    requires Apart(k) && k.acking.Closing?
    ensures Apart(Close(k))
  {
  }

  lemma DrainKeepsApart(k: Acks)
    requires Apart(k)
    ensures Apart(DrainAll(k))
  {
    forall ch | ch in k.pending.Values ensures ch < |k.made| && ch !in k.closed && !(k.acking.Closing? && k.acking.ch == ch) {
      var id :| id in k.pending && k.pending[id] == ch;
      assert InMap(k, id, ch);
    }
  }

  /** The ways a step can change the ACK bookkeeping. */
  ghost predicate AcksMove(k: Acks, k': Acks) {
    || k' == k || k' == k.(acking := NoAck) || k' == Lost(k) || k' == DrainAll(k)
    || (k.acking.Closing? && k' == Close(k))
    || (exists id :: k' == Forget(k, id))
    || (exists id :: k' == Take(k, id))
    || (!Full(k) && exists id :: k' == Register(k, id))
  }

  lemma AcksMoveByStep(s: State, a: Step)
    requires Guard(s, a)
    ensures AcksMove(s.acks, Apply(s, a).acks)
  {
    hide PendingEvents, Mark, Purged, Full, Register, Forget, Take, DrainAll, Lost;
    if IsWorkerStep(a) {
      WorkerFrame(s, a);
      hide Apply, Guard;
    } else if a.AckTake? {
      assert Apply(s, a).acks == Take(s.acks, a.id);
    } else if a.FlushTimeout? {
      assert Apply(s, a).acks == Forget(s.acks, s.flush.rows[s.flush.i].id);
    } else if a.FlushRegister? && !Full(s.acks) {
      assert Apply(s, a).acks == Register(s.acks, s.flush.rows[s.flush.i].id);
    }
  }

  lemma MoveKeepsApart(k: Acks, k': Acks)
    requires Apart(k) && AcksMove(k, k')
    ensures Apart(k')
  {
    DrainKeepsApart(k);
    LostKeepsApart(k);
    if k.acking.Closing? { CloseKeepsApart(k); }
    hide Apart, Take, Forget, Register, Full, DrainAll, Lost, Close;
    if id :| k' == Forget(k, id) {
      ForgetKeepsApart(k, id);
    } else if id :| k' == Take(k, id) {
      TakeKeepsApart(k, id);
    } else if id :| k' == Register(k, id) {
      RegisterKeepsApart(k, id);
    }
  }

  lemma MoveKeepsBound(k: Acks, k': Acks)
    requires |k.pending| <= MAX_PENDING_ACKS && AcksMove(k, k')
    ensures |k'.pending| <= MAX_PENDING_ACKS
  {
    if id :| k' == Forget(k, id) {
      RemovalKeepsSize(k.pending, id);
    } else if id :| k' == Take(k, id) {
      RemovalKeepsSize(k.pending, id);
    } else if id :| !Full(k) && k' == Register(k, id) {
      MapInsertSize(k.pending, id, |k.made|);
    }
  }

  lemma StepKeepsChannels(s: State, a: Step)
    requires ChannelsOk(s) && Enabled(s, a)
    ensures ChannelsOk(Apply(s, a))
  {
    hide Apply, Guard, Apart, AcksMove;
    AcksMoveByStep(s, a);
    MoveKeepsApart(s.acks, Apply(s, a).acks);
    MoveKeepsBound(s.acks, Apply(s, a).acks);
  }

  // ---- Who closed a channel ----

  lemma SessionKeepsClosed(s: State, a: Step)
    requires Guard(s, a) && !IsWorkerStep(a) && !IsFlushStep(a) && !a.Drain? && !a.AckClose?
    ensures var s' := Apply(s, a);
            && s'.swept == s.swept && s'.answered == s.answered
            && s'.acks.closed == s.acks.closed && s'.acks.made == s.acks.made
  {
    hide Mark, Purged;
  }

  lemma ClosedFrame(s: State, a: Step)
    requires Guard(s, a) && !a.Drain? && !a.AckClose?
    ensures var s' := Apply(s, a);
            && s'.swept == s.swept && s'.answered == s.answered
            && s'.acks.closed == s.acks.closed && s.acks.made <= s'.acks.made
  {
    if IsWorkerStep(a) {
      WorkerFrame(s, a);
    } else if IsFlushStep(a) {
      FlushMoveAdds(s.flush, s.acks, s.wire, s.table, a);
      hide FlushMove, FlushGuard;
    } else {
      SessionKeepsClosed(s, a);
      hide Apply, Guard;
    }
  }

  lemma AnswersStay(s: State, s': State, ch: Chan)
    requires Answers(s, ch) && s.acks.made <= s'.acks.made && s.cloud <= s'.cloud
    ensures Answers(s', ch)
  {
    AckedStays(s, s', s.acks.made[ch]);
  }

  lemma DrainKeepsClosers(s: State)
    requires ClosersOk(s) && ChannelsOk(s) && Guard(s, Drain)
    ensures ClosersOk(Apply(s, Drain))
  {
    var s' := Apply(s, Drain);
    forall ch | ch in s.acks.pending.Values ensures ch !in s.acks.closed {
      var id :| id in s.acks.pending && s.acks.pending[id] == ch;
      assert InMap(s.acks, id, ch);
    }
    forall ch | ch in s'.answered ensures Answers(s', ch) { AnswersStay(s, s', ch); }
  }

  lemma CloseKeepsClosers(s: State)
    requires ClosersOk(s) && ChannelsOk(s) && MarksAreEarned(s) && Guard(s, AckClose)
    ensures ClosersOk(Apply(s, AckClose))
  {
    var s' := Apply(s, AckClose);
    AckedStays(s, s', s.acks.acking.id);
    forall ch | ch in s'.answered ensures Answers(s', ch) {
      if ch != s.acks.acking.ch { AnswersStay(s, s', ch); }
    }
  }

  lemma StepKeepsClosers(s: State, a: Step)
    requires ClosersOk(s) && ChannelsOk(s) && MarksAreEarned(s) && Enabled(s, a)
    ensures ClosersOk(Apply(s, a))
  {
    if a.Drain? {
      DrainKeepsClosers(s);
    } else if a.AckClose? {
      CloseKeepsClosers(s);
    } else {
      var s' := Apply(s, a);
      ClosedFrame(s, a);
      if IsWorkerStep(a) { WorkerFrame(s, a); } else { TunnelFrame(s, a); }
      hide Apply, Guard, Answers, ChannelsOk, MarksAreEarned;
      forall ch | ch in s'.answered ensures Answers(s', ch) { AnswersStay(s, s', ch); }
    }
  }

  // ---- Flush ----

  lemma StepKeepsFlush(s: State, a: Step)
    requires FlushOk(s) && TableOk(s.table) && Enabled(s, a)
    ensures FlushOk(Apply(s, a))
  {
    if IsWorkerStep(a) {
      WorkerFrame(s, a);
      hide Apply, Guard, TableOk;
    } else {
      TunnelFrame(s, a);
      hide TableOk, PendingEvents;
      if a.FlushWrite? {
        var f := s.flush;
        assert f.rows[..f.i + 1] == f.rows[..f.i] + [f.rows[f.i]];
      }
    }
  }

  // ---- Runs ----

  lemma StepKeepsInv(s: State, a: Step)
    requires Inv(s) && Enabled(s, a)
    ensures Inv(Apply(s, a))
  {
    assert TableOk(s.table);
    hide Apply, Enabled, IdsNameOnce, MarksAreEarned, RemovedAreSafe, SlotsHold, ChannelsOk, ClosersOk, FlushOk, TableOk;
    StepKeepsClosers(s, a);
    StepKeepsIds(s, a);
    StepKeepsMarks(s, a);
    StepKeepsSafety(s, a);
    StepKeepsSlots(s, a);
    StepKeepsChannels(s, a);
    StepKeepsFlush(s, a);
  }

  lemma {:induction false} RunKeepsInv(s: State, steps: seq<Step>)
    requires Inv(s) && IsRun(s, steps)
    ensures Inv(After(s, steps))
    decreases |steps|
  {
    if steps != [] {
      hide Apply, Enabled, Inv;
      StepKeepsInv(s, steps[0]);
      RunKeepsInv(Apply(s, steps[0]), steps[1..]);
    }
  }

  lemma InitialInv()
    ensures Inv(INITIAL)
  {
  }

  lemma Reachable(steps: seq<Step>)
    requires IsRun(INITIAL, steps)
    ensures Inv(After(INITIAL, steps))
  {
    hide Inv, IsRun, After;
    InitialInv();
    RunKeepsInv(INITIAL, steps);
  }

  // ---- Theorems ----

  /** No message is lost: after any run, whatever the receive path removed from a SIM card is still a
      pending row or has been received by the cloud. */
  lemma NoMessageLost(steps: seq<Step>)
    requires IsRun(INITIAL, steps)
    ensures NoLoss(After(INITIAL, steps))
  {
    hide IsRun, After;
    Reachable(steps);
    var s := After(INITIAL, steps);
    forall h | h in s.removed
      ensures (exists id :: IsPending(s.table, id) && s.table.rows[id].hash == h) || InCloud(s, h)
    {
      SafeIsPendingOrReceived(s, h);
    }
  }

  lemma SafeIsPendingOrReceived(s: State, h: Hash)
    requires MarksAreEarned(s) && Safe(s, h)
    ensures (exists id :: IsPending(s.table, id) && s.table.rows[id].hash == h) || InCloud(s, h)
  {
    if !InCloud(s, h) {
      var id :| id in s.table.rows && s.table.rows[id].hash == h;
      assert Event(id, h) !in s.cloud;
      assert IsPending(s.table, id);
    }
  }

  /** An acknowledgement, however late or repeated, is for the message the row holds now: the row it is about
      to mark has itself been received. */
  lemma AckMarksItsOwnMessage(steps: seq<Step>)
    requires IsRun(INITIAL, steps)
    ensures var s := After(INITIAL, steps);
            s.acks.acking.Marking? && s.acks.acking.id in s.table.rows ==>
              Event(s.acks.acking.id, s.table.rows[s.acks.acking.id].hash) in s.cloud
  {
    hide IsRun, After;
    Reachable(steps);
    var s := After(INITIAL, steps);
    if s.acks.acking.Marking? && s.acks.acking.id in s.table.rows {
      var id := s.acks.acking.id;
      var e :| e in s.cloud && e.id == id;
      assert Genuine(s, e) && Genuine(s, Event(id, s.table.rows[id].hash));
    }
  }

  /** A pending row stays pending, through purges, drains and crashes, until the cloud's acknowledgement of its own id is
      marked. */
  lemma PendingUntilAcked(s: State, a: Step, id: Id)
    requires Inv(s) && Enabled(s, a) && IsPending(s.table, id)
    ensures var t := Apply(s, a).table;
            || (IsPending(t, id) && t.rows[id].hash == s.table.rows[id].hash)
            || (a.AckMark? && s.acks.acking == Marking(id) && Event(id, s.table.rows[id].hash) in s.cloud)
  {
    hide ChannelsOk, FlushOk, SlotsHold, RemovedAreSafe;
    if a.AckMark? && s.acks.acking.id == id {
      var e :| e in s.cloud && e.id == id;
      assert Genuine(s, e) && Genuine(s, Event(id, s.table.rows[id].hash));
    } else {
      PendingStays(s, a, id);
    }
  }

  lemma PendingStays(s: State, a: Step, id: Id)
    requires TableOk(s.table) && Enabled(s, a) && IsPending(s.table, id) && !(a.AckMark? && s.acks.acking.id == id)
    ensures IsPending(Apply(s, a).table, id) && Apply(s, a).table.rows[id].hash == s.table.rows[id].hash
  {
    if IsWorkerStep(a) {
      WorkerFrame(s, a);
    } else {
      TunnelFrame(s, a);
      if !a.AckMark? && !a.Purge? { hide Apply, Guard; }
    }
  }

  lemma CloudGrows(s: State, a: Step)
    requires Guard(s, a)
    ensures s.cloud <= Apply(s, a).cloud
  {
    if IsWorkerStep(a) { WorkerFrame(s, a); } else { TunnelFrame(s, a); }
  }

  lemma {:induction false} CloudOnlyGrows(s: State, steps: seq<Step>)
    requires IsRun(s, steps)
    ensures s.cloud <= After(s, steps).cloud
    decreases |steps|
  {
    if steps != [] {
      hide Apply, Guard;
      CloudGrows(s, steps[0]);
      CloudOnlyGrows(Apply(s, steps[0]), steps[1..]);
    }
  }

  ghost predicate PendingOrReceived(s: State, e: Event) {
    (IsPending(s.table, e.id) && s.table.rows[e.id].hash == e.hash) || e in s.cloud
  }

  /** Over whole runs: a row that is pending at some moment is, after whatever follows, still pending with its message, or
      that very message has been received. */
  lemma {:induction false} StaysPendingOrReceived(s: State, steps: seq<Step>, e: Event)
    requires Inv(s) && IsRun(s, steps) && PendingOrReceived(s, e)
    ensures PendingOrReceived(After(s, steps), e)
    decreases |steps|
  {
    if steps != [] {
      hide Apply, Guard, Inv;
      var s' := Apply(s, steps[0]);
      CloudGrows(s, steps[0]);
      if e !in s.cloud { PendingUntilAcked(s, steps[0], e.id); }
      StepKeepsInv(s, steps[0]);
      StaysPendingOrReceived(s', steps[1..], e);
    }
  }

  // ---- The outbox ----

  /** What a step pushes. */
  function Pushes(s: State, a: Step): seq<Out> {
    if a.Push? && a.m in s.workers && s.workers[a.m].Cleared? then [Sms(Event(s.workers[a.m].id, s.workers[a.m].hash))]
    else if a.PushOther? then [Other(a.tag)]
    else []
  }

  /** What is pushed in a run while fewer than 256 events wait, in order. */
  ghost function Accepted(s: State, steps: seq<Step>): seq<Out>
    requires IsRun(s, steps)
    decreases |steps|
  {
    if steps == [] then []
    else (if |s.outbox| < 256 then Pushes(s, steps[0]) else []) + Accepted(Apply(s, steps[0]), steps[1..])
  }

  /** What the writer takes in a run, in order, whether or not the write succeeds. */
  ghost function TakenOut(s: State, steps: seq<Step>): seq<Out>
    requires IsRun(s, steps)
    decreases |steps|
  {
    if steps == [] then []
    else (if steps[0].SendOk? || steps[0].SendFails? then [s.outbox[0]] else []) + TakenOut(Apply(s, steps[0]), steps[1..])
  }

  predicate NoCrash(steps: seq<Step>) {
    forall i :: 0 <= i < |steps| ==> !steps[i].Crash?
  }

  lemma OutboxStep(s: State, a: Step)
    requires Guard(s, a) && !a.Crash?
    ensures var taken := if a.SendOk? || a.SendFails? then [s.outbox[0]] else [];
            && s.outbox + (if |s.outbox| < 256 then Pushes(s, a) else []) == taken + Apply(s, a).outbox
            && (forall o :: o in taken && o.Sms? ==> o.event in Apply(s, a).wire)
            && s.wire <= Apply(s, a).wire
  {
    if a.Push? {
      PushStep(s, a);
      hide Apply;
    } else if IsWorkerStep(a) {
      WorkerFrame(s, a);
      hide Apply, Guard;
    } else if IsFlushStep(a) {
      FlushFrame(s, a);
      hide FlushMove, FlushGuard;
    } else {
      hide Mark, Purged, Take, DrainAll, Lost;
    }
  }

  lemma PushStep(s: State, a: Step)
    requires Guard(s, a) && a.Push?
    ensures Apply(s, a).outbox == s.outbox + (if |s.outbox| < 256 then Pushes(s, a) else [])
    ensures Apply(s, a).wire == s.wire
  {
  }

  lemma Chained<T>(a: seq<T>, b: seq<T>, c: seq<T>, t: seq<T>, u: seq<T>, d: seq<T>, e: seq<T>)
    requires a + b == t + d && d + c == u + e
    ensures a + (b + c) == (t + u) + e
  {
    assert a + (b + c) == (a + b) + c && (t + d) + c == t + (d + c) && t + (u + e) == (t + u) + e;
  }

  /** Between crashes the outbox is a queue that drops nothing while fewer than 256 events wait: what waited at first and
      what was pushed then, in the order of the pushes, is what the writer has taken and what waits now. What is taken is
      put on the wire. */
  lemma {:induction false} OutboxInOrder(s: State, steps: seq<Step>)
    requires IsRun(s, steps) && NoCrash(steps)
    ensures s.outbox + Accepted(s, steps) == TakenOut(s, steps) + After(s, steps).outbox
    ensures forall o :: o in TakenOut(s, steps) && o.Sms? ==> o.event in After(s, steps).wire
    ensures s.wire <= After(s, steps).wire
    decreases |steps|
  {
    if steps != [] {
      hide Apply, Guard, Pushes;
      var a, rest := steps[0], steps[1..];
      OutboxStep(s, a);
      assert NoCrash(rest);
      var s' := Apply(s, a);
      OutboxInOrder(s', rest);
      var taken := if a.SendOk? || a.SendFails? then [s.outbox[0]] else [];
      Chained(s.outbox, if |s.outbox| < 256 then Pushes(s, a) else [], Accepted(s', rest),
              taken, TakenOut(s', rest), s'.outbox, After(s', rest).outbox);
    }
  }

  lemma {:induction false} OutboxBounded(s: State, steps: seq<Step>)
    requires IsRun(s, steps) && |s.outbox| <= 256
    ensures |After(s, steps).outbox| <= 256
    decreases |steps|
  {
    if steps != [] {
      OutboxBoundedStep(s, steps[0]);
      hide Apply, Guard;
      OutboxBounded(Apply(s, steps[0]), steps[1..]);
    }
  }

  lemma OutboxBoundedStep(s: State, a: Step)
    requires Guard(s, a) && |s.outbox| <= 256
    ensures |Apply(s, a).outbox| <= 256
  {
    if IsWorkerStep(a) { WorkerFrame(s, a); } else { hide FlushMove, FlushGuard; }
  }

  // ---- What leaves a SIM card ----

  predicate NoBypass(steps: seq<Step>, m: Modem, slot: Slot) {
    forall i :: 0 <= i < |steps| ==> steps[i] != Bypass(m, slot)
  }

  ghost predicate OnSimOrSafe(s: State, m: Modem, slot: Slot, h: Hash) {
    ((m, slot) in s.sims && s.sims[(m, slot)] == h) || Safe(s, h)
  }

  lemma LeavesSafely(s: State, a: Step, m: Modem, slot: Slot, h: Hash)
    requires Inv(s) && Enabled(s, a) && a != Bypass(m, slot) && OnSimOrSafe(s, m, slot, h)
    ensures OnSimOrSafe(Apply(s, a), m, slot, h)
  {
    hide IdsNameOnce, MarksAreEarned, ChannelsOk, ClosersOk, FlushOk, Safe;
    if Safe(s, h) {
      SafeStays(s, a, h);
    } else if IsWorkerStep(a) {
      if a.DeleteOk? && a.m == m && s.workers[m].slot == slot { assert Safe(s, s.workers[m].hash); }
    } else {
      TunnelFrame(s, a);
    }
  }

  lemma {:induction false} LeavesSafelyRun(s: State, steps: seq<Step>, m: Modem, slot: Slot, h: Hash)
    requires Inv(s) && IsRun(s, steps) && NoBypass(steps, m, slot) && OnSimOrSafe(s, m, slot, h)
    ensures OnSimOrSafe(After(s, steps), m, slot, h)
    decreases |steps|
  {
    if steps != [] {
      hide Apply, Guard, Inv, OnSimOrSafe;
      LeavesSafely(s, steps[0], m, slot, h);
      StepKeepsInv(s, steps[0]);
      assert NoBypass(steps[1..], m, slot);
      LeavesSafelyRun(Apply(s, steps[0]), steps[1..], m, slot, h);
    }
  }

  /** No message is lost, told by the SIM cards alone: a message that is in a slot at some moment of a run is, after whatever
      follows, still in that slot, or a pending row, or received by the cloud, unless somebody cleared the slot past the
      receive path. */
  lemma OnSimUntilSafe(before: seq<Step>, rest: seq<Step>, m: Modem, slot: Slot)
    requires IsRun(INITIAL, before) && IsRun(After(INITIAL, before), rest) && NoBypass(rest, m, slot)
    requires (m, slot) in After(INITIAL, before).sims
    ensures var s0 := After(INITIAL, before);
            var s, h := After(s0, rest), s0.sims[(m, slot)];
            || ((m, slot) in s.sims && s.sims[(m, slot)] == h)
            || (exists id :: IsPending(s.table, id) && s.table.rows[id].hash == h)
            || InCloud(s, h)
  {
    hide IsRun, After;
    var s0 := After(INITIAL, before);
    var h := s0.sims[(m, slot)];
    Reachable(before);
    hide Inv;
    LeavesSafelyRun(s0, rest, m, slot, h);
    RunKeepsInv(s0, rest);
    var s := After(s0, rest);
    assert MarksAreEarned(s) by { InvMarks(s); }
    if Safe(s, h) { SafeIsPendingOrReceived(s, h); }
  }

  lemma InvMarks(s: State)
    requires Inv(s)
    ensures MarksAreEarned(s)
  {
  }

  // ---- What an acknowledgement settles ----

  ghost predicate Settled(s: State, id: Id) {
    id < s.table.nextId && !IsPending(s.table, id)
  }

  lemma SettledStep(s: State, a: Step, id: Id)
    requires Enabled(s, a) && Settled(s, id)
    ensures Settled(Apply(s, a), id)
  {
    if IsWorkerStep(a) {
      WorkerFrame(s, a);
    } else {
      TunnelFrame(s, a);
      if !a.AckMark? && !a.Purge? { hide Apply, Guard; }
    }
  }

  lemma {:induction false} SettledRun(s: State, steps: seq<Step>, id: Id)
    requires IsRun(s, steps) && Settled(s, id)
    ensures Settled(After(s, steps), id)
    decreases |steps|
  {
    if steps != [] {
      hide Apply, Guard, Settled;
      SettledStep(s, steps[0], id);
      SettledRun(Apply(s, steps[0]), steps[1..], id);
    }
  }

  /** Once an acknowledgement is marked, its row is never offered again, by no flush of any later run. */
  lemma AckedStaysDone(before: seq<Step>, rest: seq<Step>)
    requires IsRun(INITIAL, before) && Guard(After(INITIAL, before), AckMark)
    requires IsRun(Apply(After(INITIAL, before), AckMark), rest)
    ensures var s0 := After(INITIAL, before);
            var s := After(Apply(s0, AckMark), rest);
            !IsPending(s.table, s0.acks.acking.id) && forall e :: e in PendingEvents(s.table) ==> e.id != s0.acks.acking.id
  {
    var s0 := After(INITIAL, before);
    var s1 := Apply(s0, AckMark);
    var id := s0.acks.acking.id;
    Reachable(before);
    MarkSettles(s0);
    StepKeepsInv(s0, AckMark);
    hide IsRun, After, Inv, Apply, Guard;
    SettledRun(s1, rest, id);
    RunKeepsInv(s1, rest);
    OfferedPending(After(s1, rest));
  }

  lemma MarkSettles(s: State)
    requires Inv(s) && Guard(s, AckMark)
    ensures Settled(Apply(s, AckMark), s.acks.acking.id)
  {
    hide ChannelsOk, ClosersOk, FlushOk, SlotsHold, RemovedAreSafe;
    var e :| e in s.cloud && e.id == s.acks.acking.id;
    assert Genuine(s, e);
  }

  lemma OfferedPending(s: State)
    requires Inv(s)
    ensures forall e :: e in PendingEvents(s.table) ==> IsPending(s.table, e.id)
  {
    PendingEventsExact(s.table);
  }

  // ---- The ACK map between sessions ----

  /** The map has nothing but the entry the flush waits for. */
  ghost predicate OnlyAwaited(s: State) {
    forall id :: id in s.acks.pending ==>
      s.flush.Flushing? && s.flush.phase.Waiting? && s.flush.phase.ch == s.acks.pending[id]
  }

  lemma FlushKeepsAwaited(s: State, a: Step)
    requires ChannelsOk(s) && FlushOk(s) && OnlyAwaited(s) && Guard(s, a) && IsFlushStep(a) && !a.FlushAbort?
    ensures OnlyAwaited(Apply(s, a))
  {
    hide PendingEvents, TableOk;
    forall id | id in s.acks.pending ensures InMap(s.acks, id, s.acks.pending[id]) {}
  }

  lemma AwaitedStep(s: State, a: Step)
    requires Inv(s) && OnlyAwaited(s) && Enabled(s, a) && !a.FlushAbort?
    ensures OnlyAwaited(Apply(s, a))
  {
    if IsWorkerStep(a) {
      WorkerFrame(s, a);
      hide Apply, Guard;
    } else if IsFlushStep(a) {
      hide Apply, Guard;
      FlushKeepsAwaited(s, a);
    } else {
      hide IdsNameOnce, MarksAreEarned, RemovedAreSafe, SlotsHold, ChannelsOk, ClosersOk, FlushOk;
    }
  }

  predicate NoAbort(steps: seq<Step>) {
    forall i :: 0 <= i < |steps| ==> !steps[i].FlushAbort?
  }

  lemma {:induction false} AwaitedRun(s: State, steps: seq<Step>)
    requires Inv(s) && OnlyAwaited(s) && IsRun(s, steps) && NoAbort(steps)
    ensures OnlyAwaited(After(s, steps))
    decreases |steps|
  {
    if steps != [] {
      hide Apply, Guard, Inv, OnlyAwaited;
      AwaitedStep(s, steps[0]);
      StepKeepsInv(s, steps[0]);
      assert NoAbort(steps[1..]);
      AwaitedRun(Apply(s, steps[0]), steps[1..]);
    }
  }

  /** Entries do not pile up: until a flush is cut off while it waits, the map has at most the entry that flush waits for,
      whatever times out, is acknowledged or passed by. */
  lemma NoStaleEntries(before: seq<Step>, rest: seq<Step>)
    requires IsRun(INITIAL, before) && IsRun(After(INITIAL, before), rest) && NoAbort(rest)
    requires After(INITIAL, before).acks.pending == map[]
    ensures var s := After(After(INITIAL, before), rest);
            forall id :: id in s.acks.pending ==>
              s.flush.Flushing? && s.flush.phase.Waiting? && s.flush.phase.ch == s.acks.pending[id]
  {
    hide IsRun, After, Inv;
    Reachable(before);
    AwaitedRun(After(INITIAL, before), rest);
  }

  /** A row that was written gets its channel unless 1000 entries wait. */
  lemma RegistersUnlessFull(s: State)
    requires Guard(s, FlushRegister)
    ensures var id, s' := s.flush.rows[s.flush.i].id, Apply(s, FlushRegister);
            && (s'.flush.Flushing? && s'.flush.phase.Waiting? <==> |s.acks.pending| < 1000)
            && (|s.acks.pending| < 1000 ==> id in s'.acks.pending && s'.acks.pending[id] == s'.flush.phase.ch
                                            && s'.acks.pending[id] == |s.acks.made|)
  {
  }

  // ---- The straight way ----

  /** Such a step again and again. */
  function Repeat(a: Step, n: nat): seq<Step> {
    if n == 0 then [] else [a] + Repeat(a, n - 1)
  }

  /** A connected writer empties the outbox onto the wire. */
  lemma {:induction false} WriterEmpties(s: State) returns (s': State)
    requires s.connected
    ensures IsRun(s, Repeat(SendOk, |s.outbox|)) && s' == After(s, Repeat(SendOk, |s.outbox|))
    ensures forall e :: Sms(e) in s.outbox ==> e in s'.wire
    ensures s.wire <= s'.wire && s' == s.(outbox := [], wire := s'.wire)
    decreases |s.outbox|
  {
    if s.outbox == [] {
      s' := s;
    } else {
      var s1 := Apply(s, SendOk);
      assert Guard(s, SendOk) && s1 == s.(outbox := s.outbox[1..], wire := s.wire + Delivery.Written(s.outbox[0]));
      s' := WriterEmpties(s1);
      hide Apply, Guard;
      RunStep(s, SendOk, Repeat(SendOk, |s1.outbox|));
    }
  }

  /** A message can always get through: from every state with a session, an idle worker and room in the outbox, a new
      message on a SIM can be read, stored, cleared, pushed, written and received; then the slot is free, the row is
      pending and the cloud has it under its own id. */
  lemma ReachesTheCloud(s: State, m: Modem, slot: Slot) returns (steps: seq<Step>)
    requires s.connected && (m, slot) in s.sims && Worker(s, m).Idle? && |s.outbox| < 256
    requires !HasHash(s.table, s.sims[(m, slot)])
    ensures IsRun(s, steps)
    ensures var s', h, id := After(s, steps), s.sims[(m, slot)], s.table.nextId;
            && (m, slot) !in s'.sims && IsPending(s'.table, id) && s'.table.rows[id].hash == h
            && Event(id, h) in s'.cloud && s'.outbox == []
  {
    var h, id := s.sims[(m, slot)], s.table.nextId;
    var s4 := Received(s, m, slot);
    var s5 := WriterEmpties(s4);
    var e := Event(id, h);
    assert s4.outbox[|s.outbox|] == Sms(e);
    var s6 := Apply(s5, CloudReceives(e));
    assert Enabled(s5, CloudReceives(e)) && s6 == s5.(cloud := s5.cloud + {e});
    hide Apply, Guard, IsPending, HasHash;
    var sends := Repeat(SendOk, |s4.outbox|);
    RunOfOne(s5, CloudReceives(e));
    hide Repeat, ReceiveSteps, IsRun, After;
    RunOn(s4, sends, [CloudReceives(e)]);
    RunOn(s, ReceiveSteps(m, slot, id), sends + [CloudReceives(e)]);
    steps := ReceiveSteps(m, slot, id) + (sends + [CloudReceives(e)]);
  }

  lemma RunOfOne(s: State, a: Step)
    requires Enabled(s, a)
    ensures IsRun(s, [a]) && After(s, [a]) == Apply(s, a)
  {
    hide Apply, Guard;
    RunStep(s, a, []);
    assert [a] + [] == [a];
  }

  function ReceiveSteps(m: Modem, slot: Slot, id: Id): seq<Step> {
    [ReadSms(m, slot), InsertOk(m, id, 0), DeleteOk(m), Push(m)]
  }

  lemma {:induction false} RunOn(s: State, a: seq<Step>, b: seq<Step>)
    requires IsRun(s, a) && IsRun(After(s, a), b)
    ensures IsRun(s, a + b) && After(s, a + b) == After(After(s, a), b)
    decreases |a|
  {
    if a == [] {
      assert a + b == b;
    } else {
      RunHead(s, a);
      hide *;
      HeadOn(a, b);
      RunOn(Apply(s, a[0]), a[1..], b);
      RunStep(s, a[0], a[1..] + b);
    }
  }

  lemma RunHead(s: State, a: seq<Step>)
    requires IsRun(s, a) && a != []
    ensures Enabled(s, a[0]) && IsRun(Apply(s, a[0]), a[1..]) && After(s, a) == After(Apply(s, a[0]), a[1..])
  {
    hide Apply, Guard;
  }

  lemma HeadOn<T>(a: seq<T>, b: seq<T>)
    requires a != []
    ensures [a[0]] + (a[1..] + b) == a + b
  {
  }

  lemma Received(s: State, m: Modem, slot: Slot) returns (s4: State)
    requires (m, slot) in s.sims && Worker(s, m).Idle? && |s.outbox| < 256
    requires !HasHash(s.table, s.sims[(m, slot)])
    ensures IsRun(s, ReceiveSteps(m, slot, s.table.nextId)) && s4 == After(s, ReceiveSteps(m, slot, s.table.nextId))
    ensures var h, id := s.sims[(m, slot)], s.table.nextId;
            && s4.connected == s.connected && s4.outbox == s.outbox + [Sms(Event(id, h))]
            && s4.table == InsertAs(s.table, id, h, 0) && (m, slot) !in s4.sims
  {
    var id := s.table.nextId;
    var s1 := Apply(s, ReadSms(m, slot));
    var s2 := Apply(s1, InsertOk(m, id, 0));
    var s3 := Apply(s2, DeleteOk(m));
    s4 := Apply(s3, Push(m));
    assert Enabled(s, ReadSms(m, slot)) && Enabled(s1, InsertOk(m, id, 0)) && Enabled(s2, DeleteOk(m)) && Enabled(s3, Push(m));
    hide Apply, Guard;
    RunStep(s3, Push(m), []);
    RunOfThree(s, ReadSms(m, slot), InsertOk(m, id, 0), DeleteOk(m));
    RunOn(s, [ReadSms(m, slot), InsertOk(m, id, 0), DeleteOk(m)], [Push(m)]);
    assert [Push(m)] + [] == [Push(m)];
    assert [ReadSms(m, slot), InsertOk(m, id, 0), DeleteOk(m)] + [Push(m)] == ReceiveSteps(m, slot, id);
  }

  // ---- Channels over runs ----

  /** After any run no channel has been closed twice, none is both closed and in the map, and the map has at
      most 1000 entries. */
  lemma ChannelsClosedOnce(steps: seq<Step>)
    requires IsRun(INITIAL, steps)
    ensures var k := After(INITIAL, steps).acks;
            && |k.pending| <= 1000
            && (forall ch :: k.closed[ch] <= 1)
            && (forall id :: id in k.pending ==> k.pending[id] !in k.closed)
  {
    hide IsRun, After;
    Reachable(steps);
    var k := After(INITIAL, steps).acks;
    assert forall id :: id in k.pending ==> InMap(k, id, k.pending[id]);
  }

  /** A close happens in the drain, of a channel the drain removes, or in the reader, of the channel that very
      reader took out of the map before; and what is closed is not in the map afterwards. */
  lemma OnlyTheRemoverCloses(steps: seq<Step>, a: Step, ch: Chan)
    requires IsRun(INITIAL, steps) && Enabled(After(INITIAL, steps), a)
    requires var s := After(INITIAL, steps); Apply(s, a).acks.closed[ch] > s.acks.closed[ch]
    ensures var k := After(INITIAL, steps).acks;
            || (a.Drain? && exists id :: id in k.pending && k.pending[id] == ch)
            || (a.AckClose? && k.acking.Closing? && k.acking.ch == ch)
    ensures var k := Apply(After(INITIAL, steps), a).acks; forall id :: id in k.pending ==> k.pending[id] != ch
  {
    hide IsRun, After;
    Reachable(steps);
    var s := After(INITIAL, steps);
    StepKeepsInv(s, a);
    ClosingSteps(s, a, ch);
    var k := Apply(s, a).acks;
    forall id | id in k.pending ensures k.pending[id] != ch { assert InMap(k, id, k.pending[id]); }
  }

  lemma ClosingSteps(s: State, a: Step, ch: Chan)
    requires Guard(s, a) && Apply(s, a).acks.closed[ch] > s.acks.closed[ch]
    ensures || (a.Drain? && exists id :: id in s.acks.pending && s.acks.pending[id] == ch)
            || (a.AckClose? && s.acks.acking.Closing? && s.acks.acking.ch == ch)
  {
    hide PendingEvents, Mark, Purged, Full;
    if IsWorkerStep(a) {
      WorkerFrame(s, a);
      hide Apply;
    } else if IsFlushStep(a) {
      FlushMoveAdds(s.flush, s.acks, s.wire, s.table, a);
      hide FlushMove, FlushGuard;
    } else if a.Drain? {
      assert ch in s.acks.pending.Values;
    }
  }

  // ---- The flush ----

  /** The events a flush writes in a run, in order. */
  ghost function WrittenBy(s: State, steps: seq<Step>): seq<Event>
    requires IsRun(s, steps)
    decreases |steps|
  {
    if steps == [] then []
    else (if steps[0].FlushWrite? then [s.flush.rows[s.flush.i]] else []) + WrittenBy(Apply(s, steps[0]), steps[1..])
  }

  predicate Stops(a: Step) {
    a.FlushAbort? || a.FlushWriteFails? || a.FlushEnd? || a.Crash?
  }

  /** No cancellation, write error or crash, and not yet finished. */
  predicate Undisturbed(steps: seq<Step>) {
    forall i :: 0 <= i < |steps| ==> !Stops(steps[i])
  }

  lemma FlushStepProgress(s: State, a: Step)
    requires s.flush.Flushing? && Guard(s, a) && !Stops(a)
    ensures var f, f' := s.flush, Apply(s, a).flush;
            && f'.Flushing? && f'.start == f.start && f'.rows == f.rows
            && f'.offered == f.offered + if a.FlushWrite? then [f.rows[f.i]] else []
  {
    hide Mark, Purged, Full, Register, Forget, Take, DrainAll, Lost;
    if IsWorkerStep(a) {
      WorkerFrame(s, a);
      hide Apply, Guard;
    }
  }

  lemma OfferedMore(offered: seq<Event>, now: seq<Event>, later: seq<Event>)
    ensures (offered + now) + later == offered + (now + later)
  {
  }

  lemma {:induction false} FlushProgress(s: State, steps: seq<Step>)
    requires s.flush.Flushing? && IsRun(s, steps) && Undisturbed(steps)
    ensures var f, f' := s.flush, After(s, steps).flush;
            && f'.Flushing? && f'.start == f.start && f'.rows == f.rows
            && f'.offered == f.offered + WrittenBy(s, steps)
    decreases |steps|
  {
    if steps != [] {
      hide Apply, Guard, Stops;
      var a, rest := steps[0], steps[1..];
      var now := if a.FlushWrite? then [s.flush.rows[s.flush.i]] else [];
      FlushStepProgress(s, a);
      assert Undisturbed(rest);
      FlushProgress(Apply(s, a), rest);
      var later := WrittenBy(Apply(s, a), rest);
      assert WrittenBy(s, steps) == now + later && After(s, steps) == After(Apply(s, a), rest);
      hide IsRun, After, Written, Undisturbed;
      OfferedMore(s.flush.offered, now, later);
    }
  }

  /** A flush that ends by itself has written every row that was pending when it started, each once and in
      ascending order of id, whatever happened meanwhile: rows marked, purged and added, entries acknowledged, timed
      out or drained, and rows passed over because the map was full. */
  lemma FlushIsComplete(before: seq<Step>, during: seq<Step>)
    requires IsRun(INITIAL, before) && IsRun(After(INITIAL, before), [FlushStart] + during) && Undisturbed(during)
    requires var s := After(After(INITIAL, before), [FlushStart] + during); Guard(s, FlushEnd)
    ensures var s0 := After(INITIAL, before);
            var written := WrittenBy(s0, [FlushStart] + during);
            && written == PendingEvents(s0.table) && StrictlyAscending(written)
            && (forall e :: e in written <==> IsPending(s0.table, e.id) && s0.table.rows[e.id].hash == e.hash)
            && (forall e :: e in written ==> e in After(s0, [FlushStart] + during).wire)
  {
    hide IsRun, After, Inv, Guard, Written, Undisturbed, StrictlyAscending, PendingEvents;
    Reachable(before);
    FlushFrom(After(INITIAL, before), during);
  }

  lemma FlushFrom(s0: State, during: seq<Step>)
    requires Inv(s0) && IsRun(s0, [FlushStart] + during) && Undisturbed(during)
    requires Guard(After(s0, [FlushStart] + during), FlushEnd)
    ensures var written := WrittenBy(s0, [FlushStart] + during);
            && written == PendingEvents(s0.table) && StrictlyAscending(written)
            && (forall e :: e in written <==> IsPending(s0.table, e.id) && s0.table.rows[e.id].hash == e.hash)
            && (forall e :: e in written ==> e in After(s0, [FlushStart] + during).wire)
  {
    RunKeepsInv(s0, [FlushStart] + during);
    PendingEventsExact(s0.table);
    var s1 := Apply(s0, FlushStart);
    assert ([FlushStart] + during)[1..] == during;
    FlushProgress(s1, during);
    EndedFlush(After(s1, during));
  }

  /** So nothing pending is forgotten: a row that was pending at some moment of a run is written by every later flush that
      ends by itself, unless its message has been received before that flush. */
  lemma OfferedAgain(before: seq<Step>, between: seq<Step>, during: seq<Step>, id: Id)
    requires IsRun(INITIAL, before) && IsRun(After(INITIAL, before), between)
    requires IsPending(After(INITIAL, before).table, id)
    requires var s := After(After(INITIAL, before), between);
             && IsRun(s, [FlushStart] + during) && Undisturbed(during)
             && Guard(After(s, [FlushStart] + during), FlushEnd)
    ensures var s0 := After(INITIAL, before);
            var s := After(s0, between);
            var e := Event(id, s0.table.rows[id].hash);
            e in WrittenBy(s, [FlushStart] + during) || e in s.cloud
  {
    hide IsRun, After, Inv, Guard, Written, Undisturbed, StrictlyAscending, PendingEvents;
    var s0 := After(INITIAL, before);
    var s := After(s0, between);
    Reachable(before);
    RunKeepsInv(s0, between);
    StaysPendingOrReceived(s0, between, Event(id, s0.table.rows[id].hash));
    FlushFrom(s, during);
  }

  lemma EndedFlush(s: State)
    requires FlushOk(s) && Guard(s, FlushEnd)
    ensures s.flush.offered == PendingEvents(s.flush.start)
  {
  }

  // ---- What a wake-up means ----

  /** Whenever a flush can be woken, in any run, its channel was closed by exactly one of the end of a session and
      AckDelivered; and if by AckDelivered, the channel was made for the row being flushed and the cloud has that very row. */
  lemma WakeUpMeans(steps: seq<Step>)
    requires IsRun(INITIAL, steps) && Enabled(After(INITIAL, steps), FlushWoken)
    ensures var s := After(INITIAL, steps);
            var ch := s.flush.phase.ch;
            && (ch in s.answered <==> ch !in s.swept)
            && (ch in s.answered ==>
                  && ch < |s.acks.made| && s.flush.i < |s.flush.rows| && s.acks.made[ch] == s.flush.rows[s.flush.i].id
                  && s.flush.rows[s.flush.i] in s.cloud)
  {
    hide IsRun, After;
    Reachable(steps);
    AnsweredRow(After(INITIAL, steps));
  }

  lemma AnsweredRow(s: State)
    requires Inv(s) && Guard(s, FlushWoken)
    ensures var ch := s.flush.phase.ch;
            && (ch in s.answered <==> ch !in s.swept)
            && (ch in s.answered ==>
                  && ch < |s.acks.made| && s.flush.i < |s.flush.rows| && s.acks.made[ch] == s.flush.rows[s.flush.i].id
                  && s.flush.rows[s.flush.i] in s.cloud)
  {
    hide MarksAreEarned, RemovedAreSafe, SlotsHold, ChannelsOk, TableOk, PendingEvents;
    var ch, row := s.flush.phase.ch, s.flush.rows[s.flush.i];
    if ch in s.answered {
      assert Answers(s, ch);
      var e :| e in s.cloud && e.id == row.id;
      assert Genuine(s, e) && row in s.flush.rows && Genuine(s, row);
      assert e == row;
    }
  }

  predicate NoDrain(steps: seq<Step>) {
    forall i :: 0 <= i < |steps| ==> !steps[i].Drain?
  }

  lemma {:induction false} SweptOnlyByDrain(s: State, steps: seq<Step>)
    requires IsRun(s, steps) && NoDrain(steps)
    ensures After(s, steps).swept == s.swept
    decreases |steps|
  {
    if steps != [] {
      hide Guard, Apply;
      if steps[0].AckClose? { CloseSweepsNothing(s); } else { ClosedFrame(s, steps[0]); }
      assert NoDrain(steps[1..]);
      SweptOnlyByDrain(Apply(s, steps[0]), steps[1..]);
    }
  }

  lemma CloseSweepsNothing(s: State)
    requires Guard(s, AckClose)
    ensures Apply(s, AckClose).swept == s.swept
  {
  }

  /** If no session ends between registering and waking, a wake-up is an acknowledgement of the row. */
  lemma WokenIsAcked(before: seq<Step>, during: seq<Step>)
    requires IsRun(INITIAL, before) && Guard(After(INITIAL, before), FlushRegister) && !Full(After(INITIAL, before).acks)
    requires var s := Apply(After(INITIAL, before), FlushRegister); IsRun(s, during) && NoDrain(during)
    requires var s := Apply(After(INITIAL, before), FlushRegister);
             After(s, during).flush == s.flush && Guard(After(s, during), FlushWoken)
    ensures var f := After(INITIAL, before).flush;
            f.rows[f.i] in After(Apply(After(INITIAL, before), FlushRegister), during).cloud
  {
    hide IsRun, After, Inv, Full;
    var s0 := After(INITIAL, before);
    Reachable(before);
    NewChannelNotSwept(s0);
    var s := Apply(s0, FlushRegister);
    StepKeepsInv(s0, FlushRegister);
    RunKeepsInv(s, during);
    SweptOnlyByDrain(s, during);
    AnsweredRow(After(s, during));
  }

  lemma NewChannelNotSwept(s: State)
    requires Inv(s)
    ensures |s.acks.made| !in s.swept
  {
    hide IdsNameOnce, FlushOk, RemovedAreSafe, SlotsHold, MarksAreEarned;
  }

  /** The end of a session wakes it without one: whenever a flush waits on an entry and the reader is at rest, the
      session may end and be drained, and the flush goes on with nothing marked and nothing received. */
  lemma WokenWithoutAck(s: State)
    requires s.connected && !s.drained && s.acks.acking.NoAck? && s.flush.Flushing? && s.flush.phase.Waiting?
    requires exists id :: id in s.acks.pending && s.acks.pending[id] == s.flush.phase.ch
    ensures var steps := [SessionEnds, Drain, FlushWoken];
            && IsRun(s, steps) && After(s, steps).table == s.table && After(s, steps).cloud == s.cloud
            && After(s, steps).flush == s.flush.(i := s.flush.i + 1, phase := ToWrite)
  {
    var s1 := Apply(s, SessionEnds);
    var s2 := Apply(s1, Drain);
    Drained(s1);
    var s3 := Apply(s2, FlushWoken);
    assert s3.table == s.table && s3.cloud == s.cloud && s3.flush == s.flush.(i := s.flush.i + 1, phase := ToWrite);
    hide Apply, Guard;
    RunOfThree(s, SessionEnds, Drain, FlushWoken);
  }

  lemma RunOfThree(s: State, a: Step, b: Step, c: Step)
    requires Enabled(s, a) && Enabled(Apply(s, a), b) && Enabled(Apply(Apply(s, a), b), c)
    ensures IsRun(s, [a, b, c]) && After(s, [a, b, c]) == Apply(Apply(Apply(s, a), b), c)
  {
    hide Apply, Guard;
    RunStep(Apply(Apply(s, a), b), c, []);
    RunStep(Apply(s, a), b, [c]);
    RunStep(s, a, [b, c]);
    assert [c] + [] == [c] && [b] + [c] == [b, c] && [a] + [b, c] == [a, b, c];
  }

  /** A drain closes the channel a flush waits on. */
  lemma Drained(s: State)
    requires Guard(s, Drain) && s.flush.Flushing? && s.flush.phase.Waiting?
    requires exists id :: id in s.acks.pending && s.acks.pending[id] == s.flush.phase.ch
    ensures var s' := Apply(s, Drain);
            Guard(s', FlushWoken) && s'.table == s.table && s'.cloud == s.cloud && s'.flush == s.flush
  {
    assert s.flush.phase.ch in s.acks.pending.Values;
  }

  lemma RunStep(s: State, a: Step, rest: seq<Step>)
    requires Enabled(s, a) && IsRun(Apply(s, a), rest)
    ensures IsRun(s, [a] + rest) && After(s, [a] + rest) == After(Apply(s, a), rest)
  {
    hide Guard, Apply;
    assert ([a] + rest)[1..] == rest;
  }

  /** A message is stored, a session begins and a flush waits for it. */
  const STORED: seq<Step> := [Arrive(0, 0, "h"), ReadSms(0, 0), InsertOk(0, 1, 0)]
  const WAITING: seq<Step> := [Connect, FlushStart, FlushWrite, FlushRegister]

  lemma Store() returns (s: State)
    ensures forall rest :: IsRun(s, rest) ==> IsRun(INITIAL, STORED + rest) && After(INITIAL, STORED + rest) == After(s, rest)
    ensures s == INITIAL.(sims := map[(0, 0) := "h"], workers := map[0 := Stored(0, "h", 1, false)],
                          table := Table(map[1 := Row("h", Pending, 0)], 2), issued := map[1 := "h"])
  {
    var s1 := Apply(INITIAL, Arrive(0, 0, "h"));
    var s2 := Apply(s1, ReadSms(0, 0));
    assert Enabled(s2, InsertOk(0, 1, 0));
    s := Apply(s2, InsertOk(0, 1, 0));
    hide Apply, Guard;
    forall rest | IsRun(s, rest)
      ensures IsRun(INITIAL, STORED + rest) && After(INITIAL, STORED + rest) == After(s, rest)
    {
      RunStep(s2, InsertOk(0, 1, 0), rest);
      RunStep(s1, ReadSms(0, 0), [InsertOk(0, 1, 0)] + rest);
      RunStep(INITIAL, Arrive(0, 0, "h"), [ReadSms(0, 0)] + ([InsertOk(0, 1, 0)] + rest));
      assert [Arrive(0, 0, "h")] + ([ReadSms(0, 0)] + ([InsertOk(0, 1, 0)] + rest)) == STORED + rest;
    }
  }

  lemma OnePending(t: Table)
    requires t == Table(map[1 := Row("h", Pending, 0)], 2)
    ensures PendingEvents(t) == [Event(1, "h")]
  {
    assert PendingBelow(t, 1) == PendingBelow(t, 0) == [];
  }

  lemma Wait(s0: State) returns (s: State)
    requires !s0.connected && s0.drained && s0.flush.NoFlush? && s0.acks == INITIAL.acks
    requires s0.table == Table(map[1 := Row("h", Pending, 0)], 2)
    ensures forall rest :: IsRun(s, rest) ==> IsRun(s0, WAITING + rest) && After(s0, WAITING + rest) == After(s, rest)
    ensures s.connected && !s.drained && s.acks == Acks(map[1 := 0], [1], multiset{}, NoAck) && s.cloud == s0.cloud
    ensures s.flush == Flushing(s0.table, [Event(1, "h")], 0, Waiting(0), [Event(1, "h")]) && s.table == s0.table
  {
    OnePending(s0.table);
    hide PendingEvents;
    var s1 := Apply(s0, Connect);
    var s2 := Apply(s1, FlushStart);
    var s3 := Apply(s2, FlushWrite);
    s := Apply(s3, FlushRegister);
    assert s.acks == Register(s0.acks, 1);
    hide Apply, Guard;
    forall rest | IsRun(s, rest) ensures IsRun(s0, WAITING + rest) && After(s0, WAITING + rest) == After(s, rest) {
      RunOfFour(s0, s1, s2, s3, s, rest);
    }
  }

  lemma RunOfFour(s0: State, s1: State, s2: State, s3: State, s4: State, rest: seq<Step>)
    requires Enabled(s0, Connect) && s1 == Apply(s0, Connect) && Enabled(s1, FlushStart) && s2 == Apply(s1, FlushStart)
    requires Enabled(s2, FlushWrite) && s3 == Apply(s2, FlushWrite) && Enabled(s3, FlushRegister) && s4 == Apply(s3, FlushRegister)
    requires IsRun(s4, rest)
    ensures IsRun(s0, WAITING + rest) && After(s0, WAITING + rest) == After(s4, rest)
  {
    hide Apply, Guard;
    RunStep(s3, FlushRegister, rest);
    RunStep(s2, FlushWrite, [FlushRegister] + rest);
    RunStep(s1, FlushStart, [FlushWrite] + ([FlushRegister] + rest));
    RunStep(s0, Connect, [FlushStart] + ([FlushWrite] + ([FlushRegister] + rest)));
    assert [Connect] + ([FlushStart] + ([FlushWrite] + ([FlushRegister] + rest))) == WAITING + rest;
  }

  /** Such a run from the start: one message is stored and offered, the session ends, and the flush passes the row as if it
      were acknowledged, though the cloud has received nothing and the row is pending. */
  lemma WokenByTheEnd()
    ensures var steps := STORED + (WAITING + [SessionEnds, Drain, FlushWoken]);
            && IsRun(INITIAL, steps)
            && var s := After(INITIAL, steps); s.flush.Flushing? && s.flush.i == 1 && s.cloud == {} && IsPending(s.table, 1)
  {
    var s := Store();
    var w := Wait(s);
    assert 1 in w.acks.pending && w.acks.pending[1] == w.flush.phase.ch;
    WokenWithoutAck(w);
  }

  // ---- Why ids must never be issued twice ----

  /** Runs of a table without AUTOINCREMENT: a new row takes any id that no row has at the moment. */
  ghost predicate IsReusingRun(s: State, steps: seq<Step>)
    decreases |steps|
  {
    steps == [] ||
    (Guard(s, steps[0]) && (steps[0].InsertOk? ==> steps[0].id !in s.table.rows) && IsReusingRun(Apply(s, steps[0]), steps[1..]))
  }

  ghost function AfterReusing(s: State, steps: seq<Step>): State
    requires IsReusingRun(s, steps)
    decreases |steps|
  {
    if steps == [] then s else AfterReusing(Apply(s, steps[0]), steps[1..])
  }

  lemma ReusingStep(s: State, a: Step, rest: seq<Step>)
    requires Guard(s, a) && (a.InsertOk? ==> a.id !in s.table.rows) && IsReusingRun(Apply(s, a), rest)
    ensures IsReusingRun(s, [a] + rest) && AfterReusing(s, [a] + rest) == AfterReusing(Apply(s, a), rest)
  {
    hide Guard, Apply;
    assert ([a] + rest)[1..] == rest;
  }

  /** Without AUTOINCREMENT a repeated acknowledgement loses a message: from any state in which the cloud has received
      an id that no row has any more, the next new message stored under that id is removed from its SIM and marked
      delivered though the cloud never saw it. */
  lemma ReusedIdLoses(s: State, m: Modem, slot: Slot, i: Id)
    requires s.connected && s.acks.acking.NoAck? && Acked(s, i) && i !in s.table.rows && i !in s.acks.pending
    requires (m, slot) in s.sims && Worker(s, m).Idle?
    requires !HasHash(s.table, s.sims[(m, slot)]) && !InCloud(s, s.sims[(m, slot)])
    ensures var steps := [ReadSms(m, slot), InsertOk(m, i, 0), DeleteOk(m), AckTake(i), AckMark];
            IsReusingRun(s, steps) && !NoLoss(AfterReusing(s, steps))
  {
    var h := s.sims[(m, slot)];
    var s3 := StoredAndRemoved(s, m, slot, i);
    var s4, s5 := MarkedByOld(s3, i);
    LosesMarked(s, s5, i, h);
    hide Apply, Guard, NoLoss;
    ReusingStep(s4, AckMark, []);
    assert [AckMark] + [] == [AckMark];
    ReusingStep(s3, AckTake(i), [AckMark]);
    assert [AckTake(i)] + [AckMark] == [AckTake(i), AckMark];
    FirstThree(s, m, slot, i, [AckTake(i), AckMark]);
    assert [ReadSms(m, slot), InsertOk(m, i, 0), DeleteOk(m)] + [AckTake(i), AckMark]
        == [ReadSms(m, slot), InsertOk(m, i, 0), DeleteOk(m), AckTake(i), AckMark];
  }

  /** An old acknowledgement marks the row that has its id now. */
  lemma MarkedByOld(s: State, i: Id) returns (s4: State, s5: State)
    requires s.connected && s.acks.acking.NoAck? && Acked(s, i) && i !in s.acks.pending
    ensures Guard(s, AckTake(i)) && s4 == Apply(s, AckTake(i)) && Guard(s4, AckMark) && s5 == Apply(s4, AckMark)
    ensures s5.table == Mark(s.table, i) && s5.removed == s.removed && s5.cloud == s.cloud
  {
    s4 := Apply(s, AckTake(i));
    s5 := Apply(s4, AckMark);
  }

  lemma LosesMarked(s: State, s5: State, i: Id, h: Hash)
    requires i !in s.table.rows && !HasHash(s.table, h) && !InCloud(s, h)
    requires h in s5.removed && s5.cloud == s.cloud && s5.table == Mark(InsertAs(s.table, i, h, 0), i)
    ensures !NoLoss(s5)
  {
    assert forall id :: IsPending(s5.table, id) && s5.table.rows[id].hash == h ==> id in s.table.rows && s.table.rows[id].hash == h;
    assert !InCloud(s5, h);
  }

  ghost function ThreeSteps(s: State, m: Modem, slot: Slot, i: Id): State
    requires (m, slot) in s.sims && Worker(s, m).Idle? && !HasHash(s.table, s.sims[(m, slot)])
  {
    Apply(Apply(Apply(s, ReadSms(m, slot)), InsertOk(m, i, 0)), DeleteOk(m))
  }

  lemma StoredAndRemoved(s: State, m: Modem, slot: Slot, i: Id) returns (s3: State)
    requires (m, slot) in s.sims && Worker(s, m).Idle? && !HasHash(s.table, s.sims[(m, slot)])
    ensures s3 == ThreeSteps(s, m, slot, i)
    ensures var h := s.sims[(m, slot)];
            && s3.table == InsertAs(s.table, i, h, 0) && h in s3.removed && s3.cloud == s.cloud && s3.acks == s.acks
            && s3.connected == s.connected
  {
    s3 := ThreeSteps(s, m, slot, i);
  }

  lemma FirstThree(s: State, m: Modem, slot: Slot, i: Id, rest: seq<Step>)
    requires (m, slot) in s.sims && Worker(s, m).Idle? && !HasHash(s.table, s.sims[(m, slot)]) && i !in s.table.rows
    requires IsReusingRun(ThreeSteps(s, m, slot, i), rest)
    ensures var steps := [ReadSms(m, slot), InsertOk(m, i, 0), DeleteOk(m)] + rest;
            IsReusingRun(s, steps) && AfterReusing(s, steps) == AfterReusing(ThreeSteps(s, m, slot, i), rest)
  {
    var s1 := Apply(s, ReadSms(m, slot));
    var s2 := Apply(s1, InsertOk(m, i, 0));
    assert Guard(s2, DeleteOk(m)) && s1.table == s.table;
    hide Apply, Guard;
    ReusingStep(s2, DeleteOk(m), rest);
    ReusingStep(s1, InsertOk(m, i, 0), [DeleteOk(m)] + rest);
    ReusingStep(s, ReadSms(m, slot), [InsertOk(m, i, 0)] + ([DeleteOk(m)] + rest));
    assert [ReadSms(m, slot)] + ([InsertOk(m, i, 0)] + ([DeleteOk(m)] + rest))
        == [ReadSms(m, slot), InsertOk(m, i, 0), DeleteOk(m)] + rest;
  }
}
