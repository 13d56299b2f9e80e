/** Store-and-forward delivery as a system of interleaved steps: the modem workers' receive path, the
    buffer table, the bounded outbox, the tunnel's sessions with their writer, reader, flush and drain,
    a cloud that receives some of what is written and acknowledges some of what it received, as late and as
    often as it likes, and crashes that keep only the SIM cards and the table. */
module Delivery {
  import opened Buffer

  const OUTBOX_SIZE := 256
  const MAX_PENDING_ACKS := 1000

  type Modem = nat
  type Slot = nat
  type Chan = nat

  /** What waits in the outbox: a received message, or anything else the gateway tells the cloud (TASK_ACKs, alerts). */
  datatype Out = Sms(event: Event) | Other(tag: nat)

  /** What a message in the outbox puts on the wire. */
  function Written(o: Out): set<Event> {
    if o.Sms? then {o.event} else {}
  }

  /** Where a worker stands in receiveSMS. A duplicate has no id. */
  datatype Receiving =
    | Idle
    | Read(slot: Slot, hash: Hash)
    | Stored(slot: Slot, hash: Hash, id: Id, duplicate: bool)
    | Cleared(hash: Hash, id: Id)

  /** Where the flush that holds the flush lock stands; `start` is the table its rows were read from. */
  datatype Flush =
    | NoFlush
    | Flushing(start: Table, rows: seq<Event>, i: nat, phase: Phase, offered: seq<Event>)

  datatype Phase = ToWrite | ToRegister | Waiting(ch: Chan)

  /** Where the reader stands in AckDelivered: the entry is taken out under the lock, the channel is closed
      outside it, then the row is marked. */
  datatype Acking = NoAck | Closing(id: Id, ch: Chan) | Marking(id: Id)

  /** The ACK bookkeeping of the tunnel manager. */
  datatype Acks = Acks(
    pending: map<Id, Chan>,
    made: seq<Id>,            // channel number n was made for row made[n]
    closed: multiset<Chan>,   // every close, also of a channel closed before
    acking: Acking)

  /** flushBuffer makes a channel for a row it has written, unless the map is full. */
  predicate Full(k: Acks) {
    |k.pending| >= MAX_PENDING_ACKS
  }

  function Register(k: Acks, id: Id): Acks {
    k.(pending := k.pending[id := |k.made|], made := k.made + [id])
  }

  /** On a timeout the entry of the row goes. */
  function Forget(k: Acks, id: Id): Acks {
    k.(pending := k.pending - {id})
  }

  /** AckDelivered, the part under the lock. */
  function Take(k: Acks, id: Id): Acks {
    if id in k.pending then k.(pending := k.pending - {id}, acking := Closing(id, k.pending[id]))
    else k.(acking := Marking(id))
  }

  /** AckDelivered, the close. */
  function Close(k: Acks): Acks
    requires k.acking.Closing?
  {
    k.(closed := k.closed + multiset{k.acking.ch}, acking := Marking(k.acking.id))
  }

  /** The end of a session closes and removes every entry. */
  function DrainAll(k: Acks): Acks {
    k.(pending := map[], closed := k.closed + multiset(k.pending.Values))
  }

  /** A crash forgets everything but the numbers already used. */
  function Lost(k: Acks): Acks {
    k.(pending := map[], acking := NoAck)
  }

  datatype State = State(
    sims: map<(Modem, Slot), Hash>,
    workers: map<Modem, Receiving>,
    table: Table,
    outbox: seq<Out>,
    connected: bool,
    drained: bool,
    flush: Flush,
    acks: Acks,
    wire: set<Event>,         // written, or given up in the middle of writing: may still arrive
    cloud: set<Event>,        // received
    removed: set<Hash>,       // deleted from a SIM by the receive path
    issued: map<Id, Hash>,    // every id ever given to a row
    swept: set<Chan>,         // closed by the end of a session
    answered: set<Chan>)      // closed by AckDelivered

  const INITIAL :=
    State(map[], map[], EMPTY, [], false, true, NoFlush, Acks(map[], [], multiset{}, NoAck), {}, {}, {}, map[], {}, {})

  datatype Step =
    | Arrive(m: Modem, slot: Slot, hash: Hash)
    | Bypass(m: Modem, slot: Slot)
    | ReadSms(m: Modem, slot: Slot)
    | InsertOk(m: Modem, id: Id, now: int)
    | InsertDuplicate(m: Modem)
    | InsertFails(m: Modem)
    | DeleteOk(m: Modem)
    | DeleteFails(m: Modem)
    | Push(m: Modem)
    | PushOther(tag: nat)
    | Connect
    | SendOk
    | SendFails
    | SessionEnds
    | Drain
    | CloudReceives(e: Event)
    | AckTake(id: Id)
    | AckClose
    | AckMark
    | AckMarkFails
    | Purge(cutoff: int)
    | FlushStart
    | FlushWrite
    | FlushWriteFails
    | FlushRegister
    | FlushWoken
    | FlushTimeout
    | FlushAbort
    | FlushEnd
    | Crash

  function Worker(s: State, m: Modem): Receiving {
    if m in s.workers then s.workers[m] else Idle
  }

  /** Push: a full outbox drops the event. */
  function Pushed(outbox: seq<Out>, o: Out): seq<Out> {
    if |outbox| < OUTBOX_SIZE then outbox + [o] else outbox
  }

  ghost predicate Acked(s: State, id: Id) {
    exists e :: e in s.cloud && e.id == id
  }

  /** Steps of a SIM card or a modem worker. */
  predicate IsWorkerStep(a: Step) {
    a.Arrive? || a.Bypass? || a.ReadSms? || a.InsertOk? || a.InsertDuplicate? || a.InsertFails? || a.DeleteOk? ||
    a.DeleteFails? || a.Push?
  }

  /** Steps of the flush. */
  predicate IsFlushStep(a: Step) {
    a.FlushStart? || a.FlushWrite? || a.FlushWriteFails? || a.FlushRegister? || a.FlushWoken? || a.FlushTimeout? ||
    a.FlushAbort? || a.FlushEnd?
  }

  ghost predicate WorkerGuard(s: State, a: Step)
    requires IsWorkerStep(a)
  {
    match a
    case Arrive(m, slot, _) => (m, slot) !in s.sims
    case Bypass(m, slot) => (m, slot) in s.sims && Worker(s, m).Idle?
    case ReadSms(m, slot) => (m, slot) in s.sims && Worker(s, m).Idle?
    case InsertOk(m, id, _) => Worker(s, m).Read? && !HasHash(s.table, Worker(s, m).hash)
    case InsertDuplicate(m) => Worker(s, m).Read? && HasHash(s.table, Worker(s, m).hash)
    case InsertFails(m) => Worker(s, m).Read?
    case DeleteOk(m) => Worker(s, m).Stored?
    case DeleteFails(m) => Worker(s, m).Stored?
    case Push(m) => Worker(s, m).Cleared?
  }

  ghost predicate SessionGuard(s: State, a: Step)
    requires !IsWorkerStep(a) && !IsFlushStep(a)
  {
    match a
    case PushOther(_) => true
    case Connect => !s.connected && s.drained
    case SendOk => s.connected && s.outbox != []
    case SendFails => s.connected && s.outbox != [] && s.acks.acking.NoAck?
    case SessionEnds => s.connected && s.acks.acking.NoAck?
    case Drain => !s.connected && !s.drained
    case CloudReceives(e) => e in s.wire
    case AckTake(id) => s.connected && s.acks.acking.NoAck? && Acked(s, id)
    case AckClose => s.acks.acking.Closing?
    case AckMark => s.acks.acking.Marking?
    case AckMarkFails => s.acks.acking.Marking?
    case Purge(_) => true
    case Crash => true
  }

  predicate FlushGuard(f: Flush, k: Acks, a: Step)
    requires IsFlushStep(a)
  {
    match a
    case FlushStart => f.NoFlush?
    case FlushWrite => f.Flushing? && f.phase.ToWrite? && f.i < |f.rows|
    case FlushWriteFails => f.Flushing? && f.phase.ToWrite? && f.i < |f.rows|
    case FlushRegister => f.Flushing? && f.phase.ToRegister? && f.i < |f.rows|
    case FlushWoken => f.Flushing? && f.phase.Waiting? && f.phase.ch in k.closed
    case FlushTimeout => f.Flushing? && f.phase.Waiting? && f.i < |f.rows|
    case FlushAbort => f.Flushing? && !f.phase.ToRegister?
    case FlushEnd => f.Flushing? && f.phase.ToWrite? && f.i == |f.rows|
  }

  /** The guards, apart from the choice of an id for a new row. */
  ghost predicate Guard(s: State, a: Step) {
    if IsWorkerStep(a) then WorkerGuard(s, a)
    else if IsFlushStep(a) then FlushGuard(s.flush, s.acks, a)
    else SessionGuard(s, a)
  }

  /** AUTOINCREMENT: a new row takes the next id, never one issued before. */
  ghost predicate Enabled(s: State, a: Step) {
    Guard(s, a) && (a.InsertOk? ==> a.id == s.table.nextId)
  }

  ghost function WorkerApply(s: State, a: Step): State
    requires IsWorkerStep(a) && WorkerGuard(s, a)
  {
    match a
    case Arrive(m, slot, h) => s.(sims := s.sims[(m, slot) := h])
    case Bypass(m, slot) => s.(sims := s.sims - {(m, slot)})
    case ReadSms(m, slot) => s.(workers := s.workers[m := Read(slot, s.sims[(m, slot)])])
    case InsertOk(m, id, now) =>
      var w := s.workers[m];
      s.(table := InsertAs(s.table, id, w.hash, now), issued := s.issued[id := w.hash],
         workers := s.workers[m := Stored(w.slot, w.hash, id, false)])
    case InsertDuplicate(m) =>
      var w := s.workers[m];
      s.(workers := s.workers[m := Stored(w.slot, w.hash, 0, true)])
    case InsertFails(m) => s.(workers := s.workers[m := Idle])
    case DeleteOk(m) =>
      var w := s.workers[m];
      var gone := if (m, w.slot) in s.sims then {s.sims[(m, w.slot)]} else {};
      s.(sims := s.sims - {(m, w.slot)}, removed := s.removed + gone, workers := s.workers[m := AfterDelete(w)])
    case DeleteFails(m) => s.(workers := s.workers[m := AfterDelete(s.workers[m])])
    case Push(m) =>
      var w := s.workers[m];
      s.(outbox := Pushed(s.outbox, Sms(Event(w.id, w.hash))), workers := s.workers[m := Idle])
  }

  ghost function SessionApply(s: State, a: Step): State
    requires !IsWorkerStep(a) && !IsFlushStep(a) && SessionGuard(s, a)
  {
    match a
    case PushOther(tag) => s.(outbox := Pushed(s.outbox, Other(tag)))
    case Connect => s.(connected := true, drained := false)
    case SendOk => s.(outbox := s.outbox[1..], wire := s.wire + Written(s.outbox[0]))
    case SendFails => s.(outbox := s.outbox[1..], wire := s.wire + Written(s.outbox[0]), connected := false)
    case SessionEnds => s.(connected := false)
    case Drain => s.(acks := DrainAll(s.acks), drained := true, swept := s.swept + s.acks.pending.Values)
    case CloudReceives(e) => s.(cloud := s.cloud + {e})
    case AckTake(id) => s.(acks := Take(s.acks, id))
    case AckClose => s.(acks := Close(s.acks), answered := s.answered + {s.acks.acking.ch})
    case AckMark => s.(table := Mark(s.table, s.acks.acking.id), acks := s.acks.(acking := NoAck))
    case AckMarkFails => s.(acks := s.acks.(acking := NoAck))
    case Purge(cutoff) => s.(table := Purged(s.table, cutoff))
    case Crash =>
      s.(workers := map[], outbox := [], connected := false, drained := true, flush := NoFlush, acks := Lost(s.acks))
  }

  /** What a step of the flush does to itself, to the ACK bookkeeping and to the wire. */
  function FlushMove(f: Flush, k: Acks, wire: set<Event>, table: Table, a: Step): (Flush, Acks, set<Event>)
    requires IsFlushStep(a) && FlushGuard(f, k, a)
  {
    match a
    case FlushStart => (Flushing(table, PendingEvents(table), 0, ToWrite, []), k, wire)
    case FlushWrite => (f.(phase := ToRegister, offered := f.offered + [f.rows[f.i]]), k, wire + {f.rows[f.i]})
    case FlushWriteFails => (NoFlush, k, wire + {f.rows[f.i]})
    case FlushRegister =>
      if Full(k) then (f.(i := f.i + 1, phase := ToWrite), k, wire)
      else (f.(phase := Waiting(|k.made|)), Register(k, f.rows[f.i].id), wire)
    case FlushWoken => (f.(i := f.i + 1, phase := ToWrite), k, wire)
    case FlushTimeout => (f.(i := f.i + 1, phase := ToWrite), Forget(k, f.rows[f.i].id), wire)
    case FlushAbort => (NoFlush, k, wire)
    case FlushEnd => (NoFlush, k, wire)
  }

  ghost function Apply(s: State, a: Step): State
    requires Guard(s, a)
  {
    if IsWorkerStep(a) then WorkerApply(s, a)
    else if IsFlushStep(a) then
      var m := FlushMove(s.flush, s.acks, s.wire, s.table, a);
      s.(flush := m.0, acks := m.1, wire := m.2)
    else SessionApply(s, a)
  }

  /** A duplicate is finished; a new row is still to be pushed. */
  function AfterDelete(w: Receiving): Receiving
    requires w.Stored?
  {
    if w.duplicate then Idle else Cleared(w.hash, w.id)
  }

  ghost predicate IsRun(s: State, steps: seq<Step>)
    decreases |steps|
  {
    steps == [] || (Enabled(s, steps[0]) && IsRun(Apply(s, steps[0]), steps[1..]))
  }

  ghost function After(s: State, steps: seq<Step>): State
    requires IsRun(s, steps)
    decreases |steps|
  {
    if steps == [] then s else After(Apply(s, steps[0]), steps[1..])
  }

  // ---- No loss ----

  ghost predicate InCloud(s: State, h: Hash) {
    exists e :: e in s.cloud && e.hash == h
  }

  /** Every message the receive path removed from a SIM is a pending row or has reached the cloud. */
  ghost predicate NoLoss(s: State) {
    forall h :: h in s.removed ==> (exists id :: IsPending(s.table, id) && s.table.rows[id].hash == h) || InCloud(s, h)
  }

  ghost predicate Genuine(s: State, e: Event) {
    e.id in s.issued && s.issued[e.id] == e.hash
  }

  /** Ids name one message for ever: whatever mentions an id means the hash it was issued for. */
  ghost predicate IdsNameOnce(s: State) {
    && TableOk(s.table)
    && (forall id :: id in s.issued ==> id < s.table.nextId)
    && (forall id :: id in s.table.rows ==> Genuine(s, Event(id, s.table.rows[id].hash)))
    && (forall o :: o in s.outbox && o.Sms? ==> Genuine(s, o.event))
    && (forall e :: e in s.wire ==> Genuine(s, e))
    && (forall e :: e in s.cloud ==> Genuine(s, e))
    && (s.flush.Flushing? ==> forall e :: e in s.flush.rows ==> Genuine(s, e))
    && (forall m :: m in s.workers && s.workers[m].Cleared? ==> Genuine(s, Event(s.workers[m].id, s.workers[m].hash)))
    && (forall m :: m in s.workers && s.workers[m].Stored? && !s.workers[m].duplicate ==>
          Genuine(s, Event(s.workers[m].id, s.workers[m].hash)))
  }

  /** A delivered row has been received, and so has what the reader is about to mark. */
  ghost predicate MarksAreEarned(s: State) {
    && (forall id :: id in s.table.rows && s.table.rows[id].status == Delivered ==> Event(id, s.table.rows[id].hash) in s.cloud)
    && (!s.acks.acking.NoAck? ==> Acked(s, s.acks.acking.id))
  }

  ghost predicate Safe(s: State, h: Hash) {
    HasHash(s.table, h) || InCloud(s, h)
  }

  ghost predicate RemovedAreSafe(s: State) {
    && (forall h :: h in s.removed ==> Safe(s, h))
    && (forall m :: m in s.workers && s.workers[m].Stored? ==> Safe(s, s.workers[m].hash))
  }

  /** A worker in the middle of receiving deletes what it read. */
  ghost predicate SlotsHold(s: State) {
    forall m :: m in s.workers && (s.workers[m].Read? || s.workers[m].Stored?) ==>
      (m, s.workers[m].slot) in s.sims && s.sims[(m, s.workers[m].slot)] == s.workers[m].hash
  }

  // ---- Channels ----

  /** Every channel is in one place: in the map under one id, in the hands of the reader that took it out,
      or closed, once. */
  ghost predicate Apart(k: Acks) {
    && (forall id :: id in k.pending ==> InMap(k, id, k.pending[id]))
    && (forall ch :: ch in k.closed ==> ch < |k.made| && k.closed[ch] == 1)
    && (k.acking.Closing? ==> k.acking.ch < |k.made| && k.made[k.acking.ch] == k.acking.id && k.acking.ch !in k.closed)
  }

  ghost predicate InMap(k: Acks, id: Id, ch: Chan) {
    ch < |k.made| && k.made[ch] == id && ch !in k.closed && !(k.acking.Closing? && k.acking.ch == ch)
  }

  ghost predicate ChannelsOk(s: State) {
    |s.acks.pending| <= MAX_PENDING_ACKS && Apart(s.acks)
  }

  /** Each closed channel was closed by the end of a session or by AckDelivered, not by both; and what AckDelivered
      closes was made for a row the cloud has received. */
  ghost predicate ClosersOk(s: State) {
    && (forall ch :: ch in s.acks.closed <==> ch in s.swept || ch in s.answered)
    && s.swept !! s.answered
    && (forall ch :: ch in s.answered ==> Answers(s, ch))
  }

  ghost predicate Answers(s: State, ch: Chan) {
    ch < |s.acks.made| && Acked(s, s.acks.made[ch])
  }

  // ---- Flush ----

  /** A flush works through the rows pending at its start; what it has offered is the part behind it. */
  ghost predicate FlushOk(s: State) {
    s.flush.Flushing? ==>
      && TableOk(s.flush.start)
      && s.flush.rows == PendingEvents(s.flush.start)
      && s.flush.i <= |s.flush.rows|
      && (!s.flush.phase.ToWrite? ==> s.flush.i < |s.flush.rows|)
      && s.flush.offered == s.flush.rows[..Offered(s.flush)]
      && (forall e :: e in s.flush.offered ==> e in s.wire)
      && (s.flush.phase.Waiting? ==>
            s.flush.phase.ch < |s.acks.made| && s.acks.made[s.flush.phase.ch] == s.flush.rows[s.flush.i].id)
  }

  function Offered(f: Flush): nat
    requires f.Flushing?
  {
    if f.phase.ToWrite? then f.i else f.i + 1
  }
}
