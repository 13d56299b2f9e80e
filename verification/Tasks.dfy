/** Tasks from the cloud: dispatch to a worker's bounded queue, execution, and the TASK_ACK callbacks, as a system
    of steps. The tunnel's reader dispatches one task at a time; a dispatch looks the worker up under the registry's
    lock and sends to its queue outside it. */
module Tasks {
  import opened Options

  /** Tasks are numbered in the order of their arrival. */
  datatype Task = Task(no: nat, messageId: string)

  /** A worker that was cancelled drains its queue before it leaves; one that failed or was banned leaves at once.
      `at` is the number of tasks it had accepted when it left. */
  datatype Status = Live | Draining | Drained(at: nat) | Abandoned(at: nat)

  /** `done` are the tasks acknowledged by the worker, executed or refused in the drain, in order. */
  datatype Worker = Worker(iccid: string, size: nat, status: Status, executing: Option<Task>, queue: seq<Task>,
                           done: seq<Task>, accepted: seq<Task>)

  datatype Dispatch = NoDispatch | Found(task: Task, worker: nat)

  datatype State = State(
    inbound: seq<string>,       // message ids, by task number
    dispatch: Dispatch,
    registry: map<string, nat>,
    workers: seq<Worker>,
    acks: seq<Task>,            // TASK_ACK callbacks, in order
    acked: multiset<nat>,       // how often each task was acknowledged
    owners: map<nat, nat>)      // which worker accepted a task

  const INITIAL := State([], NoDispatch, map[], [], [], multiset{}, map[])

  datatype Step =
    | Register(iccid: string, size: nat)
    | Inbound(messageId: string, target: Option<string>)   // None: no ICCID in the payload
    | Enqueue
    | Take(w: nat)
    | Finish(w: nat)
    | Cancel(w: nat)
    | DrainOne(w: nat)
    | DrainEnd(w: nat)
    | Fail(w: nat)

  predicate At(s: State, w: nat, st: Status) { w < |s.workers| && s.workers[w].status == st }

  predicate Enabled(s: State, a: Step) {
    match a
    case Register(_, size) => size > 0
    case Inbound(_, _) => s.dispatch.NoDispatch?
    case Enqueue => s.dispatch.Found? && s.dispatch.worker < |s.workers|
    case Take(w) => At(s, w, Live) && s.workers[w].executing.None? && s.workers[w].queue != []
    case Finish(w) => At(s, w, Live) && s.workers[w].executing.Some?
    case Cancel(w) => At(s, w, Live) && s.workers[w].executing.None?
    case DrainOne(w) => At(s, w, Draining) && s.workers[w].queue != []
    case DrainEnd(w) => At(s, w, Draining) && s.workers[w].queue == []
    case Fail(w) => At(s, w, Live) && s.workers[w].executing.None?
  }

  /** A TASK_ACK for a task, whoever sends it. */
  function Ack(s: State, t: Task): State {
    s.(acks := s.acks + [t], acked := s.acked + multiset{t.no})
  }

  function WithWorker(s: State, w: nat, k: Worker): State
    requires w < |s.workers|
  {
    s.(workers := s.workers[w := k])
  }

  function Started(k: Worker): Worker
    requires k.queue != []
  {
    k.(executing := Some(k.queue[0]), queue := k.queue[1..])
  }

  function Finished(k: Worker): Worker
    requires k.executing.Some?
  {
    k.(executing := None, done := k.done + [k.executing.value])
  }

  function Refused(k: Worker): Worker
    requires k.queue != []
  {
    k.(queue := k.queue[1..], done := k.done + [k.queue[0]])
  }

  function Accepting(k: Worker, t: Task): Worker {
    k.(queue := k.queue + [t], accepted := k.accepted + [t])
  }

  function Apply(s: State, a: Step): State
    requires Enabled(s, a)
  {
    match a
    case Register(iccid, size) =>
      s.(registry := s.registry[iccid := |s.workers|], workers := s.workers + [Worker(iccid, size, Live, None, [], [], [])])
    case Inbound(messageId, target) =>
      var t := Task(|s.inbound|, messageId);
      var s1 := s.(inbound := s.inbound + [messageId]);
      if target.Some? && target.value in s.registry then s1.(dispatch := Found(t, s.registry[target.value])) else Ack(s1, t)
    case Enqueue =>
      var t, w := s.dispatch.task, s.dispatch.worker;
      var s1 := s.(dispatch := NoDispatch);
      if |s.workers[w].queue| < s.workers[w].size
      then WithWorker(s1.(owners := s.owners[t.no := w]), w, Accepting(s.workers[w], t))
      else Ack(s1, t)
    case Take(w) => WithWorker(s, w, Started(s.workers[w]))
    case Finish(w) => Ack(WithWorker(s, w, Finished(s.workers[w])), s.workers[w].executing.value)
    case Cancel(w) => WithWorker(s, w, s.workers[w].(status := Draining)).(registry := s.registry - {s.workers[w].iccid})
    case DrainOne(w) => Ack(WithWorker(s, w, Refused(s.workers[w])), s.workers[w].queue[0])
    case DrainEnd(w) => WithWorker(s, w, s.workers[w].(status := Drained(|s.workers[w].accepted|)))
    case Fail(w) =>
      WithWorker(s, w, s.workers[w].(status := Abandoned(|s.workers[w].accepted|))).(registry := s.registry - {s.workers[w].iccid})
  }

  predicate IsRun(s: State, steps: seq<Step>)
    decreases |steps|
  {
    steps == [] || (Enabled(s, steps[0]) && IsRun(Apply(s, steps[0]), steps[1..]))
  }

  function After(s: State, steps: seq<Step>): State
    requires IsRun(s, steps)
    decreases |steps|
  {
    if steps == [] then s else After(Apply(s, steps[0]), steps[1..])
  }

  // ---- What every run keeps ----

  function InHand(k: Worker): seq<Task> {
    match k.executing case None => [] case Some(t) => [t]
  }

  predicate Ascending(ts: seq<Task>) {
    forall i :: 0 < i < |ts| ==> ts[i - 1].no < ts[i].no
  }

  /** Tasks leave in the order they came: acknowledged, then the one in hand, then the queue. */
  ghost predicate WorkerOk(k: Worker) {
    && k.accepted == k.done + InHand(k) + k.queue
    && |k.queue| <= k.size
    && Ascending(k.accepted)
    && (!k.status.Live? ==> k.executing.None?)
    && (k.status.Drained? ==> k.status.at == |k.done|)
    && (k.status.Abandoned? ==> |k.done| <= k.status.at <= |k.accepted|)
  }

  /** A worker's tasks are its own, and of them exactly those done are acknowledged. */
  ghost predicate TasksOk(s: State, w: nat)
    requires w < |s.workers|
  {
    var k := s.workers[w];
    && (forall i :: 0 <= i < |k.accepted| ==> Known(s, k.accepted[i]) && k.accepted[i].no in s.owners && s.owners[k.accepted[i].no] == w)
    && |k.done| <= |k.accepted|
    && (forall i :: 0 <= i < |k.accepted| ==> s.acked[k.accepted[i].no] == if i < |k.done| then 1 else 0)
  }

  predicate Known(s: State, t: Task) {
    t.no < |s.inbound| && s.inbound[t.no] == t.messageId
  }

  /** The task being dispatched is the newest and nobody's yet. */
  ghost predicate DispatchOk(s: State) {
    && (forall n :: n in s.owners ==> n < |s.inbound|)
    && (forall n :: n in s.acked ==> n < |s.inbound| && s.acked[n] == 1)
    && (s.dispatch.Found? ==>
          && s.dispatch.task.no == |s.inbound| - 1 && Known(s, s.dispatch.task) && s.dispatch.worker < |s.workers|
          && s.dispatch.task.no !in s.owners && s.dispatch.task.no !in s.acked)
  }

  function Numbers(ts: seq<Task>): (ns: seq<nat>)
    ensures |ns| == |ts|
  {
    seq(|ts|, i requires 0 <= i < |ts| => ts[i].no)
  }

  /** Every TASK_ACK carries the message id of the task it is for. */
  ghost predicate AcksOk(s: State) {
    && (forall i :: 0 <= i < |s.acks| ==> Known(s, s.acks[i]))
    && s.acked == multiset(Numbers(s.acks))
  }

  /** The registry names live workers under their own ICCID. */
  ghost predicate RegistryOk(s: State) {
    forall i :: i in s.registry ==> At(s, s.registry[i], Live) && s.workers[s.registry[i]].iccid == i
  }

  ghost predicate WorkersOk(s: State) {
    forall w: nat :: w < |s.workers| ==> WorkerOk(s.workers[w])
  }

  ghost predicate AllTasksOk(s: State) {
    forall w: nat :: w < |s.workers| ==> TasksOk(s, w)
  }

  predicate IsDispatched(s: State, n: nat) {
    s.dispatch.Found? && s.dispatch.task.no == n
  }

  ghost predicate HasAccepted(s: State, w: nat, n: nat) {
    w < |s.workers| && exists i :: 0 <= i < |s.workers[w].accepted| && s.workers[w].accepted[i].no == n
  }

  /** A task that came in is being dispatched, was accepted by a worker, or was refused and answered. */
  ghost predicate Placed(s: State, n: nat) {
    IsDispatched(s, n) || (if n in s.owners then HasAccepted(s, s.owners[n], n) else s.acked[n] == 1)
  }

  ghost predicate AllPlaced(s: State) {
    forall n: nat :: n < |s.inbound| ==> Placed(s, n)
  }

  ghost predicate Inv(s: State) {
    WorkersOk(s) && AllTasksOk(s) && DispatchOk(s) && AcksOk(s) && RegistryOk(s) && AllPlaced(s)
  }

  // ---- Steps ----

  lemma {:induction false} AscendingPairs(ts: seq<Task>, a: nat, b: nat)
    requires Ascending(ts) && a < b < |ts|
    ensures ts[a].no < ts[b].no
    decreases b
  {
    if a < b - 1 { AscendingPairs(ts, a, b - 1); }
  }

  lemma MovesKeepWorker(k: Worker)
    requires WorkerOk(k)
    ensures k.status.Live? && k.executing.None? && k.queue != [] ==> WorkerOk(Started(k))
    ensures k.executing.Some? ==> WorkerOk(Finished(k))
    ensures k.status.Draining? && k.queue != [] ==> WorkerOk(Refused(k))
  {
    if k.queue != [] {
      assert k.queue == [k.queue[0]] + k.queue[1..];
      if k.executing.None? {
        assert k.accepted == k.done + k.queue;
        assert k.done + [k.queue[0]] + k.queue[1..] == k.accepted;
        assert (k.done + [k.queue[0]]) + [] + k.queue[1..] == k.accepted;
      }
    }
    if k.executing.Some? {
      assert (k.done + [k.executing.value]) + [] + k.queue == k.accepted;
    }
  }

  lemma AcceptKeepsWorker(k: Worker, t: Task)
    requires WorkerOk(k) && |k.queue| < k.size && (forall i :: 0 <= i < |k.accepted| ==> k.accepted[i].no < t.no)
    ensures WorkerOk(Accepting(k, t))
  {
    assert k.done + InHand(k) + (k.queue + [t]) == (k.done + InHand(k) + k.queue) + [t];
  }

  lemma StatusKeepsWorker(k: Worker, st: Status)
    requires WorkerOk(k) && k.executing.None? && !st.Live?
    requires st.Drained? ==> k.queue == [] && st.at == |k.accepted|
    requires st.Abandoned? ==> st.at == |k.accepted|
    ensures WorkerOk(k.(status := st))
  {
  }

  lemma ChangedWorkerOk(s: State, a: Step, w: nat)
    requires WorkersOk(s) && AllTasksOk(s) && DispatchOk(s) && Enabled(s, a)
    requires w < |s.workers| && w < |Apply(s, a).workers| && Apply(s, a).workers[w] != s.workers[w]
    ensures WorkerOk(Apply(s, a).workers[w])
  {
    var k := s.workers[w];
    assert WorkerOk(k) && TasksOk(s, w);
    hide WorkerOk;
    if a.Enqueue? {
      EnqueueOrder(s, w);
      AcceptKeepsWorker(k, s.dispatch.task);
    } else if a.Cancel? {
      StatusKeepsWorker(k, Draining);
    } else if a.DrainEnd? {
      StatusKeepsWorker(k, Drained(|k.accepted|));
    } else if a.Fail? {
      StatusKeepsWorker(k, Abandoned(|k.accepted|));
    } else {
      MovesKeepWorker(k);
    }
  }

  lemma StepKeepsWorkers(s: State, a: Step)
    requires Inv(s) && Enabled(s, a)
    ensures WorkersOk(Apply(s, a))
  {
    hide AllTasksOk, DispatchOk, AcksOk, RegistryOk;
    var s' := Apply(s, a);
    forall w: nat | w < |s'.workers| ensures WorkerOk(s'.workers[w]) {
      if w < |s.workers| {
        assert WorkerOk(s.workers[w]);
        if s'.workers[w] != s.workers[w] {
          ChangedWorkerOk(s, a, w);
        }
      }
    }
  }

  /** The task being dispatched is newer than all that was accepted. */
  lemma EnqueueOrder(s: State, w: nat)
    requires DispatchOk(s) && s.dispatch.Found? && w < |s.workers| && TasksOk(s, w)
    ensures var k := s.workers[w]; forall i :: 0 <= i < |k.accepted| ==> k.accepted[i].no < s.dispatch.task.no
  {
  }

  // ---- Acknowledgements ----

  /** Acknowledging somebody else's task, or nobody's, leaves a worker's account as it is. */
  lemma ForeignAck(s: State, s': State, w: nat, no: nat)
    requires w < |s.workers| && w < |s'.workers| && TasksOk(s, w) && s'.workers[w] == s.workers[w]
    requires s.inbound <= s'.inbound && (forall n :: n in s.owners ==> n in s'.owners && s'.owners[n] == s.owners[n])
    requires s'.acked == s.acked || (s'.acked == s.acked + multiset{no} && (no !in s.owners || s.owners[no] != w))
    ensures TasksOk(s', w)
  {
  }

  lemma OwnAck(s: State, s': State, w: nat)
    requires w < |s.workers| && |s'.workers| == |s.workers| && TasksOk(s, w) && WorkerOk(s.workers[w])
    requires |s.workers[w].done| < |s.workers[w].accepted|
    requires var k, k' := s.workers[w], s'.workers[w];
             && k'.accepted == k.accepted && |k'.done| == |k.done| + 1
             && s'.acked == s.acked + multiset{k.accepted[|k.done|].no}
    requires s'.inbound == s.inbound && s'.owners == s.owners
    ensures TasksOk(s', w)
  {
    var k := s.workers[w];
    forall i | 0 <= i < |k.accepted| && i != |k.done| ensures k.accepted[i].no != k.accepted[|k.done|].no {
      if i < |k.done| { AscendingPairs(k.accepted, i, |k.done|); } else { AscendingPairs(k.accepted, |k.done|, i); }
    }
  }

  lemma AckStepKeepsTasks(s: State, a: Step)
    requires Inv(s) && Enabled(s, a) && (a.Finish? || a.DrainOne?)
    ensures AllTasksOk(Apply(s, a))
  {
    var s' := Apply(s, a);
    var k := s.workers[a.w];
    assert WorkerOk(k) && TasksOk(s, a.w);
    var t := if a.Finish? then k.executing.value else k.queue[0];
    assert k.accepted[|k.done|] == t;
    assert s'.acked == s.acked + multiset{t.no} && s.owners[t.no] == a.w;
    hide WorkerOk, TasksOk, DispatchOk, AcksOk, RegistryOk;
    forall w: nat | w < |s'.workers| ensures TasksOk(s', w) {
      assert TasksOk(s, w);
      if w == a.w { OwnAck(s, s', w); } else { ForeignAck(s, s', w, t.no); }
    }
  }

  lemma AcceptedTask(s: State, s': State, w: nat, t: Task)
    requires w < |s.workers| && |s'.workers| == |s.workers| && TasksOk(s, w)
    requires s'.inbound == s.inbound && s'.owners == s.owners[t.no := w] && s'.acked == s.acked
    requires s'.workers[w] == Accepting(s.workers[w], t) && Known(s, t) && t.no !in s.owners && t.no !in s.acked
    ensures TasksOk(s', w)
  {
    hide Known;
    var k, k' := s.workers[w], s'.workers[w];
    assert forall u: Task :: Known(s, u) <==> Known(s', u) by { KnownStays(s, s'); }
    forall i | 0 <= i < |k'.accepted|
      ensures Known(s', k'.accepted[i]) && k'.accepted[i].no in s'.owners && s'.owners[k'.accepted[i].no] == w
      ensures s'.acked[k'.accepted[i].no] == if i < |k'.done| then 1 else 0
    {
      if i < |k.accepted| { assert k'.accepted[i] == k.accepted[i]; } else { assert k'.accepted[i] == t; }
    }
  }

  lemma KnownStays(s: State, s': State)
    requires s'.inbound == s.inbound
    ensures forall u: Task :: Known(s, u) <==> Known(s', u)
  {
  }

  lemma EnqueueKeepsTasks(s: State)
    requires Inv(s) && Enabled(s, Enqueue)
    ensures AllTasksOk(Apply(s, Enqueue))
  {
    var s' := Apply(s, Enqueue);
    var t, to := s.dispatch.task, s.dispatch.worker;
    assert t.no !in s.owners && t.no !in s.acked && Known(s, t);
    hide WorkerOk, TasksOk, DispatchOk, AcksOk, RegistryOk, Known;
    forall w: nat | w < |s'.workers| ensures TasksOk(s', w) {
      assert TasksOk(s, w);
      if w == to && |s.workers[w].queue| < s.workers[w].size {
        AcceptedTask(s, s', w, t);
      } else {
        assert s'.workers[w] == s.workers[w];
        ForeignAck(s, s', w, t.no);
      }
    }
  }

  lemma InboundKeepsTasks(s: State, a: Step)
    requires Inv(s) && Enabled(s, a) && a.Inbound?
    ensures AllTasksOk(Apply(s, a))
  {
    var s' := Apply(s, a);
    assert |s.inbound| !in s.owners;
    forall w: nat | w < |s'.workers| ensures TasksOk(s', w) {
      assert TasksOk(s, w);
      ForeignAck(s, s', w, |s.inbound|);
    }
  }

  lemma QuietStepKeepsTasks(s: State, a: Step)
    requires AllTasksOk(s) && Enabled(s, a) && !a.Finish? && !a.DrainOne? && !a.Enqueue? && !a.Inbound?
    ensures AllTasksOk(Apply(s, a))
  {
    var s' := Apply(s, a);
    assert s'.inbound == s.inbound && s'.owners == s.owners && s'.acked == s.acked;
    forall w: nat | w < |s'.workers| ensures TasksOk(s', w) {
      if w < |s.workers| {
        assert TasksOk(s, w);
        assert s'.workers[w].accepted == s.workers[w].accepted && s'.workers[w].done == s.workers[w].done;
      }
    }
  }

  lemma StepKeepsTasks(s: State, a: Step)
    requires Inv(s) && Enabled(s, a)
    ensures AllTasksOk(Apply(s, a))
  {
    if a.Finish? || a.DrainOne? {
      AckStepKeepsTasks(s, a);
    } else if a.Enqueue? {
      EnqueueKeepsTasks(s);
    } else if a.Inbound? {
      InboundKeepsTasks(s, a);
    } else {
      QuietStepKeepsTasks(s, a);
    }
  }

  /** What a step acknowledges is a known task that was not acknowledged before. */
  lemma FreshAck(s: State, a: Step) returns (t: Task)
    requires Inv(s) && Enabled(s, a)
    ensures var s' := Apply(s, a);
            || (s'.acks == s.acks && s'.acked == s.acked)
            || (s'.acks == s.acks + [t] && s'.acked == s.acked + multiset{t.no} && t.no !in s.acked && Known(s', t))
  {
    t := Task(0, "");
    if a.Finish? || a.DrainOne? {
      var k := s.workers[a.w];
      assert WorkerOk(k) && TasksOk(s, a.w);
      t := if a.Finish? then k.executing.value else k.queue[0];
      assert k.accepted[|k.done|] == t;
    } else if a.Inbound? {
      t := Task(|s.inbound|, a.messageId);
      assert t.no !in s.acked;
    } else if a.Enqueue? {
      t := s.dispatch.task;
    }
  }

  lemma InboundGrows(s: State, a: Step)
    requires Enabled(s, a)
    ensures s.inbound <= Apply(s, a).inbound
  {
  }

  lemma AckAppended(s: State, s': State, t: Task)
    requires AcksOk(s) && s.inbound <= s'.inbound
    requires || (s'.acks == s.acks && s'.acked == s.acked)
             || (s'.acks == s.acks + [t] && s'.acked == s.acked + multiset{t.no} && Known(s', t))
    ensures AcksOk(s')
  {
    assert Numbers(s.acks + [t]) == Numbers(s.acks) + [t.no];
  }

  lemma StepKeepsAcks(s: State, a: Step)
    requires Inv(s) && Enabled(s, a)
    ensures AcksOk(Apply(s, a))
  {
    var t := FreshAck(s, a);
    InboundGrows(s, a);
    hide Apply, Enabled, WorkersOk, AllTasksOk, DispatchOk, RegistryOk, AcksOk;
    AckAppended(s, Apply(s, a), t);
  }

  lemma AckStepKeepsDispatch(s: State, a: Step)
    requires Inv(s) && Enabled(s, a) && (a.Finish? || a.DrainOne?)
    ensures DispatchOk(Apply(s, a))
  {
    var k := s.workers[a.w];
    assert WorkerOk(k) && TasksOk(s, a.w);
    var u := if a.Finish? then k.executing.value else k.queue[0];
    assert k.accepted[|k.done|] == u && u.no in s.owners && u.no !in s.acked && Known(s, u);
    hide WorkerOk, TasksOk, AcksOk, RegistryOk;
  }

  lemma ArrivalKeepsDispatch(s: State, a: Step)
    requires RegistryOk(s) && DispatchOk(s) && Enabled(s, a) && (a.Inbound? || a.Enqueue?)
    ensures DispatchOk(Apply(s, a))
  {
    if a.Inbound? && a.target.Some? && a.target.value in s.registry {
      assert At(s, s.registry[a.target.value], Live);
    }
  }

  lemma StepKeepsDispatch(s: State, a: Step)
    requires Inv(s) && Enabled(s, a)
    ensures DispatchOk(Apply(s, a))
  {
    if a.Finish? || a.DrainOne? {
      AckStepKeepsDispatch(s, a);
    } else if a.Inbound? || a.Enqueue? {
      ArrivalKeepsDispatch(s, a);
    } else {
      hide WorkerOk, TasksOk, AcksOk, RegistryOk;
      var s' := Apply(s, a);
      assert s'.inbound == s.inbound && s'.dispatch == s.dispatch && s'.owners == s.owners && s'.acked == s.acked;
    }
  }

  lemma StepKeepsRegistry(s: State, a: Step)
    requires RegistryOk(s) && Enabled(s, a)
    ensures RegistryOk(Apply(s, a))
  {
    var s' := Apply(s, a);
    forall i | i in s'.registry ensures At(s', s'.registry[i], Live) && s'.workers[s'.registry[i]].iccid == i {
      if i in s.registry { assert At(s, s.registry[i], Live); }
    }
  }

  // ---- Every task has its place ----

  lemma AcceptedStays(s: State, a: Step, w: nat, n: nat)
    requires Enabled(s, a) && HasAccepted(s, w, n)
    ensures HasAccepted(Apply(s, a), w, n)
  {
    var i :| 0 <= i < |s.workers[w].accepted| && s.workers[w].accepted[i].no == n;
    assert Apply(s, a).workers[w].accepted[i] == s.workers[w].accepted[i];
  }

  /** Dispatch and owners change only where a task arrives or is enqueued. */
  lemma QuietFrame(s: State, a: Step)
    requires Enabled(s, a) && !a.Inbound? && !a.Enqueue?
    ensures var s' := Apply(s, a);
            s'.dispatch == s.dispatch && s'.owners == s.owners && s'.inbound == s.inbound && s.acked <= s'.acked
  {
  }

  lemma QuietKeepsPlace(s: State, a: Step, n: nat)
    requires Enabled(s, a) && !a.Inbound? && !a.Enqueue? && Placed(s, n) && DispatchOk(Apply(s, a))
    ensures Placed(Apply(s, a), n)
  {
    QuietFrame(s, a);
    if n in s.owners && !IsDispatched(s, n) { AcceptedStays(s, a, s.owners[n], n); }
    hide Apply, Enabled, HasAccepted;
  }

  lemma EnqueueKeepsPlace(s: State, n: nat)
    requires DispatchOk(s) && Enabled(s, Enqueue) && Placed(s, n)
    ensures Placed(Apply(s, Enqueue), n)
  {
    var s' := Apply(s, Enqueue);
    var w := s.dispatch.worker;
    if IsDispatched(s, n) {
      if |s.workers[w].queue| < s.workers[w].size {
        assert s'.workers[w].accepted[|s.workers[w].accepted|].no == n;
      }
    } else if n in s.owners {
      AcceptedStays(s, Enqueue, s.owners[n], n);
    }
  }

  lemma InboundKeepsPlace(s: State, a: Step, n: nat)
    requires DispatchOk(s) && Enabled(s, a) && a.Inbound? && n <= |s.inbound| && (n < |s.inbound| ==> Placed(s, n))
    ensures Placed(Apply(s, a), n)
  {
    if n in s.owners { AcceptedStays(s, a, s.owners[n], n); }
  }

  lemma StepKeepsPlaces(s: State, a: Step)
    requires Inv(s) && Enabled(s, a)
    ensures AllPlaced(Apply(s, a))
  {
    var s' := Apply(s, a);
    StepKeepsDispatch(s, a);
    assert |s'.inbound| == |s.inbound| + if a.Inbound? then 1 else 0;
    hide Apply, Enabled, Placed, DispatchOk, WorkersOk, AllTasksOk, AcksOk, RegistryOk;
    forall n: nat | n < |s'.inbound| ensures Placed(s', n) {
      if a.Inbound? {
        InboundKeepsPlace(s, a, n);
      } else if a.Enqueue? {
        EnqueueKeepsPlace(s, n);
      } else {
        QuietKeepsPlace(s, a, n);
      }
    }
  }

  lemma StepKeepsInv(s: State, a: Step)
    requires Inv(s) && Enabled(s, a)
    ensures Inv(Apply(s, a))
  {
    hide Apply, Enabled, WorkersOk, AllTasksOk, DispatchOk, AcksOk, RegistryOk, AllPlaced;
    StepKeepsPlaces(s, a);
    StepKeepsWorkers(s, a);
    StepKeepsTasks(s, a);
    StepKeepsDispatch(s, a);
    StepKeepsAcks(s, a);
    StepKeepsRegistry(s, a);
  }

  lemma {:induction false} RunKeepsInv(s: State, steps: seq<Step>)
    requires Inv(s) && IsRun(s, steps)
    ensures Inv(After(s, steps))
    decreases |steps|
  {
    if steps != [] {
      hide Apply, Enabled, Inv;
      StepKeepsInv(s, steps[0]);
      RunKeepsInv(Apply(s, steps[0]), steps[1..]);
    }
  }

  lemma Reachable(steps: seq<Step>)
    requires IsRun(INITIAL, steps)
    ensures Inv(After(INITIAL, steps))
  {
    assert Inv(INITIAL);
    RunKeepsInv(INITIAL, steps);
  }

  // ---- Theorems ----

  /** No task is acknowledged twice, and every acknowledgement carries the message id of its task. */
  lemma AtMostOneAck(steps: seq<Step>)
    requires IsRun(INITIAL, steps)
    ensures var s := After(INITIAL, steps);
            && (forall no :: multiset(Numbers(s.acks))[no] <= 1)
            && (forall i :: 0 <= i < |s.acks| ==> Known(s, s.acks[i]))
  {
    hide IsRun, After;
    Reachable(steps);
  }

  /** No task vanishes: after any run each task that came in is exactly one of under dispatch, acknowledged once, or waiting
      with a worker, accepted and not acknowledged. Only its owner has it among its accepted tasks; and a task that
      nobody accepted, because it named no known SIM or the queue was full, has its one acknowledgement. */
  lemma EveryTaskAccountedFor(steps: seq<Step>, n: nat)
    requires IsRun(INITIAL, steps) && n < |After(INITIAL, steps).inbound|
    ensures var s := After(INITIAL, steps);
            var acked := multiset(Numbers(s.acks))[n];
            && acked <= 1
            && (IsDispatched(s, n) ==> acked == 0 && n !in s.owners)
            && (!IsDispatched(s, n) && n !in s.owners ==> acked == 1)
            && (acked == 0 ==> IsDispatched(s, n) || n in s.owners)
            && (forall w: nat :: HasAccepted(s, w, n) <==> n in s.owners && w == s.owners[n])
  {
    hide IsRun, After;
    Reachable(steps);
    var s := After(INITIAL, steps);
    assert Placed(s, n);
    forall w: nat | HasAccepted(s, w, n) ensures n in s.owners && w == s.owners[n] {
      assert TasksOk(s, w);
      var i :| 0 <= i < |s.workers[w].accepted| && s.workers[w].accepted[i].no == n;
    }
  }

  // ---- Where a task goes ----

  /** What the registry says about an ICCID after a run: the last word counts, a registration or the departure of any
      worker that had the ICCID. */
  ghost function LastWord(s: State, steps: seq<Step>, iccid: string, word: Option<nat>): Option<nat>
    requires IsRun(s, steps)
    decreases |steps|
  {
    if steps == [] then word
    else
      var a := steps[0];
      var next: Option<nat> :=
        if a.Register? && a.iccid == iccid then Some(|s.workers|)
        else if (a.Cancel? || a.Fail?) && s.workers[a.w].iccid == iccid then None
        else word;
      LastWord(Apply(s, a), steps[1..], iccid, next)
  }

  function Entry(s: State, iccid: string): Option<nat> {
    if iccid in s.registry then Some(s.registry[iccid]) else None
  }

  lemma {:induction false} RegistryFrom(s: State, steps: seq<Step>, iccid: string)
    requires IsRun(s, steps)
    ensures Entry(After(s, steps), iccid) == LastWord(s, steps, iccid, Entry(s, iccid))
    decreases |steps|
  {
    if steps != [] {
      var a := steps[0];
      EntryStep(s, a, iccid);
      hide Apply, Enabled, Entry;
      RegistryFrom(Apply(s, a), steps[1..], iccid);
    }
  }

  lemma EntryStep(s: State, a: Step, iccid: string)
    requires Enabled(s, a)
    ensures Entry(Apply(s, a), iccid) ==
            if a.Register? && a.iccid == iccid then Some(|s.workers|)
            else if (a.Cancel? || a.Fail?) && s.workers[a.w].iccid == iccid then None
            else Entry(s, iccid)
  {
  }

  /** After every run the registry holds for each ICCID its last word. */
  lemma RegistryIsLastWord(steps: seq<Step>, iccid: string)
    requires IsRun(INITIAL, steps)
    ensures Entry(After(INITIAL, steps), iccid) == LastWord(INITIAL, steps, iccid, None)
  {
    hide IsRun, After, LastWord;
    RegistryFrom(INITIAL, steps, iccid);
  }

  /** Task n, if it is anybody's, is worker w's. */
  ghost predicate AimedAt(s: State, n: nat, w: nat) {
    && n < |s.inbound|
    && (IsDispatched(s, n) ==> s.dispatch.worker == w)
    && (n in s.owners ==> s.owners[n] == w)
  }

  ghost predicate Nobodys(s: State, n: nat) {
    n < |s.inbound| && !IsDispatched(s, n) && n !in s.owners
  }

  predicate SameIccid(s: State, s': State, w: nat) {
    w < |s.workers| ==> w < |s'.workers| && s'.workers[w].iccid == s.workers[w].iccid
  }

  lemma StepKeepsAim(s: State, a: Step, n: nat, w: nat)
    requires DispatchOk(s) && Enabled(s, a)
    ensures AimedAt(s, n, w) ==> AimedAt(Apply(s, a), n, w)
    ensures Nobodys(s, n) ==> Nobodys(Apply(s, a), n)
    ensures SameIccid(s, Apply(s, a), w)
  {
  }

  lemma {:induction false} RunKeepsAim(s: State, steps: seq<Step>, n: nat, w: nat)
    requires Inv(s) && IsRun(s, steps)
    ensures AimedAt(s, n, w) ==> AimedAt(After(s, steps), n, w)
    ensures Nobodys(s, n) ==> Nobodys(After(s, steps), n)
    ensures SameIccid(s, After(s, steps), w)
    decreases |steps|
  {
    if steps != [] {
      StepKeepsAim(s, steps[0], n, w);
      StepKeepsInv(s, steps[0]);
      hide Apply, Enabled, Inv, AimedAt, Nobodys;
      RunKeepsAim(Apply(s, steps[0]), steps[1..], n, w);
    }
  }

  /** The worker registered for a task when it comes in. */
  function Named(s: State, target: Option<string>): Option<nat> {
    if target.Some? then Entry(s, target.value) else None
  }

  lemma InboundAims(s: State, a: Step)
    requires Inv(s) && Enabled(s, a) && a.Inbound?
    ensures var s', n := Apply(s, a), |s.inbound|;
            match Named(s, a.target)
            case None => Nobodys(s', n)
            case Some(w) =>
              && AimedAt(s', n, w) && IsDispatched(s', n)
              && w < |s'.workers| && s'.workers[w].iccid == a.target.value && s'.workers[w].status.Live?
  {
    hide AllTasksOk, AcksOk, AllPlaced;
    if a.target.Some? && a.target.value in s.registry { assert At(s, s.registry[a.target.value], Live); }
  }

  /** A task that comes in goes to the SIM it names and nowhere else: whatever happens afterwards, the worker that accepts it
      is the one that stood in the registry under the named ICCID at that moment, live and with that very ICCID. A task
      that names no registered ICCID is accepted by nobody and has its one acknowledgement. */
  lemma TaskGoesToItsSim(before: seq<Step>, messageId: string, target: Option<string>, rest: seq<Step>)
    requires IsRun(INITIAL, before) && Enabled(After(INITIAL, before), Inbound(messageId, target))
    requires IsRun(Apply(After(INITIAL, before), Inbound(messageId, target)), rest)
    ensures var s0 := After(INITIAL, before);
            var s := After(Apply(s0, Inbound(messageId, target)), rest);
            var n := |s0.inbound|;
            match Named(s0, target)
            case None => n !in s.owners && !IsDispatched(s, n) && multiset(Numbers(s.acks))[n] == 1
            case Some(w) =>
              && At(s0, w, Live) && w < |s.workers| && s.workers[w].iccid == target.value
              && (n in s.owners ==> s.owners[n] == w) && (IsDispatched(s, n) ==> s.dispatch.worker == w)
  {
    var s0 := After(INITIAL, before);
    var a := Inbound(messageId, target);
    var n := |s0.inbound|;
    Reachable(before);
    InboundAims(s0, a);
    StepKeepsInv(s0, a);
    var s1 := Apply(s0, a);
    RunKeepsInv(s1, rest);
    assert s1.workers == s0.workers;
    hide IsRun, After, Apply, Enabled;
    RunKeepsAim(s1, rest, n, if Named(s0, target).Some? then Named(s0, target).value else 0);
    assert Placed(After(s1, rest), n);
  }

  predicate NoEnqueue(steps: seq<Step>) {
    forall i :: 0 <= i < |steps| ==> !steps[i].Enqueue?
  }

  lemma {:induction false} DispatchWaits(s: State, steps: seq<Step>)
    requires IsRun(s, steps) && NoEnqueue(steps) && s.dispatch.Found?
    ensures After(s, steps).dispatch == s.dispatch
    decreases |steps|
  {
    if steps != [] {
      DispatchStep(s, steps[0]);
      hide Apply, Enabled;
      assert NoEnqueue(steps[1..]);
      DispatchWaits(Apply(s, steps[0]), steps[1..]);
    }
  }

  lemma DispatchStep(s: State, a: Step)
    requires Enabled(s, a) && !a.Enqueue? && s.dispatch.Found?
    ensures Apply(s, a).dispatch == s.dispatch
  {
  }

  /** A task for a registered SIM is refused exactly when, at the send, its worker has `size` tasks waiting; otherwise
      that worker has it, at the end of its accepted tasks. */
  lemma RefusedExactlyWhenFull(before: seq<Step>, messageId: string, target: Option<string>, between: seq<Step>)
    requires IsRun(INITIAL, before) && Enabled(After(INITIAL, before), Inbound(messageId, target))
    requires Named(After(INITIAL, before), target).Some?
    requires var s1 := Apply(After(INITIAL, before), Inbound(messageId, target));
             IsRun(s1, between) && NoEnqueue(between) && Enabled(After(s1, between), Enqueue)
    ensures var s0 := After(INITIAL, before);
            var s := After(Apply(s0, Inbound(messageId, target)), between);
            var n, w := |s0.inbound|, Named(s0, target).value;
            && w < |s.workers| && w < |Apply(s, Enqueue).workers|
            && var s', full := Apply(s, Enqueue), |s.workers[w].queue| >= s.workers[w].size;
            && (n in s'.owners <==> !full) && (multiset(Numbers(s'.acks))[n] == 1 <==> full)
            && (!full ==> s'.owners[n] == w && s'.workers[w].accepted == s.workers[w].accepted + [Task(n, messageId)])
  {
    var s0 := After(INITIAL, before);
    var a := Inbound(messageId, target);
    Reachable(before);
    InboundAims(s0, a);
    StepKeepsInv(s0, a);
    var s1 := Apply(s0, a);
    assert s1.dispatch == Found(Task(|s0.inbound|, messageId), Named(s0, target).value);
    DispatchWaits(s1, between);
    RunKeepsInv(s1, between);
    var s := After(s1, between);
    hide IsRun, After;
    SendsExactly(s);
  }

  lemma SendsExactly(s: State)
    requires Inv(s) && Enabled(s, Enqueue)
    ensures var t, w := s.dispatch.task, s.dispatch.worker;
            && w < |Apply(s, Enqueue).workers|
            && var s', full := Apply(s, Enqueue), |s.workers[w].queue| >= s.workers[w].size;
            && (t.no in s'.owners <==> !full) && (multiset(Numbers(s'.acks))[t.no] == 1 <==> full)
            && (!full ==> s'.owners[t.no] == w && s'.workers[w].accepted == s.workers[w].accepted + [t])
  {
    StepKeepsAcks(s, Enqueue);
    hide WorkersOk, AllTasksOk, RegistryOk, AllPlaced;
  }

  /** A departing worker takes the entry of its ICCID with it, whoever holds it by then: a SIM whose worker was replaced is
      unreachable once the old worker leaves, though the new one is live. */
  lemma OldWorkerHidesNew()
    ensures var steps := [Register("A", 4), Register("A", 4), Cancel(0)];
            && IsRun(INITIAL, steps)
            && var s := After(INITIAL, steps); At(s, 1, Live) && s.workers[1].iccid == "A" && "A" !in s.registry
  {
    var s1 := Apply(INITIAL, Register("A", 4));
    var s2 := Apply(s1, Register("A", 4));
    var s3 := Apply(s2, Cancel(0));
    var steps := [Register("A", 4), Register("A", 4), Cancel(0)];
    assert steps[1..] == [Register("A", 4), Cancel(0)] && steps[1..][1..] == [Cancel(0)] && [Cancel(0)][1..] == [];
    assert IsRun(s3, []) && IsRun(s2, [Cancel(0)]) && IsRun(s1, steps[1..]);
    assert After(s2, [Cancel(0)]) == s3 && After(s1, steps[1..]) == s3;
  }

  /** Conservation, in order: what a worker accepted is what it acknowledged, what it is executing and what still waits,
      one behind the other; and of these exactly the first are acknowledged. */
  lemma Conservation(steps: seq<Step>, w: nat)
    requires IsRun(INITIAL, steps) && w < |After(INITIAL, steps).workers|
    ensures var s := After(INITIAL, steps);
            var k := s.workers[w];
            && k.accepted == k.done + InHand(k) + k.queue && |k.queue| <= k.size
            && forall i :: 0 <= i < |k.accepted| ==> multiset(Numbers(s.acks))[k.accepted[i].no] == if i < |k.done| then 1 else 0
  {
    hide IsRun, After;
    Reachable(steps);
    var s := After(INITIAL, steps);
    assert WorkerOk(s.workers[w]) && TasksOk(s, w);
  }

  /** For a worker that has left, cancelled or failed: every accepted task is acknowledged, once, exactly when nothing
      is left in its queue; after a drain that is when nothing was sent to it since. */
  lemma LeftoversAreUnacked(steps: seq<Step>, w: nat)
    requires IsRun(INITIAL, steps) && w < |After(INITIAL, steps).workers|
    requires var st := After(INITIAL, steps).workers[w].status; st.Drained? || st.Abandoned?
    ensures var s := After(INITIAL, steps);
            var k := s.workers[w];
            && ((forall i :: 0 <= i < |k.accepted| ==> s.acked[k.accepted[i].no] == 1) <==> k.queue == [])
            && (k.status.Drained? ==> (k.queue == [] <==> |k.accepted| == k.status.at))
  {
    hide IsRun, After;
    Reachable(steps);
    var s := After(INITIAL, steps);
    var k := s.workers[w];
    assert WorkerOk(k) && TasksOk(s, w);
    if k.queue != [] { assert s.acked[k.accepted[|k.done|].no] == 0; }
  }

  /** A drained worker that no dispatch is aiming at stays finished. */
  ghost predicate Settled(s: State, w: nat) {
    && w < |s.workers| && s.workers[w].status.Drained? && s.workers[w].queue == []
    && !(s.dispatch.Found? && s.dispatch.worker == w)
  }

  lemma {:induction false} SettledStays(s: State, steps: seq<Step>, w: nat)
    requires Inv(s) && IsRun(s, steps) && Settled(s, w)
    ensures Settled(After(s, steps), w) && After(s, steps).workers[w] == s.workers[w]
    decreases |steps|
  {
    if steps != [] {
      SettledStep(s, steps[0], w);
      StepKeepsInv(s, steps[0]);
      hide Apply, Enabled, Inv, Settled;
      SettledStays(Apply(s, steps[0]), steps[1..], w);
    }
  }

  lemma SettledStep(s: State, a: Step, w: nat)
    requires RegistryOk(s) && Enabled(s, a) && Settled(s, w)
    ensures Settled(Apply(s, a), w) && Apply(s, a).workers[w] == s.workers[w]
  {
    if a.Inbound? && a.target.Some? && a.target.value in s.registry {
      assert At(s, s.registry[a.target.value], Live);
    }
  }

  /** Graceful shutdown: when the drain of a cancelled worker ends while no dispatch is aiming at it, then ever after each
      task it accepted has exactly one acknowledgement. */
  lemma DrainLosesNothing(steps: seq<Step>, w: nat, later: seq<Step>)
    requires IsRun(INITIAL, steps)
    requires var s := After(INITIAL, steps);
             && Enabled(s, DrainEnd(w)) && !(s.dispatch.Found? && s.dispatch.worker == w)
             && IsRun(Apply(s, DrainEnd(w)), later)
    ensures var s := After(INITIAL, steps);
            var e := After(Apply(s, DrainEnd(w)), later);
            && w < |e.workers| && e.workers[w].accepted == s.workers[w].accepted
            && forall i :: 0 <= i < |e.workers[w].accepted| ==> e.acked[e.workers[w].accepted[i].no] == 1
  {
    var s := After(INITIAL, steps);
    Reachable(steps);
    StepKeepsInv(s, DrainEnd(w));
    var s1 := Apply(s, DrainEnd(w));
    assert Settled(s1, w);
    SettledStays(s1, later, w);
    RunKeepsInv(s1, later);
    var e := After(s1, later);
    hide IsRun, After, Apply, Enabled;
    assert WorkerOk(e.workers[w]) && TasksOk(e, w);
  }

  // ---- A worker at work ----

  /** Taking and finishing tasks, n times. */
  function Serving(w: nat, n: nat): seq<Step> {
    if n == 0 then [] else [Take(w), Finish(w)] + Serving(w, n - 1)
  }

  lemma ServeOne(s: State, w: nat) returns (s': State)
    requires At(s, w, Live) && s.workers[w].executing.None? && s.workers[w].queue != []
    ensures Enabled(s, Take(w)) && Enabled(Apply(s, Take(w)), Finish(w)) && s' == Apply(Apply(s, Take(w)), Finish(w))
    ensures At(s', w, Live) && s'.workers[w].executing.None? && s'.workers[w].queue == s.workers[w].queue[1..]
    ensures s'.acks == s.acks + [s.workers[w].queue[0]] && s'.dispatch == s.dispatch
  {
    s' := Apply(Apply(s, Take(w)), Finish(w));
  }

  /** A live worker can always work off its queue: then exactly the tasks that waited have been acknowledged, in the order
      in which they waited. */
  lemma {:induction false} WorkerServes(s: State, w: nat)
    requires At(s, w, Live) && s.workers[w].executing.None?
    ensures var steps := Serving(w, |s.workers[w].queue|);
            && IsRun(s, steps)
            && var s' := After(s, steps);
            && At(s', w, Live) && s'.workers[w].queue == [] && s'.workers[w].executing.None?
            && s'.acks == s.acks + s.workers[w].queue
    decreases |s.workers[w].queue|
  {
    var q := s.workers[w].queue;
    if q != [] {
      var s' := ServeOne(s, w);
      var rest := Serving(w, |q| - 1);
      hide Apply, Enabled;
      WorkerServes(s', w);
      var steps := [Take(w), Finish(w)] + rest;
      assert steps[1..] == [Finish(w)] + rest && steps[1..][1..] == rest;
      assert (s.acks + [q[0]]) + q[1..] == s.acks + q;
    }
  }
}
