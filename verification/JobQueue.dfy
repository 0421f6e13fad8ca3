/** The bounded job queue: connection handlers submit jobs to a channel, one worker completes
    them. Every atomic counter update and every channel operation is a step of its own, and
    the steps of all goroutines interleave freely. */
module JobQueue {
  import opened Counting

  datatype Policy = Block | Reject

  // Where a handler is. A job is named by its number in order of creation.
  datatype Handler =
    | Reading                  // waiting for a request line
    | Submitting(job: nat)     // counted in Accepted, about to submit
    | Blocked(job: nat)        // counted in Waiting, in the channel send
    | Sent(job: nat)           // has sent, still counted in Waiting
    | Uncounted(job: nat)      // has sent, not yet counted in Queued
    | Awaiting(job: nat)       // receiving from the job's Done channel
    | Replying(job: nat)       // about to write DONE
    | Refused(job: nat)        // found the queue full, not yet counted in Rejected
    | Busy(job: nat)           // about to write BUSY
    | Closed

  datatype Worker =
    | Idle
    | Processing(job: nat)
    | Finishing(job: nat)      // counted in Completed, Done not yet closed

  datatype State = State(
    policy: Policy, capacity: nat,
    handlers: seq<Handler>, worker: Worker, queue: seq<nat>,
    accepted: int, queued: int, completed: int, waiting: int, rejected: int,
    // history: the creator of every job, the jobs in the order they were sent and in the order
    // their Done channels were closed, the refused ones, and the jobs DONE was written for
    owner: seq<nat>, submitted: seq<nat>, closed: seq<nat>, refused: seq<nat>, replied: seq<nat>)

  datatype Step =
    | Connect
    | Request(h: nat)                    // a WORK line: Accepted.Add(1)
    | Hangup(h: nat)                     // end of stream or any other line
    | TrySend(h: nat)                    // select under the reject policy
    | AddWaiting(h: nat)                 // Waiting.Add(1)
    | Send(h: nat)                       // jobs <- job, when there is room
    | SubWaiting(h: nat)                 // Waiting.Add(-1)
    | CountQueued(h: nat)                // Queued.Add(1)
    | AwaitDone(h: nat)                  // <-job.Done
    | WriteDone(h: nat, written: bool)
    | CountRejected(h: nat)              // Rejected.Add(1)
    | WriteBusy(h: nat, written: bool)
    | Take                               // the worker receives from jobs
    | CountCompleted                     // Completed.Add(1)
    | CloseDone                          // close(job.Done)

  function Init(policy: Policy, capacity: nat): State {
    State(policy, capacity, [], Idle, [], 0, 0, 0, 0, 0, [], [], [], [], [])
  }

  predicate Enabled(s: State, step: Step) {
    match step
    case Connect => true
    case Take => s.worker.Idle? && s.queue != []
    case CountCompleted => s.worker.Processing?
    case CloseDone => s.worker.Finishing?
    case _ =>
      && step.h < |s.handlers|
      && var at := s.handlers[step.h];
      match step
      case Request(_) => at.Reading?
      case Hangup(_) => at.Reading?
      case TrySend(_) => at.Submitting? && s.policy.Reject?
      case AddWaiting(_) => at.Submitting? && s.policy.Block?
      case Send(_) => at.Blocked? && |s.queue| < s.capacity
      case SubWaiting(_) => at.Sent?
      case CountQueued(_) => at.Uncounted?
      case AwaitDone(_) => at.Awaiting? && at.job in s.closed
      case WriteDone(_, _) => at.Replying?
      case CountRejected(_) => at.Refused?
      case WriteBusy(_, _) => at.Busy?
  }

  // Handler h moves on.
  function To(s: State, h: nat, at: Handler): State
    requires h < |s.handlers|
  {
    s.(handlers := s.handlers[h := at])
  }

  function Enqueue(s: State, job: nat): State {
    s.(queue := s.queue + [job], submitted := s.submitted + [job])
  }

  function Do(s: State, step: Step): State
    requires Enabled(s, step)
  {
    match step
    case Connect => s.(handlers := s.handlers + [Reading])
    case Request(h) => To(s, h, Submitting(|s.owner|)).(accepted := s.accepted + 1, owner := s.owner + [h])
    case Hangup(h) => To(s, h, Closed)
    case TrySend(h) =>
      var job := s.handlers[h].job;
      if |s.queue| < s.capacity then To(Enqueue(s, job), h, Uncounted(job))
      else To(s, h, Refused(job)).(refused := s.refused + [job])
    case AddWaiting(h) => To(s, h, Blocked(s.handlers[h].job)).(waiting := s.waiting + 1)
    case Send(h) => To(Enqueue(s, s.handlers[h].job), h, Sent(s.handlers[h].job))
    case SubWaiting(h) => To(s, h, Uncounted(s.handlers[h].job)).(waiting := s.waiting - 1)
    case CountQueued(h) => To(s, h, Awaiting(s.handlers[h].job)).(queued := s.queued + 1)
    case AwaitDone(h) => To(s, h, Replying(s.handlers[h].job))
    case WriteDone(h, written) =>
      if written then To(s, h, Reading).(replied := s.replied + [s.handlers[h].job]) else To(s, h, Closed)
    case CountRejected(h) => To(s, h, Busy(s.handlers[h].job)).(rejected := s.rejected + 1)
    case WriteBusy(h, written) => To(s, h, if written then Reading else Closed)
    case Take => s.(worker := Processing(s.queue[0]), queue := s.queue[1..])
    case CountCompleted => s.(worker := Finishing(s.worker.job), completed := s.completed + 1)
    case CloseDone => s.(worker := Idle, closed := s.closed + [s.worker.job])
  }

  // ---------- counting handlers ----------

  predicate BetweenCounters(at: Handler) {
    at.Submitting? || at.Blocked? || at.Sent? || at.Uncounted? || at.Refused?
  }

  predicate InWaiting(at: Handler) { at.Blocked? || at.Sent? }

  predicate SentUncounted(at: Handler) { at.Sent? || at.Uncounted? }

  // ---------- the invariant ----------

  function Truth(b: bool): nat { if b then 1 else 0 }

  ghost predicate Distinct(s: seq<nat>) {
    forall i, j :: 0 <= i < j < |s| ==> s[i] != s[j]
  }

  function Held(w: Worker): seq<nat> {
    if w.Idle? then [] else [w.job]
  }

  // Jobs are sent, taken, completed and closed in one order.
  ghost predicate OneOrder(s: State) {
    s.submitted == s.closed + Held(s.worker) + s.queue && |s.queue| <= s.capacity
  }

  ghost predicate Counters(s: State) {
    && s.accepted == s.rejected + s.queued + Count(s.handlers, BetweenCounters)
    && s.waiting == Count(s.handlers, InWaiting)
    && |s.submitted| == s.queued + Count(s.handlers, SentUncounted)
    && s.completed == |s.closed| + (if s.worker.Finishing? then 1 else 0)
    && s.accepted == |s.owner|
  }

  ghost predicate Histories(s: State) {
    && Distinct(s.submitted) && Distinct(s.replied)
    && (forall j <- s.submitted :: j < |s.owner| && j !in s.refused)
    && (forall j <- s.refused :: j < |s.owner|)
    && (forall j <- s.replied :: j in s.closed)
  }

  predicate HasJob(at: Handler) { !at.Reading? && !at.Closed? }

  // What handler h's position says about its job.
  ghost predicate Owns(s: State, h: nat)
    requires h < |s.handlers|
  {
    var at := s.handlers[h];
    && (HasJob(at) ==> at.job < |s.owner| && s.owner[at.job] == h && at.job !in s.replied)
    && (at.Submitting? || at.Blocked? ==> at.job !in s.submitted && at.job !in s.refused)
    && (at.Sent? || at.Uncounted? || at.Awaiting? ==> at.job in s.submitted)
    && (at.Replying? ==> at.job in s.closed)
    && (at.Refused? || at.Busy? ==> at.job in s.refused)
    && (InWaiting(at) ==> s.policy.Block?)
  }

  // A job that was neither sent nor refused is still with the handler that created it.
  ghost predicate Unsent(s: State, j: nat)
    requires j < |s.owner|
  {
    j !in s.submitted && j !in s.refused ==>
      && s.owner[j] < |s.handlers|
      && (s.handlers[s.owner[j]] == Submitting(j) || s.handlers[s.owner[j]] == Blocked(j))
  }

  ghost predicate Inv(s: State) {
    && OneOrder(s) && Counters(s) && Histories(s)
    && (forall h :: 0 <= h < |s.handlers| ==> Owns(s, h))
    && (forall j :: 0 <= j < |s.owner| ==> Unsent(s, j))
  }

  lemma CountersAfter(s: State, h: nat, at: Handler)
    requires h < |s.handlers|
    ensures var now := s.handlers[h := at]; var was := s.handlers[h];
      && Count(now, BetweenCounters) == Count(s.handlers, BetweenCounters) - Truth(BetweenCounters(was)) + Truth(BetweenCounters(at))
      && Count(now, InWaiting) == Count(s.handlers, InWaiting) - Truth(InWaiting(was)) + Truth(InWaiting(at))
      && Count(now, SentUncounted) == Count(s.handlers, SentUncounted) - Truth(SentUncounted(was)) + Truth(SentUncounted(at))
  {
    CountUpdate(s.handlers, h, at, BetweenCounters);
    CountUpdate(s.handlers, h, at, InWaiting);
    CountUpdate(s.handlers, h, at, SentUncounted);
  }

  predicate IsHandlerStep(step: Step) {
    !step.Connect? && !step.Take? && !step.CountCompleted? && !step.CloseDone?
  }

  lemma OrderStep(s: State, step: Step)
    requires OneOrder(s) && Enabled(s, step)
    ensures OneOrder(Do(s, step))
  {
  }

  lemma CountersStep(s: State, step: Step)
    requires Counters(s) && Enabled(s, step)
    ensures Counters(Do(s, step))
  {
    if IsHandlerStep(step) {
      HandlerCountersStep(s, step);
    } else if step.Connect? {
      CountAdd(s.handlers, Reading, BetweenCounters);
      CountAdd(s.handlers, Reading, InWaiting);
      CountAdd(s.handlers, Reading, SentUncounted);
    }
  }

  lemma HandlerCountersStep(s: State, step: Step)
    requires Counters(s) && Enabled(s, step) && IsHandlerStep(step)
    ensures Counters(Do(s, step))
  {
    hide Count;
    var at := Do(s, step).handlers[step.h];
    CountersAfter(s, step.h, at);
    assert Do(s, step).handlers == s.handlers[step.h := at];
  }

  lemma HistoriesStep(s: State, step: Step)
    requires Inv(s) && Enabled(s, step)
    ensures Histories(Do(s, step))
  {
    hide Counters, Unsent, OneOrder;
    if IsHandlerStep(step) {
      assert Owns(s, step.h);
    }
    hide Owns;
  }

  // Closed, held and queued jobs were all sent, so their numbers are in use.
  lemma JobsInUse(s: State)
    requires Inv(s)
    ensures forall j <- s.closed :: j in s.submitted
    ensures forall j <- s.queue :: j in s.submitted
    ensures !s.worker.Idle? ==> s.worker.job in s.submitted
    ensures |s.owner| !in s.submitted && |s.owner| !in s.refused && |s.owner| !in s.replied
  {
    assert forall j <- s.replied :: j in s.closed;
    if !s.worker.Idle? {
      assert s.worker.job in Held(s.worker);
    }
  }

  lemma OwnsMover(s: State, step: Step)
    requires Inv(s) && Enabled(s, step) && IsHandlerStep(step)
    ensures Owns(Do(s, step), step.h)
  {
    hide OneOrder, Counters, Histories, Unsent;
    assert Owns(s, step.h);
    JobsInUse(s);
  }

  // Nothing changes for a handler and its job when another process moves.
  lemma OwnsFrame(s: State, t: State, h: nat)
    requires h < |s.handlers| && h < |t.handlers| && t.handlers[h] == s.handlers[h] && Owns(s, h)
    requires s.owner <= t.owner && s.policy == t.policy
    requires var at := s.handlers[h]; HasJob(at) ==>
      && (at.job in t.submitted <==> at.job in s.submitted)
      && (at.job in t.refused <==> at.job in s.refused)
      && (at.job in t.replied <==> at.job in s.replied)
      && (at.job in s.closed ==> at.job in t.closed)
    ensures Owns(t, h)
  {
  }

  lemma OwnsOther(s: State, step: Step, h: nat)
    requires Enabled(s, step) && h < |s.handlers| && Owns(s, h)
    requires IsHandlerStep(step) ==> h != step.h && Owns(s, step.h)
    ensures Owns(Do(s, step), h)
  {
    hide Owns;
    if IsHandlerStep(step) {
      JobsDiffer(s, h, step.h);
    }
    OwnsFrame(s, Do(s, step), h);
  }

  lemma JobsDiffer(s: State, h: nat, g: nat)
    requires h < |s.handlers| && g < |s.handlers| && h != g && Owns(s, h) && Owns(s, g)
    ensures HasJob(s.handlers[h]) && HasJob(s.handlers[g]) ==> s.handlers[h].job != s.handlers[g].job
  {
  }

  lemma OwnsStep(s: State, step: Step, h: nat)
    requires Inv(s) && Enabled(s, step) && h < |Do(s, step).handlers|
    ensures Owns(Do(s, step), h)
  {
    assert h < |s.handlers| ==> Owns(s, h);
    assert IsHandlerStep(step) ==> Owns(s, step.h);
    hide Inv, Owns;
    if h < |s.handlers| && IsHandlerStep(step) && h == step.h {
      OwnsMover(s, step);
    } else if h < |s.handlers| {
      OwnsOther(s, step, h);
    } else {
      NewHandlerOwns(Do(s, step), h);
    }
  }

  lemma NewHandlerOwns(s: State, h: nat)
    requires h < |s.handlers| && s.handlers[h] == Reading
    ensures Owns(s, h)
  {
  }

  lemma UnsentStep(s: State, step: Step, j: nat)
    requires Inv(s) && Enabled(s, step) && j < |Do(s, step).owner|
    ensures Unsent(Do(s, step), j)
  {
    if j < |s.owner| {
      assert Unsent(s, j);
      if IsHandlerStep(step) {
        assert Owns(s, step.h);
      }
    }
    hide OneOrder, Counters, Histories;
  }

  lemma {:induction false} InvStep(s: State, step: Step)
    requires Inv(s) && Enabled(s, step)
    ensures Inv(Do(s, step))
  {
    var t := Do(s, step);
    OrderStep(s, step);
    CountersStep(s, step);
    HistoriesStep(s, step);
    forall h | 0 <= h < |t.handlers| ensures Owns(t, h) {
      OwnsStep(s, step, h);
    }
    forall j | 0 <= j < |t.owner| ensures Unsent(t, j) {
      UnsentStep(s, step, j);
    }
  }

  // ---------- runs ----------

  // The state after some steps, if every step was possible when it was taken.
  ghost predicate Runs(from: State, steps: seq<Step>, to: State)
    decreases |steps|
  {
    if steps == [] then from == to
    else Enabled(from, steps[0]) && Runs(Do(from, steps[0]), steps[1..], to)
  }

  ghost predicate Reachable(s: State) {
    exists policy, capacity, steps :: capacity > 0 && Runs(Init(policy, capacity), steps, s)
  }

  lemma StepGrows(s: State, step: Step)
    requires Enabled(s, step)
    ensures var t := Do(s, step);
      t.capacity == s.capacity && t.policy == s.policy && s.closed <= t.closed && s.submitted <= t.submitted
  {
  }

  lemma {:induction false} InvRuns(from: State, steps: seq<Step>, to: State)
    requires Inv(from) && Runs(from, steps, to)
    ensures Inv(to) && to.capacity == from.capacity && to.policy == from.policy
    ensures from.closed <= to.closed && from.submitted <= to.submitted
    decreases |steps|
  {
    hide Inv, Do, Enabled;
    if steps == [] {
    } else {
      InvStep(from, steps[0]);
      StepGrows(from, steps[0]);
      InvRuns(Do(from, steps[0]), steps[1..], to);
    }
  }

  lemma {:induction false} RunExtends(from: State, steps: seq<Step>, to: State, step: Step)
    requires Runs(from, steps, to) && Enabled(to, step)
    ensures Runs(from, steps + [step], Do(to, step))
    decreases |steps|
  {
    hide Do, Enabled;
    var all := steps + [step];
    if steps == [] {
      assert all[0] == step && all[1..] == [];
    } else {
      RunExtends(Do(from, steps[0]), steps[1..], to, step);
      assert all[0] == steps[0] && all[1..] == steps[1..] + [step];
    }
  }

  lemma ReachableStep(s: State, step: Step)
    requires Reachable(s) && Enabled(s, step)
    ensures Reachable(Do(s, step))
  {
    hide Do, Enabled, Runs;
    var policy, capacity, steps :| capacity > 0 && Runs(Init(policy, capacity), steps, s);
    RunExtends(Init(policy, capacity), steps, s, step);
  }

  lemma ReachableInv(s: State)
    requires Reachable(s)
    ensures Inv(s) && s.capacity > 0
  {
    var policy, capacity, steps :| capacity > 0 && Runs(Init(policy, capacity), steps, s);
    InvRuns(Init(policy, capacity), steps, s);
  }

  // ---------- accounting ----------

  function Working(w: Worker): nat {
    if w.Processing? then 1 else 0
  }

  /** In every interleaving, for any number of connections, any capacity and both policies. */
  lemma {:induction false} Accounting(s: State)
    requires Reachable(s)
    ensures |s.queue| <= s.capacity
    ensures s.accepted == s.rejected + s.queued + Count(s.handlers, BetweenCounters)
    ensures s.completed + Working(s.worker) + |s.queue| == s.queued + Count(s.handlers, SentUncounted)
    ensures s.completed <= s.queued + Count(s.handlers, SentUncounted)
    ensures |s.replied| <= |s.closed| <= s.completed
    ensures s.waiting == Count(s.handlers, InWaiting)
    ensures s.policy == Reject ==> s.waiting == 0
  {
    ReachableInv(s);
    DistinctFits(s.replied, s.closed);
    if s.policy == Reject {
      forall h | 0 <= h < |s.handlers| ensures !InWaiting(s.handlers[h]) {
        assert Owns(s, h);
      }
      CountNone(s.handlers, InWaiting);
    }
  }

  lemma {:induction false} DistinctFits(a: seq<nat>, b: seq<nat>)
    requires Distinct(a) && forall x <- a :: x in b
    ensures |a| <= |b|
    decreases |a|
  {
    if a == [] {
    } else {
      var x := a[0];
      assert x in a && x in b;
      var k :| 0 <= k < |b| && b[k] == x;
      var c := b[..k] + b[k + 1..];
      forall y <- a[1..] ensures y in c {
        assert y in a && y in b;
        var i :| 0 <= i < |b| && b[i] == y;
        assert c[if i < k then i else i - 1] == y;
      }
      DistinctFits(a[1..], c);
    }
  }

  /** Completed may run ahead of Queued: it does not exactly when the handlers that have sent
      but not yet counted their job are no more than the jobs that wait for or are at the worker. */
  lemma {:induction false} CompletedBehindQueuedIff(s: State)
    requires Reachable(s)
    ensures s.completed <= s.queued <==> Count(s.handlers, SentUncounted) <= |s.queue| + Working(s.worker)
  {
    Accounting(s);
  }

  // A run of one connection: the job is sent, taken and counted completed before its handler
  // has counted it queued.
  function Ahead(i: nat): State
    requires i <= 5
  {
    var s := Init(Reject, 4);
    if i == 0 then s
    else if i == 1 then s.(handlers := [Reading])
    else if i == 2 then s.(handlers := [Submitting(0)], accepted := 1, owner := [0])
    else
      var sent := s.(handlers := [Uncounted(0)], accepted := 1, owner := [0], submitted := [0]);
      if i == 3 then sent.(queue := [0])
      else if i == 4 then sent.(worker := Processing(0))
      else sent.(worker := Finishing(0), completed := 1)
  }

  function AheadStep(i: nat): Step
    requires i < 5
  {
    if i == 0 then Connect
    else if i == 1 then Request(0)
    else if i == 2 then TrySend(0)
    else if i == 3 then Take
    else CountCompleted
  }

  lemma AheadRuns(i: nat)
    requires i < 5
    ensures Enabled(Ahead(i), AheadStep(i)) && Do(Ahead(i), AheadStep(i)) == Ahead(i + 1)
  {
    var s := Ahead(i);
    if i == 0 {
      assert s.handlers + [Reading] == [Reading];
    } else if i == 1 {
      assert s.handlers[0 := Submitting(0)] == [Submitting(0)] && s.owner + [0] == [0];
    } else if i == 2 {
      assert s.handlers[0 := Uncounted(0)] == [Uncounted(0)];
      assert s.queue + [0] == [0] && s.submitted + [0] == [0];
    } else if i == 3 {
      assert s.queue[1..] == [];
    }
  }

  lemma {:induction false} AheadReachable(i: nat)
    requires i <= 5
    ensures Reachable(Ahead(i))
    decreases i
  {
    hide Do, Enabled;
    if i == 0 {
      assert Runs(Init(Reject, 4), [], Ahead(0));
    } else {
      hide Ahead, Reachable;
      AheadReachable(i - 1);
      AheadRuns(i - 1);
      ReachableStep(Ahead(i - 1), AheadStep(i - 1));
    }
  }

  /** One connection is enough for that. */
  lemma {:induction false} CompletedMayLeadQueued()
    ensures exists s :: Reachable(s) && s.completed == 1 && s.queued == 0
  {
    hide Reachable;
    AheadReachable(5);
    assert Ahead(5).completed == 1 && Ahead(5).queued == 0;
  }

  // ---------- where the jobs are ----------

  predicate BeforeSend(s: State, j: nat) {
    exists h :: 0 <= h < |s.handlers| && (s.handlers[h] == Submitting(j) || s.handlers[h] == Blocked(j))
  }

  /** Every job is in exactly one place: with its handler before it is sent, refused, in the
      queue, at the worker, or closed; and it is there once. */
  lemma {:induction false} EachJobInOnePlace(s: State, j: nat)
    requires Reachable(s) && j < |s.owner|
    ensures Truth(BeforeSend(s, j)) + Truth(j in s.refused) + Truth(j in s.queue)
            + Truth(j in Held(s.worker)) + Truth(j in s.closed) == 1
    ensures Distinct(s.queue) && Distinct(s.closed)
  {
    ReachableInv(s);
    assert Unsent(s, j);
    if h :| 0 <= h < |s.handlers| && (s.handlers[h] == Submitting(j) || s.handlers[h] == Blocked(j)) {
      assert Owns(s, h);
    }
    Pieces(s.closed, Held(s.worker), s.queue);
  }

  lemma Pieces(a: seq<nat>, b: seq<nat>, c: seq<nat>)
    requires Distinct(a + b + c)
    ensures Distinct(a) && Distinct(c)
    ensures forall j :: (j in a + b + c <==> Truth(j in a) + Truth(j in b) + Truth(j in c) == 1)
    ensures forall j :: (j !in a + b + c <==> Truth(j in a) + Truth(j in b) + Truth(j in c) == 0)
  {
    var s := a + b + c;
    assert forall i :: 0 <= i < |a| ==> s[i] == a[i];
    assert forall i :: 0 <= i < |b| ==> s[|a| + i] == b[i];
    assert forall i :: 0 <= i < |c| ==> s[|a| + |b| + i] == c[i];
  }

  /** Jobs are completed in the order they were sent, and a Done channel is never closed twice. */
  lemma {:induction false} SubmissionOrder(s: State)
    requires Reachable(s)
    ensures s.closed <= s.submitted
    ensures Enabled(s, CloseDone) ==> s.worker.job !in s.closed
    ensures !s.worker.Idle? ==> |s.closed| < |s.submitted| && s.submitted[|s.closed|] == s.worker.job
  {
    ReachableInv(s);
    Pieces(s.closed, Held(s.worker), s.queue);
    if !s.worker.Idle? {
      assert s.worker.job in Held(s.worker);
    }
  }

  /** A handler writes DONE only for a job it created itself, that was sent, completed and
      closed, and not twice; a refused job is never sent, so never processed. */
  lemma {:induction false} RepliesAreOwn(s: State, h: nat, written: bool)
    requires Reachable(s) && Enabled(s, WriteDone(h, written))
    ensures var job := s.handlers[h].job;
      job < |s.owner| && s.owner[job] == h && job in s.closed && job in s.submitted && job !in s.replied && job !in s.refused
  {
    ReachableInv(s);
    assert Owns(s, h);
    JobsInUse(s);
  }

  lemma {:induction false} RefusedIsNeverProcessed(s: State, j: nat)
    requires Reachable(s) && j in s.refused
    ensures j !in s.submitted && j !in s.queue && j !in Held(s.worker) && j !in s.closed && j !in s.replied
  {
    ReachableInv(s);
    JobsInUse(s);
  }

  // ---------- progress ----------

  predicate IsWorkerStep(step: Step) {
    step.Take? || step.CountCompleted? || step.CloseDone?
  }

  function WorkerStep(s: State): Step {
    match s.worker
    case Idle => Take
    case Processing(_) => CountCompleted
    case Finishing(_) => CloseDone
  }

  /** No deadlock: a handler that is blocked sending, or waits for its job, can go on itself or
      the worker can. */
  lemma {:induction false} NoDeadlock(s: State, h: nat)
    requires Reachable(s) && h < |s.handlers|
    ensures s.handlers[h].Blocked? ==> Enabled(s, Send(h)) || Enabled(s, WorkerStep(s))
    ensures s.handlers[h].Awaiting? ==> Enabled(s, AwaitDone(h)) || Enabled(s, WorkerStep(s))
  {
    ReachableInv(s);
    assert Owns(s, h);
  }

  function IndexOf(s: seq<nat>, j: nat): (i: nat)
    requires j in s
    ensures i < |s| && s[i] == j
    ensures forall k :: 0 <= k < i ==> s[k] != j
  {
    if s[0] == j then 0 else 1 + IndexOf(s[1..], j)
  }

  /** How many worker steps it takes until a job that was sent is closed. */
  function StepsLeft(s: State, j: nat): nat {
    var current := match s.worker case Idle => 0 case Processing(_) => 2 case Finishing(_) => 1;
    if j in s.closed then 0
    else if j in Held(s.worker) then current
    else if j in s.queue then current + 3 * (IndexOf(s.queue, j) + 1)
    else 0
  }

  /** A sent job comes closer with every step of the worker and with no other step moves away;
      and until it is closed the worker can take a step. */
  lemma CloserStep(s: State, step: Step, j: nat)
    requires Inv(s) && j in s.submitted && Enabled(s, step)
    ensures StepsLeft(s, j) == 0 <==> j in s.closed
    ensures j !in s.closed ==> Enabled(s, WorkerStep(s))
    ensures StepsLeft(Do(s, step), j) ==
      if IsWorkerStep(step) && j !in s.closed then StepsLeft(s, j) - 1 else StepsLeft(s, j)
  {
    NotClosedYet(s, j);
    match step {
      case Take => TakeCloser(s, j);
      case CountCompleted => FinishCloser(s, j);
      case CloseDone => FinishCloser(s, j);
      case _ => HandlerStepKeeps(s, step, j);
    }
  }

  function WorkerSteps(steps: seq<Step>): nat {
    if steps == [] then 0 else Truth(IsWorkerStep(steps[0])) + WorkerSteps(steps[1..])
  }

  lemma {:induction false} CloserRun(from: State, steps: seq<Step>, to: State, j: nat)
    requires Inv(from) && Runs(from, steps, to) && j in from.submitted
    ensures Inv(to) && j in to.submitted
    ensures StepsLeft(to, j) ==
      if WorkerSteps(steps) <= StepsLeft(from, j) then StepsLeft(from, j) - WorkerSteps(steps) else 0
    decreases |steps|
  {
    if steps == [] {
    } else {
      CloserStep(from, steps[0], j);
      InvStep(from, steps[0]);
      hide Inv, StepsLeft;
      CloserRun(Do(from, steps[0]), steps[1..], to, j);
    }
  }

  /** A job that was sent is closed after exactly StepsLeft steps of the worker, whatever the
      handlers do in between, and until then the worker is never stuck. */
  lemma {:induction false} SentJobIsClosed(from: State, steps: seq<Step>, to: State, j: nat)
    requires Reachable(from) && Runs(from, steps, to) && j in from.submitted
    ensures j in to.closed <==> StepsLeft(from, j) <= WorkerSteps(steps)
    ensures j !in to.closed ==> Enabled(to, WorkerStep(to))
  {
    ReachableInv(from);
    CloserRun(from, steps, to, j);
    NotClosedYet(to, j);
  }

  lemma NotClosedYet(s: State, j: nat)
    requires Inv(s) && j in s.submitted
    ensures StepsLeft(s, j) == 0 <==> j in s.closed
    ensures j !in s.closed ==> Enabled(s, WorkerStep(s))
  {
    Pieces(s.closed, Held(s.worker), s.queue);
    hide Counters, Owns, Unsent, Histories, IndexOf;
  }

  lemma FinishCloser(s: State, j: nat)
    requires Inv(s) && !s.worker.Idle? && j in s.submitted
    ensures StepsLeft(Do(s, WorkerStep(s)), j) == if j in s.closed then StepsLeft(s, j) else StepsLeft(s, j) - 1
  {
    Pieces(s.closed, Held(s.worker), s.queue);
    hide Counters, Owns, Unsent, Histories, IndexOf;
  }

  lemma HandlerStepKeeps(s: State, step: Step, j: nat)
    requires Inv(s) && Enabled(s, step) && !IsWorkerStep(step) && j in s.submitted
    ensures StepsLeft(Do(s, step), j) == StepsLeft(s, j)
  {
    var t := Do(s, step);
    if t.queue != s.queue {
      SendKeeps(s, j, s.handlers[step.h].job);
    }
    hide IndexOf, Inv;
  }

  lemma TakeCloser(s: State, j: nat)
    requires Inv(s) && Enabled(s, Take) && j in s.submitted
    ensures StepsLeft(Do(s, Take), j) == if j in s.closed then StepsLeft(s, j) else StepsLeft(s, j) - 1
  {
    Pieces(s.closed, Held(s.worker), s.queue);
    hide Counters, Owns, Unsent, Histories;
    if j !in s.closed && s.queue[0] != j {
      assert IndexOf(s.queue, j) == 1 + IndexOf(s.queue[1..], j);
    }
  }

  lemma SendKeeps(s: State, j: nat, job: nat)
    requires Inv(s) && j in s.submitted
    ensures StepsLeft(Enqueue(s, job), j) == StepsLeft(s, j)
  {
    Pieces(s.closed, Held(s.worker), s.queue);
    hide Counters, Owns, Unsent, Histories;
    if j in s.queue {
      var i, k := IndexOf(s.queue, j), IndexOf(s.queue + [job], j);
      assert forall m :: 0 <= m < |s.queue| ==> (s.queue + [job])[m] == s.queue[m];
      assert i == k;
    }
  }
}
