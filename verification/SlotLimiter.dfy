/** The connection limiter: the accept loop reserves a slot for every connection it admits and
    the connection's handler releases it last of all. The counter updates and the channel
    operations are separate steps, and all goroutines interleave freely. */
module SlotLimiter {
  import opened Counting

  datatype Loop =
    | Accepting     // in Accept
    | Deciding      // has a connection, at the select
    | Reserved      // has put a slot into the channel, Active not yet counted
    | Activated     // has counted Active, Admitted not yet counted
    | Admitted      // has counted Admitted, handler not yet started
    | Turning       // found the channel full, Rejected not yet counted
    | Refusing      // has counted Rejected, BUSY not yet written

  datatype Handler =
    | Serving
    | Closed        // connection closed, still counted in Active
    | Inactive      // no longer counted in Active, slot not yet released
    | Gone

  datatype State = State(
    max: nat, slots: nat, loop: Loop, handlers: seq<Handler>,
    active: int, admitted: int, rejected: int,
    refusals: nat)  // history: how often the select took its default branch

  datatype Step =
    | Accept | Reserve | Turn | CountActive | CountAdmitted | Start | CountRejected | Refuse
    | Finish(h: nat) | Uncount(h: nat) | Release(h: nat)

  function Init(max: nat): State {
    State(max, 0, Accepting, [], 0, 0, 0, 0)
  }

  predicate Enabled(s: State, step: Step) {
    match step
    case Accept => s.loop.Accepting?
    case Reserve => s.loop.Deciding? && s.slots < s.max
    case Turn => s.loop.Deciding? && !(s.slots < s.max)   // the select's default branch
    case CountActive => s.loop.Reserved?
    case CountAdmitted => s.loop.Activated?
    case Start => s.loop.Admitted?
    case CountRejected => s.loop.Turning?
    case Refuse => s.loop.Refusing?
    case Finish(h) => h < |s.handlers| && s.handlers[h].Serving?
    case Uncount(h) => h < |s.handlers| && s.handlers[h].Closed?
    case Release(h) => h < |s.handlers| && s.handlers[h].Inactive? && s.slots > 0   // a receive
  }

  function Do(s: State, step: Step): State
    requires Enabled(s, step)
  {
    match step
    case Accept => s.(loop := Deciding)
    case Reserve => s.(loop := Reserved, slots := s.slots + 1)
    case Turn => s.(loop := Turning, refusals := s.refusals + 1)
    case CountActive => s.(loop := Activated, active := s.active + 1)
    case CountAdmitted => s.(loop := Admitted, admitted := s.admitted + 1)
    case Start => s.(loop := Accepting, handlers := s.handlers + [Serving])
    case CountRejected => s.(loop := Refusing, rejected := s.rejected + 1)
    case Refuse => s.(loop := Accepting)
    case Finish(h) => s.(handlers := s.handlers[h := Closed])
    case Uncount(h) => s.(handlers := s.handlers[h := Inactive], active := s.active - 1)
    case Release(h) => s.(handlers := s.handlers[h := Gone], slots := s.slots - 1)
  }

  predicate Holding(at: Handler) { !at.Gone? }

  predicate Releasing(at: Handler) { at.Inactive? }

  function LoopHolds(loop: Loop): nat {
    if loop.Reserved? || loop.Activated? || loop.Admitted? then 1 else 0
  }

  ghost predicate Inv(s: State) {
    && s.slots == LoopHolds(s.loop) + Count(s.handlers, Holding) <= s.max
    && s.active + (if s.loop.Reserved? then 1 else 0) + Count(s.handlers, Releasing) == s.slots
    && s.admitted == |s.handlers| + (if s.loop.Admitted? then 1 else 0)
    && s.refusals == s.rejected + (if s.loop.Turning? then 1 else 0)
  }

  lemma {:induction false} InvStep(s: State, step: Step)
    requires Inv(s) && Enabled(s, step)
    ensures Inv(Do(s, step))
  {
    var t := Do(s, step);
    if IsHandlerStep(step) {
      CountUpdate(s.handlers, step.h, t.handlers[step.h], Holding);
      CountUpdate(s.handlers, step.h, t.handlers[step.h], Releasing);
    } else if step.Start? {
      CountAdd(s.handlers, Serving, Holding);
      CountAdd(s.handlers, Serving, Releasing);
    }
    hide Count;
  }

  ghost predicate Runs(from: State, steps: seq<Step>, to: State)
    decreases |steps|
  {
    if steps == [] then from == to
    else Enabled(from, steps[0]) && Runs(Do(from, steps[0]), steps[1..], to)
  }

  ghost predicate Reachable(s: State) {
    exists max, steps :: max > 0 && Runs(Init(max), steps, s)
  }

  lemma {:induction false} InvRuns(from: State, steps: seq<Step>, to: State)
    requires Inv(from) && Runs(from, steps, to)
    ensures Inv(to) && to.max == from.max
    decreases |steps|
  {
    if steps == [] {
    } else {
      InvStep(from, steps[0]);
      InvRuns(Do(from, steps[0]), steps[1..], to);
    }
  }

  lemma ReachableInv(s: State)
    requires Reachable(s)
    ensures Inv(s) && s.max > 0
  {
    var max, steps :| max > 0 && Runs(Init(max), steps, s);
    InvRuns(Init(max), steps, s);
  }

  lemma {:induction false} CountWithin(handlers: seq<Handler>)
    ensures Count(handlers, Releasing) <= Count(handlers, Holding)
    decreases |handlers|
  {
    if handlers == [] {
    } else {
      CountWithin(handlers[..|handlers| - 1]);
    }
  }

  /** In every interleaving: as many slots are taken as there are reservations not yet released,
      never more than the maximum, and the connections counted active are among them. */
  lemma {:induction false} Safety(s: State)
    requires Reachable(s)
    ensures s.slots == LoopHolds(s.loop) + Count(s.handlers, Holding)
    ensures 0 <= s.active <= s.slots <= s.max
    ensures s.slots - s.active == (if s.loop.Reserved? then 1 else 0) + Count(s.handlers, Releasing)
    ensures |s.handlers| <= s.admitted <= |s.handlers| + 1
  {
    ReachableInv(s);
    CountWithin(s.handlers);
  }

  /** Releasing a slot never blocks. */
  lemma {:induction false} ReleaseNeverBlocks(s: State, h: nat)
    requires Reachable(s) && h < |s.handlers| && s.handlers[h].Inactive?
    ensures Enabled(s, Release(h))
  {
    ReachableInv(s);
    CountSome(s.handlers, h, Holding);
  }

  /** A connection is turned away exactly when handlers hold all slots at that moment; in
      particular a slot whose handler has finished is always given out again. */
  lemma {:induction false} TurnedAwayIff(s: State)
    requires Reachable(s) && s.loop.Deciding?
    ensures Enabled(s, Turn) <==> Count(s.handlers, Holding) == s.max
    ensures Enabled(s, Reserve) <==> Count(s.handlers, Holding) < s.max
    ensures !(Enabled(s, Turn) && Enabled(s, Reserve))
  {
    ReachableInv(s);
  }

  function HandlerStep(at: Handler, h: nat): Step
    requires Holding(at)
  {
    match at
    case Serving => Finish(h)
    case Closed => Uncount(h)
    case Inactive => Release(h)
  }

  predicate IsHandlerStep(step: Step) {
    step.Finish? || step.Uncount? || step.Release?
  }

  // How many of its own steps a handler is away from having released its slot.
  function StepsLeft(at: Handler): nat {
    match at
    case Serving => 3
    case Closed => 2
    case Inactive => 1
    case Gone => 0
  }

  function AllStepsLeft(handlers: seq<Handler>): nat {
    if handlers == [] then 0 else StepsLeft(handlers[0]) + AllStepsLeft(handlers[1..])
  }

  /** From every reachable state, the handlers on their own can return every slot they hold. */
  lemma {:induction false} SlotsDrain(s: State) returns (steps: seq<Step>, to: State)
    requires Inv(s)
    ensures Runs(s, steps, to) && Inv(to) && to.loop == s.loop && to.max == s.max
    ensures |steps| == AllStepsLeft(s.handlers) && forall step <- steps :: IsHandlerStep(step)
    ensures to.slots == LoopHolds(s.loop) && to.active == if s.loop.Activated? || s.loop.Admitted? then 1 else 0
    decreases AllStepsLeft(s.handlers)
  {
    hide Count, AllStepsLeft, Inv, Do, Enabled;
    if h :| 0 <= h < |s.handlers| && Holding(s.handlers[h]) {
      var step := HandlerStep(s.handlers[h], h);
      DrainStep(s, h);
      var rest;
      rest, to := SlotsDrain(Do(s, step));
      steps := [step] + rest;
      assert steps[1..] == rest;
    } else {
      steps, to := [], s;
      AllGone(s);
    }
  }

  lemma DrainStep(s: State, h: nat)
    requires Inv(s) && h < |s.handlers| && Holding(s.handlers[h])
    ensures var step := HandlerStep(s.handlers[h], h);
      && Enabled(s, step) && Inv(Do(s, step)) && IsHandlerStep(step)
      && AllStepsLeft(Do(s, step).handlers) == AllStepsLeft(s.handlers) - 1
      && Do(s, step).loop == s.loop && Do(s, step).max == s.max
  {
    CountSome(s.handlers, h, Holding);
    hide Count;
    var step := HandlerStep(s.handlers[h], h);
    InvStep(s, step);
    StepsLeftUpdate(s.handlers, h, Do(s, step).handlers[h]);
  }

  lemma AllGone(s: State)
    requires Inv(s) && forall i :: 0 <= i < |s.handlers| ==> !Holding(s.handlers[i])
    ensures s.slots == LoopHolds(s.loop) && s.active == (if s.loop.Activated? || s.loop.Admitted? then 1 else 0)
    ensures AllStepsLeft(s.handlers) == 0
  {
    CountNone(s.handlers, Holding);
    CountNone(s.handlers, Releasing);
    NoneLeft(s.handlers);
  }

  lemma {:induction false} NoneLeft(handlers: seq<Handler>)
    requires forall i :: 0 <= i < |handlers| ==> !Holding(handlers[i])
    ensures AllStepsLeft(handlers) == 0
  {
    if handlers == [] {
    } else {
      NoneLeft(handlers[1..]);
    }
  }

  lemma {:induction false} StepsLeftUpdate(handlers: seq<Handler>, h: nat, at: Handler)
    requires h < |handlers|
    ensures AllStepsLeft(handlers[h := at]) == AllStepsLeft(handlers) - StepsLeft(handlers[h]) + StepsLeft(at)
    decreases |handlers|
  {
    if h == 0 {
      assert handlers[h := at][1..] == handlers[1..];
    } else {
      StepsLeftUpdate(handlers[1..], h - 1, at);
      assert handlers[h := at][1..] == handlers[1..][h - 1 := at];
    }
  }
}
