/** Cancellation of one statement execution: the execution thread authorises a break/reset, the context
    after-function performs it, and cleanup stops or releases the after-function. They meet through a
    run-once cell, buffered channels and the registration of the after-function.

    `CancellationState` is the shared object with its channel operations; `Handshake` interleaves the
    three parties step by step. */
module StatementCancellation {

  datatype Party = Requester | Cleaner

  /** A run-once cell: a second caller waits while the first one runs and is turned away afterwards. */
  datatype Once = Unused | Running(party: Party) | Used

  /** The channels of one execution. `start` and `completed` are buffered with room for one value;
      `started` and `done` carry no values and are only closed, so the model counts their closes. */
  datatype Channels = Channels(once: Once, started: nat, start: seq<bool>, completed: nat, done: nat)

  const CAPACITY := 1

  const NoChannelUsed := Channels(Unused, 0, [], 0, 0)

  function StartSent(ch: Channels, go: bool): Channels { ch.(start := ch.start + [go], once := Used) }

  function StartTaken(ch: Channels): Channels
    requires ch.start != []
  {
    ch.(start := ch.start[1..])
  }

  /** The object shared by the after-function, the requester and cleanup. Each method is one atomic channel or
      run-once operation; its precondition is what keeps a goroutine from blocking there. */
  class CancellationState {
    var once: Once
    var started: nat
    var start: seq<bool>
    var completed: nat
    var done: nat

    constructor ()
      ensures View() == NoChannelUsed
    {
      once, started, start, completed, done := Unused, 0, [], 0, 0;
    }

    function View(): Channels
      reads this
    {
      Channels(once, started, start, completed, done)
    }

    /** Entry into the run-once cell: whether this party is the one that runs the body. */
    method EnterOnce(party: Party) returns (first: bool)
      requires !once.Running?
      modifies this`once
      ensures first <==> old(once) == Unused
      ensures once == if first then Running(party) else old(once)
    {
      first := once == Unused;
      if first {
        once := Running(party);
      }
    }

    /** The body of the run-once cell: one send on `start`. */
    method SendStart(go: bool)
      requires |start| < CAPACITY
      modifies this
      ensures View() == StartSent(old(View()), go)
    {
      start := start + [go];
      once := Used;
    }

    method TakeStart() returns (go: bool)
      requires start != []
      modifies this`start
      ensures go == old(start)[0] && View() == StartTaken(old(View()))
    {
      go := start[0];
      start := start[1..];
    }

    method SendCompleted()
      requires completed < CAPACITY
      modifies this`completed
      ensures completed == old(completed) + 1
    {
      completed := completed + 1;
    }

    method TakeCompleted()
      requires 0 < completed
      modifies this`completed
      ensures completed == old(completed) - 1
    {
      completed := completed - 1;
    }

    method CloseStarted()
      requires started == 0
      modifies this`started
      ensures started == 1
    {
      started := 1;
    }

    method CloseDone()
      requires done == 0
      modifies this`done
      ensures done == 1
    {
      done := 1;
    }
  }

  // ---------------------------------------------------------------------------------------------
  // The handshake
  // ---------------------------------------------------------------------------------------------

  /** The registration of the after-function on the sub-context. */
  datatype Registration = Armed | Fired | Stopped

  datatype AfterFunction =
    | NotSpawned
    | Spawned        // about to make the timeout context and close `started`
    | AwaitStart     // receiving from `start`
    | Resetting      // authorised, about to run break/reset
    | Publishing     // about to send on `completed`
    | Withdrawing    // turned away, about to call the timeout's cancel function
    | Leaving        // about to close `done`
    | Finished

  datatype RequesterAt = RIdle | RAtOnce | RSending | RAwaiting | RHolding

  datatype CleanerAt = CIdle | CAtStop | CAtOnce | CSending | CAwaitDone | CCancelling | CReturned

  /** Where the timeout's cancel function is. */
  datatype CancelFunction = NotMade | WithAfterFunction | InChannel | WithRequester | Called

  datatype Handshake = Handshake(
    cancelled: bool,
    registration: Registration,
    after: AfterFunction,
    requester: RequesterAt,
    cleaner: CleanerAt,
    ch: Channels,
    authorised: bool,      // history: a request has been let through
    breakResets: nat,      // history: how often break/reset has run
    cancelFunction: CancelFunction,
    cancelCalls: nat)      // history: how often the timeout's cancel function has been called

  datatype Step =
    | CancelContext                                                                   // parent, transaction or caller
    | Fire                                                                            // the runtime spawns the after-function
    | AfterStart | AfterTakeStart | AfterBreakReset | AfterPublish | AfterWithdraw | AfterClose
    | RequestBegin | RequestOnce | RequestSend | RequestReceive | RequestRelease
    | CleanBegin | CleanStop | CleanOnce | CleanSend | CleanTakeDone | CleanCancel

  const Start := Handshake(false, Armed, NotSpawned, RIdle, CIdle, NoChannelUsed, false, 0, NotMade, 0)

  /** `sequential` says that requests and cleanup run in one goroutine, as they do in the driver, where
      cleanup is deferred by the function that executes the statement. A request is only made after the
      sub-context has been cancelled. */
  predicate Enabled(sequential: bool, s: Handshake, step: Step) {
    match step
    case CancelContext => !s.cancelled
    case Fire => s.cancelled && s.registration == Armed
    case AfterStart => s.after == Spawned
    case AfterTakeStart => s.after == AwaitStart && s.ch.start != []
    case AfterBreakReset => s.after == Resetting
    case AfterPublish => s.after == Publishing && s.ch.completed < CAPACITY
    case AfterWithdraw => s.after == Withdrawing
    case AfterClose => s.after == Leaving
    case RequestBegin => s.requester == RIdle && s.cancelled && (sequential ==> s.cleaner == CIdle)
    case RequestOnce => s.requester == RAtOnce && !s.ch.once.Running?
    case RequestSend => s.requester == RSending && |s.ch.start| < CAPACITY
    case RequestReceive => s.requester == RAwaiting && 0 < s.ch.completed
    case RequestRelease => s.requester == RHolding
    case CleanBegin => s.cleaner == CIdle && (sequential ==> s.requester == RIdle)
    case CleanStop => s.cleaner == CAtStop
    case CleanOnce => s.cleaner == CAtOnce && !s.ch.once.Running?
    case CleanSend => s.cleaner == CSending && |s.ch.start| < CAPACITY
    case CleanTakeDone => s.cleaner == CAwaitDone && 0 < s.ch.done
    case CleanCancel => s.cleaner == CCancelling
  }

  function Apply(s: Handshake, step: Step): Handshake
    requires Enabled(false, s, step)
  {
    match step
    case CancelContext => s.(cancelled := true)
    case Fire => s.(registration := Fired, after := Spawned)
    case AfterStart =>
      s.(after := AwaitStart, ch := s.ch.(started := s.ch.started + 1), cancelFunction := WithAfterFunction)
    case AfterTakeStart => s.(after := if s.ch.start[0] then Resetting else Withdrawing, ch := StartTaken(s.ch))
    case AfterBreakReset => s.(after := Publishing, breakResets := s.breakResets + 1)
    case AfterPublish => s.(after := Leaving, ch := s.ch.(completed := s.ch.completed + 1), cancelFunction := InChannel)
    case AfterWithdraw => s.(after := Leaving, cancelFunction := Called, cancelCalls := s.cancelCalls + 1)
    case AfterClose => s.(after := Finished, ch := s.ch.(done := s.ch.done + 1))
    case RequestBegin => s.(requester := RAtOnce)
    case RequestOnce =>
      if s.ch.once == Unused then s.(requester := RSending, ch := s.ch.(once := Running(Requester)))
      else s.(requester := RIdle)
    case RequestSend => s.(requester := RAwaiting, ch := StartSent(s.ch, true), authorised := true)
    case RequestReceive =>
      s.(requester := RHolding, ch := s.ch.(completed := s.ch.completed - 1), cancelFunction := WithRequester)
    case RequestRelease => s.(requester := RIdle, cancelFunction := Called, cancelCalls := s.cancelCalls + 1)
    case CleanBegin => s.(cleaner := CAtStop)
    case CleanStop =>
      if s.registration == Armed then s.(registration := Stopped, cleaner := CCancelling) else s.(cleaner := CAtOnce)
    case CleanOnce =>
      if s.ch.once == Unused then s.(cleaner := CSending, ch := s.ch.(once := Running(Cleaner)))
      else s.(cleaner := CAwaitDone)
    case CleanSend => s.(cleaner := CAwaitDone, ch := StartSent(s.ch, false))
    case CleanTakeDone => s.(cleaner := CCancelling)
    case CleanCancel => s.(cleaner := CReturned, cancelled := true)
  }

  ghost predicate IsRun(sequential: bool, states: seq<Handshake>, steps: seq<Step>) {
    && |states| == |steps| + 1
    && states[0] == Start
    && forall i :: 0 <= i < |steps| ==> Enabled(sequential, states[i], steps[i]) && states[i + 1] == Apply(states[i], steps[i])
  }

  // ---------------------------------------------------------------------------------------------
  // Invariants
  // ---------------------------------------------------------------------------------------------

  predicate BeforeVerdict(after: AfterFunction) { after == NotSpawned || after == Spawned || after == AwaitStart }

  predicate Gone(after: AfterFunction) { after == Leaving || after == Finished }

  ghost predicate RegistrationInv(s: Handshake) {
    && (s.registration == Fired <==> s.after != NotSpawned)
    && (s.registration == Fired || s.requester != RIdle ==> s.cancelled)
    && (s.cleaner == CIdle || s.cleaner == CAtStop ==> s.registration != Stopped)
    && (s.cleaner == CAtOnce || s.cleaner == CSending || s.cleaner == CAwaitDone ==> s.registration == Fired)
    && (s.cleaner == CCancelling || s.cleaner == CReturned ==> s.registration == Stopped || s.after == Finished)
    && (s.cleaner == CReturned ==> s.cancelled)
  }

  ghost predicate ChannelInv(s: Handshake) {
    && s.ch.started == (if s.after == NotSpawned || s.after == Spawned then 0 else 1)
    && s.ch.done == (if s.after == Finished then 1 else 0)
    && (s.ch.once == Running(Requester) <==> s.requester == RSending)
    && (s.ch.once == Running(Cleaner) <==> s.cleaner == CSending)
    && s.ch.start == (if s.ch.once == Used && BeforeVerdict(s.after) then [s.authorised] else [])
    && (s.ch.once != Used ==> BeforeVerdict(s.after) && !s.authorised && s.cleaner != CAwaitDone)
    && s.ch.completed == (if s.cancelFunction == InChannel then 1 else 0)
  }

  ghost predicate AuthorityInv(s: Handshake) {
    && (s.after == Resetting || s.after == Publishing ==> s.authorised)
    && (s.after == Withdrawing ==> !s.authorised)
    && s.breakResets == (if s.authorised && (s.after == Publishing || Gone(s.after)) then 1 else 0)
  }

  ghost predicate CancelFunctionInv(s: Handshake) {
    && (s.after == NotSpawned || s.after == Spawned <==> s.cancelFunction == NotMade)
    && (!Gone(s.after) && s.after != NotSpawned && s.after != Spawned <==> s.cancelFunction == WithAfterFunction)
    && (s.cancelFunction == InChannel || s.cancelFunction == WithRequester ==> s.authorised)
    && (s.cancelFunction == WithRequester <==> s.requester == RHolding)
    && (s.requester == RAwaiting <==>
          s.authorised && (s.cancelFunction == NotMade || s.cancelFunction == WithAfterFunction || s.cancelFunction == InChannel))
    && s.cancelCalls == (if s.cancelFunction == Called then 1 else 0)
  }

  ghost predicate Inv(sequential: bool, s: Handshake) {
    && RegistrationInv(s) && ChannelInv(s) && AuthorityInv(s) && CancelFunctionInv(s)
    && (sequential && s.cleaner != CIdle ==> s.requester == RIdle)
  }

  lemma StepKeepsInv(sequential: bool, s: Handshake, step: Step)
    requires Inv(sequential, s) && Enabled(sequential, s, step)
    ensures Inv(sequential, Apply(s, step))
  {
    StepKeepsRegistration(sequential, s, step);
    StepKeepsChannels(sequential, s, step);
    StepKeepsAuthority(sequential, s, step);
    StepKeepsCancelFunction(sequential, s, step);
  }

  lemma StepKeepsRegistration(sequential: bool, s: Handshake, step: Step)
    requires Inv(sequential, s) && Enabled(sequential, s, step)
    ensures RegistrationInv(Apply(s, step))
  {
  }

  lemma StepKeepsChannels(sequential: bool, s: Handshake, step: Step)
    requires Inv(sequential, s) && Enabled(sequential, s, step)
    ensures ChannelInv(Apply(s, step))
  {
  }

  lemma StepKeepsAuthority(sequential: bool, s: Handshake, step: Step)
    requires Inv(sequential, s) && Enabled(sequential, s, step)
    ensures AuthorityInv(Apply(s, step))
  {
  }

  lemma StepKeepsCancelFunction(sequential: bool, s: Handshake, step: Step)
    requires Inv(sequential, s) && Enabled(sequential, s, step)
    ensures CancelFunctionInv(Apply(s, step))
  {
  }

  lemma {:induction false} RunKeepsInv(sequential: bool, states: seq<Handshake>, steps: seq<Step>, i: nat)
    requires IsRun(sequential, states, steps) && i < |states|
    ensures Inv(sequential, states[i])
  {
    if i == 0 {
    } else {
      RunKeepsInv(sequential, states, steps, i - 1);
      StepKeepsInv(sequential, states[i - 1], steps[i - 1]);
    }
  }

  // ---------------------------------------------------------------------------------------------
  // Safety over whole runs, whether or not requests and cleanup share a goroutine
  // ---------------------------------------------------------------------------------------------

  lemma {:induction false} AuthorisedByRequest(sequential: bool, states: seq<Handshake>, steps: seq<Step>, i: nat)
    requires IsRun(sequential, states, steps) && i < |states| && states[i].authorised
    ensures exists k :: 0 <= k < i && steps[k] == RequestSend
  {
    if states[i - 1].authorised {
      AuthorisedByRequest(sequential, states, steps, i - 1);
    } else {
      assert steps[i - 1] == RequestSend;
    }
  }

  lemma {:induction false} HistoryOnlyGrows(sequential: bool, states: seq<Handshake>, steps: seq<Step>, i: nat, j: nat)
    requires IsRun(sequential, states, steps) && i <= j < |states|
    ensures states[i].breakResets <= states[j].breakResets
    ensures states[i].cleaner == CReturned ==> states[j].cleaner == CReturned
    decreases j
  {
    if i < j {
      HistoryOnlyGrows(sequential, states, steps, i, j - 1);
    }
  }

  /** Break/reset runs at most once in a run, only after a request let it through, and never once cleanup
      has returned. */
  lemma BreakResetIsAuthorisedAndUnique(sequential: bool, states: seq<Handshake>, steps: seq<Step>, i: nat)
    requires IsRun(sequential, states, steps) && i < |steps| && steps[i] == AfterBreakReset
    ensures exists k :: 0 <= k < i && steps[k] == RequestSend
    ensures forall j :: 0 <= j < |steps| && steps[j] == AfterBreakReset ==> j == i
    ensures forall j :: 0 <= j <= i ==> states[j].cleaner != CReturned
  {
    RunKeepsInv(sequential, states, steps, i);
    AuthorisedByRequest(sequential, states, steps, i);
    forall j | 0 <= j < |steps| && steps[j] == AfterBreakReset
      ensures j == i
    {
      var a, b := if i < j then i else j, if i < j then j else i;
      if a < b {
        RunKeepsInv(sequential, states, steps, b);
        HistoryOnlyGrows(sequential, states, steps, a + 1, b);
      }
    }
    forall j | 0 <= j <= i
      ensures states[j].cleaner != CReturned
    {
      HistoryOnlyGrows(sequential, states, steps, j, i);
    }
  }

  /** No channel send can block and no channel is closed twice. */
  lemma NoSendBlocks(sequential: bool, states: seq<Handshake>, steps: seq<Step>, i: nat)
    requires IsRun(sequential, states, steps) && i < |states|
    ensures states[i].requester == RSending ==> Enabled(sequential, states[i], RequestSend)
    ensures states[i].cleaner == CSending ==> Enabled(sequential, states[i], CleanSend)
    ensures states[i].after == Publishing ==> Enabled(sequential, states[i], AfterPublish)
    ensures states[i].ch.started <= 1 && states[i].ch.done <= 1
  {
    RunKeepsInv(sequential, states, steps, i);
  }

  predicate BelongsToAfterFunction(step: Step) {
    step.Fire? || step.AfterStart? || step.AfterTakeStart? || step.AfterBreakReset? || step.AfterPublish? ||
    step.AfterWithdraw? || step.AfterClose?
  }

  /** When cleanup has returned, the after-function has finished or never starts: no later step is its own. */
  lemma QuietAfterCleanup(sequential: bool, states: seq<Handshake>, steps: seq<Step>, i: nat, j: nat)
    requires IsRun(sequential, states, steps) && i <= j < |steps| && states[i].cleaner == CReturned
    ensures states[j].after == Finished || (states[j].after == NotSpawned && states[j].registration == Stopped)
    ensures !BelongsToAfterFunction(steps[j])
  {
    HistoryOnlyGrows(sequential, states, steps, i, j);
    RunKeepsInv(sequential, states, steps, j);
  }

  lemma {:induction false} StoppedStaysStopped(sequential: bool, states: seq<Handshake>, steps: seq<Step>, i: nat, j: nat)
    requires IsRun(sequential, states, steps) && i <= j < |states| && states[i].registration == Stopped
    ensures states[j].registration == Stopped
    decreases j
  {
    if i < j {
      StoppedStaysStopped(sequential, states, steps, i, j - 1);
    }
  }

  /** A run that is cleaned up before it is cancelled never runs break/reset, although cleanup itself then
      cancels the sub-context. */
  lemma CleanedUpBeforeCancellation(sequential: bool, states: seq<Handshake>, steps: seq<Step>, i: nat, j: nat)
    requires IsRun(sequential, states, steps) && i < |steps| && j < |states|
    requires steps[i] == CleanStop && !states[i].cancelled
    ensures states[j].breakResets == 0 && states[j].after == NotSpawned
    ensures states[j].cleaner == CReturned ==> states[j].cancelled
  {
    RunKeepsInv(sequential, states, steps, i);
    var k := if j <= i then i + 1 else j;
    StoppedStaysStopped(sequential, states, steps, i + 1, k);
    RunKeepsInv(sequential, states, steps, k);
    HistoryOnlyGrows(sequential, states, steps, j, k);
    SpawnedStaysSpawned(sequential, states, steps, j, k);
    RunKeepsInv(sequential, states, steps, j);
  }

  /** When cleanup returns, the sub-context has been cancelled, whoever did it; a statement that nobody cancels is cancelled by
      its own cleanup. */
  lemma CleanupCancels(sequential: bool, states: seq<Handshake>, steps: seq<Step>, i: nat)
    requires IsRun(sequential, states, steps) && i < |states|
    ensures states[i].cleaner == CReturned ==> states[i].cancelled
    ensures states[i].cleaner == CIdle && states[i].cancelled ==> exists k :: 0 <= k < i && steps[k] == CancelContext
  {
    RunKeepsInv(sequential, states, steps, i);
    if states[i].cleaner == CIdle && states[i].cancelled {
      CancelledBySomebody(sequential, states, steps, i);
    }
  }

  lemma {:induction false} CancelledBySomebody(sequential: bool, states: seq<Handshake>, steps: seq<Step>, i: nat)
    requires IsRun(sequential, states, steps) && i < |states| && states[i].cancelled && states[i].cleaner == CIdle
    ensures exists k :: 0 <= k < i && steps[k] == CancelContext
  {
    assert i > 0;
    if steps[i - 1] != CancelContext {
      CancelledBySomebody(sequential, states, steps, i - 1);
    }
  }

  lemma {:induction false} SpawnedStaysSpawned(sequential: bool, states: seq<Handshake>, steps: seq<Step>, i: nat, j: nat)
    requires IsRun(sequential, states, steps) && i <= j < |states| && states[j].after == NotSpawned
    ensures states[i].after == NotSpawned
    decreases j
  {
    if i < j {
      SpawnedStaysSpawned(sequential, states, steps, i, j - 1);
    }
  }

  // ---------------------------------------------------------------------------------------------
  // Progress
  // ---------------------------------------------------------------------------------------------

  predicate Over(s: Handshake) {
    s.cleaner == CReturned && s.requester == RIdle && (s.after == NotSpawned || s.after == Finished)
  }

  /** A request let through after cleanup has stopped the after-function: nobody is left to answer it. */
  predicate Deadlocked(s: Handshake) {
    s.cleaner == CReturned && s.requester == RAwaiting && s.registration == Stopped
  }

  /** Steps that some party or the runtime owes; a new request or a cancellation may or may not come. */
  predicate Owed(step: Step) { step != RequestBegin && step != CancelContext }

  lemma SomeStepIsEnabled(sequential: bool, s: Handshake)
    requires Inv(sequential, s) && !Over(s) && !Deadlocked(s)
    ensures exists step :: Owed(step) && Enabled(sequential, s, step)
  {
    var step :=
      if s.registration == Armed && s.cancelled then Fire
      else if s.after == Spawned then AfterStart
      else if s.after == Resetting then AfterBreakReset
      else if s.after == Publishing then AfterPublish
      else if s.after == Withdrawing then AfterWithdraw
      else if s.after == Leaving then AfterClose
      else if s.after == AwaitStart && s.ch.start != [] then AfterTakeStart
      else if s.requester == RSending then RequestSend
      else if s.cleaner == CSending then CleanSend
      else if s.requester == RAtOnce then RequestOnce
      else if s.requester == RHolding then RequestRelease
      else if s.requester == RAwaiting && 0 < s.ch.completed then RequestReceive
      else if s.cleaner == CIdle then CleanBegin
      else if s.cleaner == CAtStop then CleanStop
      else if s.cleaner == CAtOnce then CleanOnce
      else if s.cleaner == CAwaitDone then CleanTakeDone
      else CleanCancel;
    assert s.ch.once.Running? ==> s.ch.once.party == Requester || s.ch.once.party == Cleaner;
    assert Owed(step) && Enabled(sequential, s, step);
  }

  /** Exactly when a reachable state has nothing left to do: it is over, or a request was let through after
      cleanup had stopped the after-function. */
  lemma StuckExactlyWhenOverOrDeadlocked(sequential: bool, s: Handshake)
    requires Inv(sequential, s)
    ensures (forall step :: Owed(step) ==> !Enabled(sequential, s, step)) <==> Over(s) || Deadlocked(s)
  {
    if !Over(s) && !Deadlocked(s) {
      SomeStepIsEnabled(sequential, s);
    }
  }

  /** In the driver no reachable state is stuck before the execution is over. */
  lemma NeverStuck(states: seq<Handshake>, steps: seq<Step>, i: nat)
    requires IsRun(true, states, steps) && i < |states| && !Over(states[i])
    ensures exists step :: Owed(step) && Enabled(true, states[i], step)
  {
    RunKeepsInv(true, states, steps, i);
    SomeStepIsEnabled(true, states[i]);
  }

  lemma Extended(states: seq<Handshake>, steps: seq<Step>, step: Step)
    returns (states': seq<Handshake>, steps': seq<Step>)
    requires IsRun(false, states, steps) && Enabled(false, states[|steps|], step)
    ensures IsRun(false, states', steps') && states'[|steps'|] == Apply(states[|steps|], step)
  {
    states', steps' := states + [Apply(states[|steps|], step)], steps + [step];
  }

  /** The sharing of one goroutine is needed: if a request and cleanup could overlap, a run could stop the
      after-function under a request that has just been let through. */
  lemma OverlappingCleanupCanDeadlock()
    ensures exists states, steps :: IsRun(false, states, steps) && Deadlocked(states[|steps|])
  {
    var states, steps := [Start], [];
    states, steps := Extended(states, steps, CancelContext);
    states, steps := Extended(states, steps, CleanBegin);
    states, steps := Extended(states, steps, RequestBegin);
    states, steps := Extended(states, steps, RequestOnce);
    states, steps := Extended(states, steps, RequestSend);
    states, steps := Extended(states, steps, CleanStop);
    states, steps := Extended(states, steps, CleanCancel);
  }

  function AfterRank(after: AfterFunction): nat {
    match after
    case NotSpawned => 6
    case Spawned => 5
    case AwaitStart => 4
    case Resetting => 3
    case Publishing => 2
    case Withdrawing => 2
    case Leaving => 1
    case Finished => 0
  }

  function RequesterRank(requester: RequesterAt): nat {
    match requester case RIdle => 0 case RHolding => 1 case RAwaiting => 2 case RSending => 3 case RAtOnce => 4
  }

  function CleanerRank(cleaner: CleanerAt): nat {
    match cleaner
    case CIdle => 6
    case CAtStop => 5
    case CAtOnce => 4
    case CSending => 3
    case CAwaitDone => 2
    case CCancelling => 1
    case CReturned => 0
  }

  function Rank(s: Handshake): nat {
    (if s.cancelled then 0 else 1) + AfterRank(s.after) + RequesterRank(s.requester) + CleanerRank(s.cleaner)
  }

  lemma StepLowersRank(sequential: bool, s: Handshake, step: Step)
    requires Inv(sequential, s) && Enabled(sequential, s, step) && step != RequestBegin
    ensures Rank(Apply(s, step)) < Rank(s)
    ensures s.cleaner != CIdle ==> Apply(s, step).cleaner != CIdle
  {
  }

  lemma RunLowersRank(states: seq<Handshake>, steps: seq<Step>, k: nat)
    requires IsRun(true, states, steps) && k < |steps| && steps[k] != RequestBegin
    ensures Rank(states[k + 1]) < Rank(states[k])
  {
    RunKeepsInv(true, states, steps, k);
    StepLowersRank(true, states[k], steps[k]);
  }

  /** A sequence that falls with every entry falls by at least its length. */
  lemma {:induction false} FallingIsBounded(values: seq<int>)
    requires values != [] && forall k :: 0 <= k < |values| - 1 ==> values[k + 1] < values[k]
    ensures |values| - 1 + values[|values| - 1] <= values[0]
  {
    if |values| > 1 {
      FallingIsBounded(values[..|values| - 1]);
    }
  }

  lemma RanksFall(states: seq<Handshake>, steps: seq<Step>, i: nat, j: nat)
    requires IsRun(true, states, steps) && i <= j < |states|
    requires forall k :: i <= k < j ==> steps[k] != RequestBegin
    ensures forall k :: i <= k < j ==> Rank(states[k + 1]) < Rank(states[k])
  {
    forall k | i <= k < j
      ensures Rank(states[k + 1]) < Rank(states[k])
    {
      RunLowersRank(states, steps, k);
    }
  }

  lemma RanksBound(states: seq<Handshake>, i: nat, j: nat)
    requires i <= j < |states| && forall k :: i <= k < j ==> Rank(states[k + 1]) < Rank(states[k])
    ensures j - i + Rank(states[j]) <= Rank(states[i])
  {
    var ranks := seq(j - i + 1, k requires 0 <= k <= j - i => Rank(states[i + k]));
    FallingIsBounded(ranks);
  }

  lemma StepsAreBounded(states: seq<Handshake>, steps: seq<Step>, i: nat, j: nat)
    requires IsRun(true, states, steps) && i <= j < |states|
    requires forall k :: i <= k < j ==> steps[k] != RequestBegin
    ensures j - i + Rank(states[j]) <= Rank(states[i])
  {
    RanksFall(states, steps, i, j);
    RanksBound(states, i, j);
  }

  lemma {:induction false} BegunStaysBegun(states: seq<Handshake>, steps: seq<Step>, i: nat, j: nat)
    requires IsRun(true, states, steps) && i <= j < |states| && states[i].cleaner != CIdle
    ensures states[j].cleaner != CIdle
    decreases j
  {
    if i < j {
      BegunStaysBegun(states, steps, i, j - 1);
    }
  }

  /** Cleanup always returns: once it has begun, the run has at most twelve more steps, and where no party owes a step any
      more, cleanup has returned and nobody is left. */
  lemma CleanupReturns(states: seq<Handshake>, steps: seq<Step>, i: nat)
    requires IsRun(true, states, steps) && i < |states| && states[i].cleaner != CIdle
    ensures |steps| - i <= Rank(states[i]) <= 12
    ensures (forall step :: Owed(step) ==> !Enabled(true, states[|steps|], step)) ==>
              Over(states[|steps|]) && states[|steps|].cancelled
  {
    RunKeepsInv(true, states, steps, i);
    forall k | i <= k < |steps|
      ensures steps[k] != RequestBegin
    {
      BegunStaysBegun(states, steps, i, k);
    }
    StepsAreBounded(states, steps, i, |steps|);
    RunKeepsInv(true, states, steps, |steps|);
    if !Over(states[|steps|]) {
      NeverStuck(states, steps, |steps|);
    }
  }

  /** A request always returns: from where it is under way, at most `Rank` steps of any kind pass before the requester is
      idle again, and until then some party owes a step. */
  lemma RequestReturns(states: seq<Handshake>, steps: seq<Step>, i: nat, j: nat)
    requires IsRun(true, states, steps) && i <= j < |states|
    requires forall k :: i <= k <= j ==> states[k].requester != RIdle
    ensures j - i <= Rank(states[i])
    ensures exists step :: Owed(step) && Enabled(true, states[j], step)
  {
    forall k | i <= k < j
      ensures steps[k] != RequestBegin
    {
      assert states[k].requester != RIdle;
    }
    StepsAreBounded(states, steps, i, j);
    NeverStuck(states, steps, j);
  }

  /** The timeout's cancel function is called exactly once if it was ever made: by the after-function when it
      is turned away, otherwise by the requester it was handed to. */
  lemma CancelFunctionCalledOnce(sequential: bool, states: seq<Handshake>, steps: seq<Step>, i: nat)
    requires IsRun(sequential, states, steps) && i < |states|
    ensures states[i].cancelCalls <= 1
    ensures Over(states[i]) ==> states[i].cancelCalls == if states[i].after == NotSpawned then 0 else 1
    ensures states[i].cancelFunction == WithRequester ==> states[i].authorised && states[i].breakResets == 1
  {
    RunKeepsInv(sequential, states, steps, i);
  }

  datatype Waiter = WaitsForStart | WaitsForCompletion | WaitsForDone | WaitsForOnce(party: Party)

  predicate Waits(s: Handshake, w: Waiter) {
    match w
    case WaitsForStart => s.after == AwaitStart && s.ch.start == []
    case WaitsForCompletion => s.requester == RAwaiting && s.ch.completed == 0
    case WaitsForDone => s.cleaner == CAwaitDone && s.ch.done == 0
    case WaitsForOnce(Requester) => s.requester == RAtOnce && s.ch.once.Running?
    case WaitsForOnce(Cleaner) => s.cleaner == CAtOnce && s.ch.once.Running?
  }

  predicate IsStepOf(step: Step, w: Waiter) {
    match w
    case WaitsForStart => BelongsToAfterFunction(step)
    case WaitsForCompletion => step.RequestReceive? || step.RequestRelease?
    case WaitsForDone => step.CleanTakeDone? || step.CleanCancel?
    case WaitsForOnce(Requester) => step.RequestOnce? || step.RequestSend?
    case WaitsForOnce(Cleaner) => step.CleanOnce? || step.CleanSend?
  }

  lemma WaiterHasNoStep(s: Handshake, w: Waiter, step: Step)
    requires Inv(true, s) && Waits(s, w) && Enabled(true, s, step)
    ensures !IsStepOf(step, w)
  {
  }

  /** Whenever a party waits, a step that somebody else owes is enabled. */
  lemma WaiterHasActivePeer(states: seq<Handshake>, steps: seq<Step>, i: nat, w: Waiter)
    requires IsRun(true, states, steps) && i < |states| && Waits(states[i], w)
    ensures exists step :: Owed(step) && !IsStepOf(step, w) && Enabled(true, states[i], step)
  {
    RunKeepsInv(true, states, steps, i);
    SomeStepIsEnabled(true, states[i]);
    var step :| Owed(step) && Enabled(true, states[i], step);
    WaiterHasNoStep(states[i], w, step);
  }

  /** How many steps a party can still be kept waiting. While the after-function waits for its verdict, a first request may
      yet begin. */
  function Patience(s: Handshake, w: Waiter): nat {
    Rank(s) + if w == WaitsForStart && s.requester == RIdle then 5 else 0
  }

  /** Every step that does not end a wait brings its end nearer. */
  lemma StepShortensWait(s: Handshake, step: Step, w: Waiter)
    requires Inv(true, s) && Enabled(true, s, step) && Waits(s, w) && Waits(Apply(s, step), w)
    ensures Patience(Apply(s, step), w) < Patience(s, w)
  {
    if step != RequestBegin {
      StepLowersRank(true, s, step);
    }
  }

  lemma RunShortensWait(states: seq<Handshake>, steps: seq<Step>, k: nat, w: Waiter)
    requires IsRun(true, states, steps) && k < |steps| && Waits(states[k], w) && Waits(states[k + 1], w)
    ensures Patience(states[k + 1], w) < Patience(states[k], w)
  {
    RunKeepsInv(true, states, steps, k);
    StepShortensWait(states[k], steps[k], w);
  }

  lemma PatienceFalls(states: seq<Handshake>, steps: seq<Step>, i: nat, j: nat, w: Waiter)
    requires IsRun(true, states, steps) && i <= j < |states|
    requires forall k :: i <= k <= j ==> Waits(states[k], w)
    ensures forall k :: i <= k < j ==> Patience(states[k + 1], w) < Patience(states[k], w)
  {
    forall k | i <= k < j
      ensures Patience(states[k + 1], w) < Patience(states[k], w)
    {
      RunShortensWait(states, steps, k, w);
    }
  }

  lemma PatienceBounds(states: seq<Handshake>, i: nat, j: nat, w: Waiter)
    requires i <= j < |states| && forall k :: i <= k < j ==> Patience(states[k + 1], w) < Patience(states[k], w)
    ensures j - i + Patience(states[j], w) <= Patience(states[i], w)
  {
    var left := seq(j - i + 1, k requires 0 <= k <= j - i => Patience(states[i + k], w));
    FallingIsBounded(left);
  }

  lemma WaitIsBounded(states: seq<Handshake>, steps: seq<Step>, i: nat, j: nat, w: Waiter)
    requires IsRun(true, states, steps) && i <= j < |states|
    requires forall k :: i <= k <= j ==> Waits(states[k], w)
    ensures j - i + Patience(states[j], w) <= Patience(states[i], w)
  {
    PatienceFalls(states, steps, i, j, w);
    PatienceBounds(states, i, j, w);
  }

  /** Every wait ends: a run that goes on for `Patience` steps has released the waiter, and as long as the wait lasts some
      other party owes a step, so the run can go on. */
  lemma EveryWaitEnds(states: seq<Handshake>, steps: seq<Step>, i: nat, w: Waiter)
    requires IsRun(true, states, steps) && i < |states| && Waits(states[i], w)
    ensures i + Patience(states[i], w) < |steps| ==>
              exists j :: i < j <= i + Patience(states[i], w) + 1 && !Waits(states[j], w)
    ensures exists step :: Owed(step) && !IsStepOf(step, w) && Enabled(true, states[i], step)
  {
    WaiterHasActivePeer(states, steps, i, w);
    var end := i + Patience(states[i], w) + 1;
    if end < |states| && forall j :: i < j <= end ==> Waits(states[j], w) {
      WaitIsBounded(states, steps, i, end, w);
    }
  }

  /** Where no party owes a step any more, nobody waits. */
  lemma NobodyWaitsAtTheEnd(states: seq<Handshake>, steps: seq<Step>, w: Waiter)
    requires IsRun(true, states, steps) && forall step :: Owed(step) ==> !Enabled(true, states[|steps|], step)
    ensures !Waits(states[|steps|], w)
  {
    if Waits(states[|steps|], w) {
      WaiterHasActivePeer(states, steps, |steps|, w);
    }
  }

  // ---------------------------------------------------------------------------------------------
  // The parties as code over the shared channels
  // ---------------------------------------------------------------------------------------------

  /** The action at which each party stands. */
  function AfterFunctionAction(after: AfterFunction): Step
    requires after != NotSpawned && after != Finished
  {
    match after
    case Spawned => AfterStart
    case AwaitStart => AfterTakeStart
    case Resetting => AfterBreakReset
    case Publishing => AfterPublish
    case Withdrawing => AfterWithdraw
    case Leaving => AfterClose
  }

  function RequestAction(requester: RequesterAt): Step {
    match requester
    case RIdle => RequestBegin
    case RAtOnce => RequestOnce
    case RSending => RequestSend
    case RAwaiting => RequestReceive
    case RHolding => RequestRelease
  }

  function CleanupAction(cleaner: CleanerAt): Step
    requires cleaner != CReturned
  {
    match cleaner
    case CIdle => CleanBegin
    case CAtStop => CleanStop
    case CAtOnce => CleanOnce
    case CSending => CleanSend
    case CAwaitDone => CleanTakeDone
    case CCancelling => CleanCancel
  }

  /** One statement execution: the shared channels and where each party stands. Each method runs a party's next atomic action,
      which its precondition says does not block. */
  class Execution {
    const channels: CancellationState
    var cancelled: bool
    var registration: Registration
    var after: AfterFunction
    var requester: RequesterAt
    var cleaner: CleanerAt
    var cancelFunction: CancelFunction
    ghost var authorised: bool
    ghost var breakResets: nat
    ghost var cancelCalls: nat

    constructor ()
      ensures View() == Start && fresh(channels)
    {
      channels := new CancellationState();
      cancelled, registration, after, requester, cleaner, cancelFunction := false, Armed, NotSpawned, RIdle, CIdle, NotMade;
      authorised, breakResets, cancelCalls := false, 0, 0;
    }

    ghost function View(): Handshake
      reads this, channels
    {
      Handshake(cancelled, registration, after, requester, cleaner, channels.View(), authorised, breakResets, cancelFunction, cancelCalls)
    }

    /** The context package cancels the sub-context, and spawns the after-function of a cancelled one. */
    method ContextStep(step: Step)
      requires (step == CancelContext || step == Fire) && Enabled(false, View(), step)
      modifies this
      ensures View() == Apply(old(View()), step)
    {
      if step == CancelContext {
        cancelled := true;
      } else {
        registration, after := Fired, Spawned;
      }
    }

    /** The after-function registered on the sub-context. */
    method AfterFunctionStep()
      requires Inv(false, View()) && after != NotSpawned && after != Finished
      requires Enabled(false, View(), AfterFunctionAction(after))
      modifies this, channels
      ensures View() == Apply(old(View()), AfterFunctionAction(old(after)))
    {
      match after
      case Spawned =>
        cancelFunction := WithAfterFunction;
        channels.CloseStarted();
        after := AwaitStart;
      case AwaitStart =>
        var go := channels.TakeStart();
        after := if go then Resetting else Withdrawing;
      case Resetting =>
        breakResets := breakResets + 1;
        after := Publishing;
      case Publishing =>
        channels.SendCompleted();
        cancelFunction := InChannel;
        after := Leaving;
      case Withdrawing =>
        cancelFunction, cancelCalls := Called, cancelCalls + 1;
        after := Leaving;
      case Leaving =>
        channels.CloseDone();
        after := Finished;
    }

    /** `requestBreakReset` and the use that its caller makes of the result. */
    method RequestStep()
      requires Inv(false, View()) && Enabled(false, View(), RequestAction(requester))
      modifies this, channels
      ensures View() == Apply(old(View()), RequestAction(old(requester)))
    {
      match requester
      case RIdle =>
        requester := RAtOnce;
      case RAtOnce =>
        var requested := channels.EnterOnce(Requester);
        requester := if requested then RSending else RIdle;
      case RSending =>
        channels.SendStart(true);
        authorised := true;
        requester := RAwaiting;
      case RAwaiting =>
        channels.TakeCompleted();
        cancelFunction := WithRequester;
        requester := RHolding;
      case RHolding =>
        cancelFunction, cancelCalls := Called, cancelCalls + 1;
        requester := RIdle;
    }

    /** Cleanup, with `abortBreakReset` inside. */
    method CleanupStep()
      requires Inv(false, View()) && cleaner != CReturned && Enabled(false, View(), CleanupAction(cleaner))
      modifies this, channels
      ensures View() == Apply(old(View()), CleanupAction(old(cleaner)))
    {
      match cleaner
      case CIdle =>
        cleaner := CAtStop;
      case CAtStop =>
        if registration == Armed {
          registration, cleaner := Stopped, CCancelling;
        } else {
          cleaner := CAtOnce;
        }
      case CAtOnce =>
        var first := channels.EnterOnce(Cleaner);
        cleaner := if first then CSending else CAwaitDone;
      case CSending =>
        channels.SendStart(false);
        cleaner := CAwaitDone;
      case CAwaitDone =>
        cleaner := CCancelling;
      case CCancelling =>
        cancelled := true;
        cleaner := CReturned;
    }
  }

  /** Every step of the handshake is an action of the context package or of one of the three parties where it stands. */
  lemma StepsAreActions(s: Handshake, step: Step)
    requires Enabled(false, s, step)
    ensures || step == CancelContext || step == Fire
            || (s.after != NotSpawned && s.after != Finished && step == AfterFunctionAction(s.after))
            || step == RequestAction(s.requester)
            || (s.cleaner != CReturned && step == CleanupAction(s.cleaner))
  {
  }
}
