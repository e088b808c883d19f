/** The supervisor of one subprocess: requests to start go through a one-slot channel, a background
    loop serves them and restarts a process that ended by itself. Every method, and the receipt of a
    request together with the start it leads to, is one atomic step. */
module Supervisor {
  import opened WalNames

  /** `cancel` says that a cancel function is stored; `running` counts the subprocesses that have
      been started and have not ended. Unset times are `None`. */
  datatype State = State(
    pending: bool,
    cancel: bool,
    running: nat,
    startTime: Option<nat>,
    stopTime: Option<nat>,
    stopRequestTime: Option<nat>,
    lastAutomaticRestart: Option<nat>)

  datatype Definition = Definition(autoRestart: bool, restartWaitPeriod: nat)

  const INITIAL := State(false, false, 0, None, None, None, None)

  function StartProcess(s: State): (s': State) {
    if s.cancel then s else s.(pending := true)
  }

  function StopProcess(s: State, now: nat): (s': State) {
    if s.cancel then s.(stopRequestTime := Some(now)) else s
  }

  function ServeStartRequest(s: State, now: nat): (s': State) {
    State(false, true, s.running + 1, Some(now), None, None, s.lastAutomaticRestart)
  }

  function ProcessEnds(s: State, now: nat): (s': State)
    requires s.running > 0
  {
    s.(running := s.running - 1, cancel := false, stopTime := Some(now))
  }

  /** The restart the tick at `now` decides on. */
  predicate Restarts(d: Definition, s: State, now: nat) {
    && d.autoRestart && s.stopRequestTime.None? && s.startTime.Some? && s.stopTime.Some?
    && (s.lastAutomaticRestart.Some? ==> now - s.lastAutomaticRestart.value >= d.restartWaitPeriod)
  }

  function Tick(d: Definition, s: State, now: nat): (s': State) {
    if Restarts(d, s, now) then StartProcess(s.(lastAutomaticRestart := Some(now))) else s
  }

  class Service {
    const definition: Definition
    var startRequests: bool
    var processCancelFunc: bool
    var processes: nat
    var startTime: Option<nat>
    var stopTime: Option<nat>
    var stopRequestTime: Option<nat>
    var lastAutomaticRestart: Option<nat>

    ghost function Snapshot(): (s: State)
      reads this
    {
      State(startRequests, processCancelFunc, processes, startTime, stopTime, stopRequestTime, lastAutomaticRestart)
    }

    constructor (definition: Definition)
      ensures Snapshot() == INITIAL && this.definition == definition
    {
      this.definition := definition;
      startRequests, processCancelFunc, processes := false, false, 0;
      startTime, stopTime, stopRequestTime, lastAutomaticRestart := None, None, None, None;
    }

    /** Fails if a process is running; a request that is already pending is enough. */
    method Start() returns (ok: bool)
      modifies this
      ensures ok <==> !old(processCancelFunc)
      ensures Snapshot() == StartProcess(old(Snapshot()))
    {
      if processCancelFunc {
        return false;
      }
      if !startRequests {
        startRequests := true;
      }
      return true;
    }

    method Stop(now: nat) returns (ok: bool)
      modifies this
      ensures ok <==> old(processCancelFunc)
      ensures Snapshot() == StopProcess(old(Snapshot()), now)
    {
      if !processCancelFunc {
        return false;
      }
      stopRequestTime := Some(now);
      return true;
    }

    method ReceiveAndStart(now: nat)
      requires startRequests
      modifies this
      ensures Snapshot() == ServeStartRequest(old(Snapshot()), now)
    {
      startRequests := false;
      startTime, stopTime, stopRequestTime := Some(now), None, None;
      processCancelFunc := true;
      processes := processes + 1;
    }

    method ProcessFinished(now: nat)
      requires processes > 0
      modifies this
      ensures Snapshot() == ProcessEnds(old(Snapshot()), now)
    {
      stopTime := Some(now);
      processCancelFunc := false;
      processes := processes - 1;
    }

    method TriggerRestartWhenNeeded(now: nat)
      modifies this
      ensures Snapshot() == Tick(definition, old(Snapshot()), now)
    {
      if !definition.autoRestart || stopRequestTime.Some? || startTime.None? || stopTime.None? {
        return;
      }
      if lastAutomaticRestart.Some? && now - lastAutomaticRestart.value < definition.restartWaitPeriod {
        return;
      }
      lastAutomaticRestart := Some(now);
      var _ := Start();
    }
  }

  // ------------------------------------------------------------------ runs

  datatype Action = CallerStarts | CallerStops | LoopServes | ProcessEndsByItself | LoopTicks

  datatype Step = Step(action: Action, now: nat)

  ghost predicate Next(d: Definition, s: State, step: Step, s': State) {
    match step.action
    case CallerStarts => s' == StartProcess(s)
    case CallerStops => s' == StopProcess(s, step.now)
    case LoopServes => s.pending && s' == ServeStartRequest(s, step.now)
    case ProcessEndsByItself => s.running > 0 && s' == ProcessEnds(s, step.now)
    case LoopTicks => s' == Tick(d, s, step.now)
  }

  /** Time does not run backwards. */
  ghost predicate IsRun(d: Definition, run: seq<State>, steps: seq<Step>) {
    && |run| == |steps| + 1 && run[0] == INITIAL
    && (forall i :: 0 <= i < |steps| ==> StepAt(d, run, steps, i))
    && (forall i, j :: 0 <= i < j < |steps| ==> steps[i].now <= steps[j].now)
  }

  ghost predicate StepAt(d: Definition, run: seq<State>, steps: seq<Step>, i: nat)
    requires i < |steps| && |run| == |steps| + 1
  {
    Next(d, run[i], steps[i], run[i + 1])
  }

  ghost predicate Invariant(s: State) {
    && s.running == (if s.cancel then 1 else 0)
    && (s.pending ==> !s.cancel)
    && (s.cancel ==> s.stopTime.None?)
  }

  /** At most one subprocess runs, and none while a request to start is pending. */
  lemma {:induction false} AtMostOneProcess(d: Definition, run: seq<State>, steps: seq<Step>, i: nat)
    requires IsRun(d, run, steps) && i < |run|
    ensures Invariant(run[i])
    ensures run[i].running <= 1 && (run[i].pending ==> run[i].running == 0)
  {
    if i > 0 {
      AtMostOneProcess(d, run, steps, i - 1);
      assert StepAt(d, run, steps, i - 1);
    }
  }

  /** A stop holds: nothing is pending and restarts are off until the caller starts again. */
  lemma {:induction false} StopHolds(d: Definition, run: seq<State>, steps: seq<Step>, i: nat, j: nat)
    requires IsRun(d, run, steps) && i < j < |run|
    requires steps[i].action.CallerStops? && run[i].cancel
    requires forall k :: i < k < j ==> !steps[k].action.CallerStarts?
    ensures !run[j].pending && run[j].stopRequestTime.Some?
    decreases j
  {
    if j == i + 1 {
      AtMostOneProcess(d, run, steps, i);
      assert StepAt(d, run, steps, i);
    } else {
      StopHolds(d, run, steps, i, j - 1);
      assert StepAt(d, run, steps, j - 1);
    }
  }

  /** After a successful stop no process is started until a later call of the caller asks for one. */
  lemma {:induction false} NoStartAfterStop(d: Definition, run: seq<State>, steps: seq<Step>, i: nat, j: nat)
    requires IsRun(d, run, steps) && i < j < |steps|
    requires steps[i].action.CallerStops? && run[i].cancel
    requires steps[j].action.LoopServes?
    ensures exists k :: i < k < j && steps[k].action.CallerStarts?
  {
    assert StepAt(d, run, steps, j);
    if forall k :: i < k < j ==> !steps[k].action.CallerStarts? {
      StopHolds(d, run, steps, i, j);
    }
  }

  /** A pending request stays until it is served. */
  lemma {:induction false} PendingUntilServed(d: Definition, run: seq<State>, steps: seq<Step>, i: nat, j: nat)
    requires IsRun(d, run, steps) && i <= j < |run| && run[i].pending
    requires forall k :: i <= k < j ==> !steps[k].action.LoopServes?
    ensures run[j].pending
    decreases j
  {
    if i < j {
      PendingUntilServed(d, run, steps, i, j - 1);
      AtMostOneProcess(d, run, steps, j - 1);
      assert StepAt(d, run, steps, j - 1);
    }
  }

  /** In every run, after a stop or not, a call of the caller that finds no process leaves a start
      pending until it is served, and serving it starts the process. */
  lemma {:induction false} StartIsHonoured(d: Definition, run: seq<State>, steps: seq<Step>, i: nat, j: nat)
    requires IsRun(d, run, steps) && i < j < |run|
    requires steps[i].action.CallerStarts? && run[i].running == 0
    requires forall k :: i < k < j ==> !steps[k].action.LoopServes?
    ensures run[j].pending
    ensures j < |steps| && steps[j].action.LoopServes? ==> run[j + 1].running == 1 && !run[j + 1].pending
  {
    AtMostOneProcess(d, run, steps, i);
    assert StepAt(d, run, steps, i);
    PendingUntilServed(d, run, steps, i + 1, j);
    AtMostOneProcess(d, run, steps, j);
    if j < |steps| { assert StepAt(d, run, steps, j); }
  }

  /** The tick of step `i` triggers an automatic restart. */
  ghost predicate RestartsAt(d: Definition, run: seq<State>, steps: seq<Step>, i: nat)
    requires i < |steps| && |run| == |steps| + 1
  {
    steps[i].action.LoopTicks? && Restarts(d, run[i], steps[i].now)
  }

  lemma {:induction false} LastRestartRemembered(d: Definition, run: seq<State>, steps: seq<Step>, i: nat, j: nat)
    requires IsRun(d, run, steps) && i < j < |run| && RestartsAt(d, run, steps, i)
    ensures run[j].lastAutomaticRestart.Some? && run[j].lastAutomaticRestart.value >= steps[i].now
    decreases j
  {
    assert StepAt(d, run, steps, j - 1);
    if j > i + 1 { LastRestartRemembered(d, run, steps, i, j - 1); }
  }

  /** Any two automatic restarts are at least the wait period apart. */
  lemma {:induction false} RestartsAreApart(d: Definition, run: seq<State>, steps: seq<Step>, i: nat, j: nat)
    requires IsRun(d, run, steps) && i < j < |steps|
    requires RestartsAt(d, run, steps, i) && RestartsAt(d, run, steps, j)
    ensures steps[j].now - steps[i].now >= d.restartWaitPeriod
  {
    LastRestartRemembered(d, run, steps, i, j);
  }

  /** The process that step `a` started has ended by itself since, and nobody asked to stop it. */
  ghost predicate EndedByItself(run: seq<State>, steps: seq<Step>, a: nat, b: nat, c: nat)
    requires |run| == |steps| + 1
  {
    && a < b < c < |steps| && steps[a].action.LoopServes? && steps[b].action.ProcessEndsByItself?
    && forall k :: a < k < c ==> !steps[k].action.LoopServes? && !steps[k].action.CallerStops?
  }

  lemma {:induction false} EndIsRecorded(d: Definition, run: seq<State>, steps: seq<Step>,
                                         a: nat, b: nat, c: nat, k: nat)
    requires IsRun(d, run, steps) && EndedByItself(run, steps, a, b, c) && a < k <= c
    ensures run[k].stopRequestTime.None? && run[k].startTime.Some? && (k > b ==> run[k].stopTime.Some?)
    decreases k
  {
    assert StepAt(d, run, steps, k - 1);
    if k > a + 1 { EndIsRecorded(d, run, steps, a, b, c, k - 1); }
  }

  lemma {:induction false} LastRestartWas(d: Definition, run: seq<State>, steps: seq<Step>, i: nat)
    requires IsRun(d, run, steps) && i < |run| && run[i].lastAutomaticRestart.Some?
    ensures exists k :: 0 <= k < i && RestartsAt(d, run, steps, k) && steps[k].now == run[i].lastAutomaticRestart.value
  {
    assert StepAt(d, run, steps, i - 1);
    if run[i - 1].lastAutomaticRestart == run[i].lastAutomaticRestart && !RestartsAt(d, run, steps, i - 1) {
      LastRestartWas(d, run, steps, i - 1);
    }
  }

  /** In every run a process that ended by itself is restarted by the first tick that is a wait period
      after all earlier restarts. */
  lemma {:induction false} EndedProcessIsRestarted(d: Definition, run: seq<State>, steps: seq<Step>,
                                                   a: nat, b: nat, c: nat)
    requires IsRun(d, run, steps) && d.autoRestart && EndedByItself(run, steps, a, b, c) && steps[c].action.LoopTicks?
    requires forall k :: 0 <= k < c && RestartsAt(d, run, steps, k) ==>
      steps[c].now - steps[k].now >= d.restartWaitPeriod
    ensures RestartsAt(d, run, steps, c) && run[c + 1].pending
  {
    EndIsRecorded(d, run, steps, a, b, c, c);
    if run[c].lastAutomaticRestart.Some? { LastRestartWas(d, run, steps, c); }
    RestartIsRequested(d, run, steps, c);
  }

  // ----------------------------------------------------- automatic starts

  /** The request pending after step `i` is the one step `a` serves. */
  ghost predicate Serves(run: seq<State>, steps: seq<Step>, i: nat, a: nat)
    requires |run| == |steps| + 1
  {
    && i < a < |steps| && steps[a].action.LoopServes?
    && forall k :: i < k <= a ==> run[k].pending
  }

  /** Step `a` starts a process because of the restart decided at step `i`. */
  ghost predicate ServesRestart(d: Definition, run: seq<State>, steps: seq<Step>, i: nat, a: nat)
    requires |run| == |steps| + 1
  {
    Serves(run, steps, i, a) && RestartsAt(d, run, steps, i)
  }

  /** No request waits longer than `delay` units from the step that made it. */
  ghost predicate ServedWithin(run: seq<State>, steps: seq<Step>, delay: nat)
    requires |run| == |steps| + 1
  {
    forall k, a :: 0 <= k < a && Serves(run, steps, k, a) && !run[k].pending ==> steps[a].now - steps[k].now <= delay
  }

  /** A decided restart is always requested: from then on a start is pending until it is served. */
  lemma {:induction false} RestartIsRequested(d: Definition, run: seq<State>, steps: seq<Step>, i: nat)
    requires IsRun(d, run, steps) && i < |steps| && RestartsAt(d, run, steps, i)
    ensures run[i + 1].pending
  {
    AtMostOneProcess(d, run, steps, i);
    assert StepAt(d, run, steps, i);
  }

  /** The step that made the request pending after step `i`. */
  lemma {:induction false} RequestMade(d: Definition, run: seq<State>, steps: seq<Step>, i: nat) returns (k: nat)
    requires IsRun(d, run, steps) && i < |steps| && run[i + 1].pending
    ensures k <= i && !run[k].pending && forall m :: k < m <= i + 1 ==> run[m].pending
  {
    if run[i].pending {
      k := RequestMade(d, run, steps, i - 1);
    } else {
      k := i;
    }
  }

  /** In every run the start that serves one automatic restart follows the start that served an
      earlier one by the wait period, less what the earlier one had to wait itself. */
  lemma {:induction false} StartsAreApart(d: Definition, run: seq<State>, steps: seq<Step>, i: nat, a: nat, j: nat,
                                          b: nat)
    requires IsRun(d, run, steps) && i < j
    requires ServesRestart(d, run, steps, i, a) && ServesRestart(d, run, steps, j, b)
    ensures steps[b].now - steps[a].now >= d.restartWaitPeriod - (steps[a].now - steps[i].now)
  {
    RestartsAreApart(d, run, steps, i, j);
  }

  lemma {:induction false} RestartServedWithin(d: Definition, run: seq<State>, steps: seq<Step>, delay: nat, i: nat,
                                               a: nat)
    requires IsRun(d, run, steps) && ServedWithin(run, steps, delay) && ServesRestart(d, run, steps, i, a)
    ensures steps[a].now - steps[i].now <= delay
  {
    var k := RequestMade(d, run, steps, i);
    assert Serves(run, steps, k, a);
    if k < i { assert steps[k].now <= steps[i].now; }
  }

  /** In every run with requests served within `delay`, two automatic starts are at least `gap` apart. */
  ghost predicate AlwaysApart(d: Definition, delay: nat, gap: int) {
    forall run: seq<State>, steps: seq<Step>, i: nat, a: nat, j: nat, b: nat ::
      ApartCase(d, delay, run, steps, i, a, j, b) ==> steps[b].now - steps[a].now >= gap
  }

  ghost predicate ApartCase(d: Definition, delay: nat, run: seq<State>, steps: seq<Step>, i: nat, a: nat, j: nat,
                            b: nat)
  {
    && IsRun(d, run, steps) && ServedWithin(run, steps, delay) && i < j && a < b
    && ServesRestart(d, run, steps, i, a) && ServesRestart(d, run, steps, j, b)
  }

  function Least(x: nat, y: nat): (r: nat) {
    if x < y then x else y
  }

  /** Automatic starts are `gap` apart in all runs exactly up to the wait period less the delay: no
      larger gap can be promised. */
  lemma {:induction false} GapExactly(d: Definition, delay: nat, gap: int)
    requires d.autoRestart
    ensures AlwaysApart(d, delay, gap) <==> gap <= d.restartWaitPeriod - Least(delay, d.restartWaitPeriod)
  {
    if gap <= d.restartWaitPeriod - Least(delay, d.restartWaitPeriod) {
      forall run: seq<State>, steps: seq<Step>, i: nat, a: nat, j: nat, b: nat
        | ApartCase(d, delay, run, steps, i, a, j, b)
        ensures steps[b].now - steps[a].now >= gap
      {
        StartsAreApart(d, run, steps, i, a, j, b);
        RestartServedWithin(d, run, steps, delay, i, a);
        assert steps[a].now <= steps[b].now;
      }
    } else {
      var run, steps := CloseStarts(d, delay);
      assert ApartCase(d, delay, run, steps, 3, 4, 6, 7);
    }
  }

  /** So they are the whole wait period apart if and only if there is no delay or no wait period. */
  lemma {:induction false} WaitPeriodSeparatesStarts(d: Definition, delay: nat)
    ensures AlwaysApart(d, delay, d.restartWaitPeriod) <==> !d.autoRestart || delay == 0 || d.restartWaitPeriod == 0
  {
    if d.autoRestart {
      GapExactly(d, delay, d.restartWaitPeriod);
    }
  }

  function CloseSteps(wait: nat, served: nat): (steps: seq<Step>) {
    [Step(CallerStarts, 0), Step(LoopServes, 0), Step(ProcessEndsByItself, 1), Step(LoopTicks, 1),
     Step(LoopServes, 1 + served), Step(ProcessEndsByItself, 1 + served), Step(LoopTicks, 1 + wait),
     Step(LoopServes, 1 + wait)]
  }

  /** For every delay, a run that keeps to it and has two automatic starts no further apart. */
  lemma {:induction false} CloseStarts(d: Definition, delay: nat) returns (run: seq<State>, steps: seq<Step>)
    requires d.autoRestart
    ensures ApartCase(d, delay, run, steps, 3, 4, 6, 7)
    ensures steps[7].now - steps[4].now == d.restartWaitPeriod - Least(delay, d.restartWaitPeriod)
  {
    var wait := d.restartWaitPeriod;
    var served := Least(delay, wait);
    steps := CloseSteps(wait, served);
    var s1 := StartProcess(INITIAL);
    var s2 := ServeStartRequest(s1, 0);
    var s3 := ProcessEnds(s2, 1);
    var s4 := Tick(d, s3, 1);
    var s5 := ServeStartRequest(s4, 1 + served);
    var s6 := ProcessEnds(s5, 1 + served);
    var s7 := Tick(d, s6, 1 + wait);
    run := [INITIAL, s1, s2, s3, s4, s5, s6, s7, ServeStartRequest(s7, 1 + wait)];
    assert StepAt(d, run, steps, 0) && StepAt(d, run, steps, 1) && StepAt(d, run, steps, 2) && StepAt(d, run, steps, 3);
    assert StepAt(d, run, steps, 4) && StepAt(d, run, steps, 5) && StepAt(d, run, steps, 6) && StepAt(d, run, steps, 7);
    ServedInTime(run, steps, wait, served, delay);
  }

  lemma {:induction false} ServedInTime(run: seq<State>, steps: seq<Step>, wait: nat, served: nat, delay: nat)
    requires steps == CloseSteps(wait, served) && served <= delay && |run| == 9
    requires !run[2].pending && !run[3].pending && !run[5].pending && !run[6].pending
    ensures ServedWithin(run, steps, delay)
  {
    forall k, a | 0 <= k < a && Serves(run, steps, k, a) && !run[k].pending
      ensures steps[a].now - steps[k].now <= delay
    {
      assert a in {1, 4, 7};
    }
  }
}
