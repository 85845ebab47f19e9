/** Latest-wins requests: a newer request aborts the older one, and only the newest is current. */
module LatestRequest {
  import opened Common

  // How a started fetch ends: its JSON arrived in an ok reply, its signal was aborted, or it failed.
  datatype Outcome = Fetched | Aborted | Failed

  // The request state shared by callers: the newest serial, the controller in force (named by
  // the serial that made it), and the unsettled requests, each with its signal.
  datatype Core = Core(serial: nat, controller: Option<nat>, inflight: map<nat, bool>)

  // The signals once the controller in force has aborted.
  function Signalled(s: Core): map<nat, bool> {
    if s.controller.Some? && s.controller.value in s.inflight
    then s.inflight[s.controller.value := true]
    else s.inflight
  }

  function StartCore(s: Core): Core {
    Core(s.serial + 1, Some(s.serial + 1), Signalled(s)[s.serial + 1 := false])
  }

  // A settled request clears the controller only while it is its own.
  function SettleCore(s: Core, k: nat): Core {
    Core(s.serial, if s.controller == Some(k) then None else s.controller, s.inflight - {k})
  }

  // --- the implementation ------------------------------------------------------------------------

  class AbortController {
    var aborted: bool

    constructor ()
      ensures !aborted
    {
      aborted := false;
    }

    method Abort()
      modifies this
      ensures aborted
    {
      aborted := true;
    }
  }

  class RequestState {
    var serial: nat
    var controller: AbortController?
    // The controllers held by the unsettled calls, by serial, and whose controller is in force.
    ghost var held: map<nat, AbortController>
    ghost var owner: Option<nat>

    ghost predicate Valid()
      reads this
    {
      && (controller == null <==> owner.None?)
      && (owner.Some? ==> owner.value in held && held[owner.value] == controller)
      && (forall k :: k in held ==> k <= serial)
      && (forall j, k :: j in held && k in held && held[j] == held[k] ==> j == k)
    }

    ghost function View(): Core
      reads this, held.Values
    {
      Core(serial, owner, map k | k in held :: held[k].aborted)
    }

    constructor ()
      ensures Valid() && View() == Core(0, None, map[])
    {
      serial, controller, held, owner := 0, null, map[], None;
    }

    method AbortCurrent()
      requires Valid()
      modifies controller
      ensures Valid() && View() == old(View()).(inflight := Signalled(old(View())))
    {
      if controller != null {
        controller.Abort();
      }
    }

    // The next serial goes to a call with a controller of its own.
    method TakeOver(signal: AbortController) returns (mine: nat)
      requires Valid() && signal !in held.Values && !signal.aborted
      modifies this
      ensures Valid() && mine == serial == old(serial) + 1 && held == old(held)[mine := signal]
      ensures View() == Core(mine, Some(mine), old(View()).inflight[mine := false])
    {
      serial := serial + 1;
      mine := serial;
      controller := signal;
      held, owner := held[mine := signal], Some(mine);
    }

    // fetchJsonLatest up to its first await.
    method Start() returns (mine: nat, signal: AbortController)
      requires Valid()
      modifies this, controller
      ensures Valid() && View() == StartCore(old(View()))
      ensures mine == serial && fresh(signal) && held == old(held)[mine := signal]
    {
      hide Signalled;
      AbortCurrent();
      signal := new AbortController();
      mine := TakeOver(signal);
    }

    // fetchJsonLatest after the response: whether it is the latest, then its `finally`.
    method Settle(mine: nat, signal: AbortController) returns (isLatest: bool)
      requires Valid() && mine in held && held[mine] == signal
      modifies this
      ensures Valid() && View() == SettleCore(old(View()), mine)
      ensures isLatest == (old(serial) == mine) && held == old(held) - {mine}
    {
      isLatest := serial == mine;
      if controller == signal {
        controller, owner := null, None;
      }
      held := held - {mine};
    }
  }

  // --- the report panel, a caller with a serial of its own ----------------------------------------

  // What loadReportsTerminalEntry keeps across its fetch.
  datatype Call = Call(load: nat, serial: nat, signal: AbortController)

  class ReportPanel {
    const requests: RequestState
    var loadSerial: nat

    constructor (requests: RequestState)
      ensures this.requests == requests && loadSerial == 0
    {
      this.requests, loadSerial := requests, 0;
    }

    // loadReportsTerminalEntry up to its first await.
    method LoadEntry(id: string, transactionsView: bool) returns (call: Option<Call>)
      requires requests.Valid()
      modifies this, requests, requests.controller
      ensures requests.Valid()
      ensures id == "" || !transactionsView ==>
                call == None && loadSerial == old(loadSerial) && requests.View() == old(requests.View())
      ensures id != "" && transactionsView ==>
                && call.Some? && call.value.load == loadSerial == old(loadSerial) + 1
                && call.value.serial == requests.serial && requests.View() == StartCore(old(requests.View()))
                && fresh(call.value.signal)
                && requests.held == old(requests.held)[call.value.serial := call.value.signal]
    {
      if id == "" || !transactionsView {
        return None;
      }
      loadSerial := loadSerial + 1;
      var load := loadSerial;
      var serial, signal := requests.Start();
      call := Some(Call(load, serial, signal));
    }

    // The rest of it, up to where the report is shown: both tests of the load serial, with the
    // tests of the result between and after them.
    method AfterFetch(load: nat, result: Delivery) returns (shows: bool)
      ensures shows == (load == loadSerial && !result.aborted && result.isLatest)
    {
      if load != loadSerial {
        return false;
      }
      if result.aborted {
        return false;
      }
      if load != loadSerial {
        return false;
      }
      return result.isLatest;
    }
  }

  // --- the protocol ------------------------------------------------------------------------------

  // A caller that only looks at the result, or one that also keeps a serial per load.
  datatype Caller = Plain | OwnSerial

  // What a settled call hands its caller, who resumes later, in the order of settling.
  datatype Delivery = Delivery(serial: nat, aborted: bool, isLatest: bool)

  // The core, the caller's counter and the value of it each call took, the results on their way
  // to the caller, the serials applied so far, and (history) which requests were fetched.
  datatype State = State(core: Core, loadSerial: nat, loads: map<nat, nat>, queue: seq<Delivery>,
                         applied: seq<nat>, fetched: set<nat>)

  datatype Event = Start | Settle(serial: nat, outcome: Outcome) | Resume

  predicate Enabled(s: State, e: Event) {
    match e
    case Start => true
    case Settle(k, outcome) => k in s.core.inflight && (outcome.Aborted? ==> s.core.inflight[k])
    case Resume => s.queue != []
  }

  function Started(caller: Caller, s: State): State {
    var load := if caller.OwnSerial? then s.loadSerial + 1 else s.loadSerial;
    s.(core := StartCore(s.core), loadSerial := load, loads := s.loads[s.core.serial + 1 := load])
  }

  function Settled(s: State, k: nat, outcome: Outcome): State {
    var settled := s.(core := SettleCore(s.core, k));
    match outcome
    case Fetched =>
      settled.(queue := s.queue + [Delivery(k, false, s.core.serial == k)], fetched := s.fetched + {k})
    case Aborted => settled.(queue := s.queue + [Delivery(k, true, false)])
    case Failed => settled
  }

  // Whether the caller of this load still has the newest one.
  predicate LoadCurrent(caller: Caller, s: State, d: Delivery) {
    caller.OwnSerial? ==> d.serial in s.loads && s.loads[d.serial] == s.loadSerial
  }

  function Resumed(caller: Caller, s: State): State
    requires s.queue != []
  {
    var d := s.queue[0];
    var apply := LoadCurrent(caller, s, d) && !d.aborted && d.isLatest;
    s.(queue := s.queue[1..], applied := if apply then s.applied + [d.serial] else s.applied)
  }

  function Step(caller: Caller, s: State, e: Event): State {
    if !Enabled(s, e) then s
    else
      match e
      case Start => Started(caller, s)
      case Settle(k, outcome) => Settled(s, k, outcome)
      case Resume => Resumed(caller, s)
  }

  function RunFrom(caller: Caller, s: State, run: seq<Event>): State
    decreases |run|
  {
    if run == [] then s else RunFrom(caller, Step(caller, s, run[0]), run[1..])
  }

  const INITIAL := State(Core(0, None, map[]), 0, map[], [], [], {})

  // --- what every run keeps ------------------------------------------------------------------------

  // The controller belongs to the newest request, and exactly the older ones are aborted.
  ghost predicate CoreInvariant(c: Core) {
    && (c.controller == if c.serial in c.inflight then Some(c.serial) else None)
    && (forall k :: k in c.inflight ==> 1 <= k <= c.serial && (c.inflight[k] <==> k < c.serial))
  }

  predicate Increasing(s: seq<nat>) {
    forall i, j | 0 <= i < j < |s| :: s[i] < s[j]
  }

  // Serials no longer in flight.
  predicate Done(c: Core, k: nat) {
    1 <= k <= c.serial && k !in c.inflight
  }

  predicate QueueOrdered(queue: seq<Delivery>) {
    forall i, j | 0 <= i < j < |queue| ::
      queue[i].isLatest && queue[j].isLatest ==> queue[i].serial < queue[j].serial
  }

  predicate AppliedBefore(applied: seq<nat>, queue: seq<Delivery>) {
    forall i, j | 0 <= i < |applied| && 0 <= j < |queue| :: queue[j].isLatest ==> applied[i] < queue[j].serial
  }

  predicate AllDone(s: State) {
    && (forall i | 0 <= i < |s.queue| :: Done(s.core, s.queue[i].serial))
    && (forall i | 0 <= i < |s.applied| :: Done(s.core, s.applied[i]))
    && (forall k | k in s.fetched :: Done(s.core, k))
  }

  // A fetched newest request is on its way to its caller, or already applied.
  predicate NewestKept(s: State) {
    s.core.serial in s.fetched ==>
      Delivery(s.core.serial, false, true) in s.queue || s.core.serial in s.applied
  }

  // The caller's serial and the request serial, taken in one step, stay in step.
  ghost predicate InStep(caller: Caller, s: State) {
    caller.OwnSerial? ==>
      && s.loadSerial == s.core.serial
      && (forall k :: k in s.loads <==> 1 <= k <= s.core.serial)
      && (forall k | k in s.loads :: s.loads[k] == k)
  }

  // A delivery of the newest request was neither aborted nor superseded when it settled.
  predicate NewestClean(s: State) {
    forall i | 0 <= i < |s.queue| && s.queue[i].serial == s.core.serial ::
      s.queue[i] == Delivery(s.core.serial, false, true)
  }

  ghost predicate Invariant(caller: Caller, s: State) {
    CoreInvariant(s.core) && Increasing(s.applied) && QueueOrdered(s.queue) && AppliedBefore(s.applied, s.queue)
    && AllDone(s) && NewestKept(s) && InStep(caller, s) && NewestClean(s)
  }

  lemma StartInvariant(caller: Caller, s: State)
    requires Invariant(caller, s)
    ensures Invariant(caller, Started(caller, s))
  {
    var t := Started(caller, s);
    forall k | Done(s.core, k) ensures Done(t.core, k) {
    }
  }

  lemma SettleInvariant(caller: Caller, s: State, k: nat, outcome: Outcome)
    requires Invariant(caller, s) && Enabled(s, Settle(k, outcome))
    ensures Invariant(caller, Settled(s, k, outcome))
  {
    hide Settled, CoreInvariant, QueueOrdered, AppliedBefore, AllDone, NewestKept, NewestClean;
    SettledCore(s, k, outcome);
    SettledQueue(s, k, outcome);
    SettledDone(s, k, outcome);
    SettledFrame(s, k, outcome);
  }

  lemma SettledFrame(s: State, k: nat, outcome: Outcome)
    ensures var t := Settled(s, k, outcome);
            && t.core.serial == s.core.serial && t.loadSerial == s.loadSerial && t.loads == s.loads
            && t.applied == s.applied
  {
  }

  lemma SettledCore(s: State, k: nat, outcome: Outcome)
    requires CoreInvariant(s.core) && k in s.core.inflight
    ensures CoreInvariant(Settled(s, k, outcome).core)
  {
  }

  lemma SettledQueue(s: State, k: nat, outcome: Outcome)
    requires CoreInvariant(s.core) && Enabled(s, Settle(k, outcome))
    requires QueueOrdered(s.queue) && AppliedBefore(s.applied, s.queue) && AllDone(s) && NewestClean(s)
    ensures var t := Settled(s, k, outcome);
            QueueOrdered(t.queue) && AppliedBefore(t.applied, t.queue) && NewestClean(t)
  {
    var t := Settled(s, k, outcome);
    assert forall j | Done(s.core, j) :: j != k;
    if !outcome.Failed? {
      var d := t.queue[|s.queue|];
      assert t.queue == s.queue + [d] && d.serial == k;
    }
  }

  lemma SettledDone(s: State, k: nat, outcome: Outcome)
    requires CoreInvariant(s.core) && k in s.core.inflight && AllDone(s) && NewestKept(s)
    ensures AllDone(Settled(s, k, outcome)) && NewestKept(Settled(s, k, outcome))
  {
    var t := Settled(s, k, outcome);
    assert forall j | Done(s.core, j) :: Done(t.core, j);
    assert Done(t.core, k);
    assert forall x | x in s.queue :: x in t.queue;
    if outcome.Fetched? {
      assert t.queue[|s.queue|] == Delivery(k, false, s.core.serial == k);
    }
  }

  lemma ResumeInvariant(caller: Caller, s: State)
    requires Invariant(caller, s) && s.queue != []
    ensures Invariant(caller, Resumed(caller, s))
  {
    var t := Resumed(caller, s);
    var d := s.queue[0];
    assert s.queue == [d] + t.queue;
    assert forall i | 0 <= i < |t.queue| :: t.queue[i] == s.queue[i + 1];
    if LoadCurrent(caller, s, d) && !d.aborted && d.isLatest {
      assert t.applied[|s.applied|] == d.serial;
      assert forall k | k in s.applied :: k in t.applied;
    }
  }

  lemma StepInvariant(caller: Caller, s: State, e: Event)
    requires Invariant(caller, s)
    ensures Invariant(caller, Step(caller, s, e))
  {
    hide Invariant, Started, Settled, Resumed;
    if Enabled(s, e) {
      match e
      case Start => StartInvariant(caller, s);
      case Settle(k, outcome) => SettleInvariant(caller, s, k, outcome);
      case Resume => ResumeInvariant(caller, s);
    }
  }

  lemma {:induction false} RunInvariant(caller: Caller, s: State, run: seq<Event>)
    requires Invariant(caller, s)
    ensures Invariant(caller, RunFrom(caller, s, run))
    decreases |run|
  {
    hide Step, Invariant;
    if run != [] {
      StepInvariant(caller, s, run[0]);
      RunInvariant(caller, Step(caller, s, run[0]), run[1..]);
    }
  }

  lemma ReachableInvariant(caller: Caller, run: seq<Event>)
    ensures Invariant(caller, RunFrom(caller, INITIAL, run))
  {
    hide RunFrom;
    RunInvariant(caller, INITIAL, run);
  }

  // --- main results --------------------------------------------------------------------------------

  // Over every interleaving of starts, settles and callers resuming: the controller is null or
  // the newest request's; every older unsettled request is aborted and the newest is not; and
  // results are applied in strictly increasing serial order, whatever the caller.
  lemma LatestWins(caller: Caller, run: seq<Event>)
    ensures var s := RunFrom(caller, INITIAL, run);
            && (s.core.controller.Some? ==> s.core.controller.value == s.core.serial)
            && (forall k :: k in s.core.inflight ==> (s.core.inflight[k] <==> k < s.core.serial))
            && (forall i, j | 0 <= i < j < |s.applied| :: s.applied[i] < s.applied[j])
  {
    hide RunFrom;
    ReachableInvariant(caller, run);
  }

  // When nothing is in flight and every result has reached its caller, the newest request was
  // applied last if it was fetched at all: nothing current is lost.
  lemma NewestIsKept(caller: Caller, run: seq<Event>)
    ensures var s := RunFrom(caller, INITIAL, run);
            s.queue == [] && s.core.serial in s.fetched ==>
              s.applied != [] && s.applied[|s.applied| - 1] == s.core.serial
  {
    hide RunFrom;
    ReachableInvariant(caller, run);
    var s := RunFrom(caller, INITIAL, run);
    if s.queue == [] && s.core.serial in s.fetched {
      var i :| 0 <= i < |s.applied| && s.applied[i] == s.core.serial;
      assert Done(s.core, s.applied[|s.applied| - 1]);
    }
  }

  // The report panel's serial always equals the request serial. So its own test lets a result
  // through exactly when it is the newest request's, and then the result is neither aborted
  // nor superseded: the two tests of the result never decide anything.
  lemma SerialsInStep(run: seq<Event>)
    ensures var s := RunFrom(OwnSerial, INITIAL, run);
            && s.loadSerial == s.core.serial
            && forall i | 0 <= i < |s.queue| ::
                 && (LoadCurrent(OwnSerial, s, s.queue[i]) <==> s.queue[i].serial == s.core.serial)
                 && (LoadCurrent(OwnSerial, s, s.queue[i]) ==> !s.queue[i].aborted && s.queue[i].isLatest)
  {
    hide RunFrom;
    ReachableInvariant(OwnSerial, run);
    var s := RunFrom(OwnSerial, INITIAL, run);
    forall i | 0 <= i < |s.queue|
      ensures LoadCurrent(OwnSerial, s, s.queue[i]) <==> s.queue[i].serial == s.core.serial
    {
      assert Done(s.core, s.queue[i].serial);
    }
  }

  // --- superseded results --------------------------------------------------------------------------

  // Every resumed caller has run before the next request starts or settles, as when callers
  // continue in microtasks and everything else is a task.
  predicate CallersFirst(caller: Caller, s: State, run: seq<Event>)
    decreases |run|
  {
    run != [] ==>
      (run[0].Resume? || s.queue == []) && CallersFirst(caller, Step(caller, s, run[0]), run[1..])
  }

  // The next caller to resume applies nothing, or the newest request.
  predicate AppliesNewest(caller: Caller, s: State) {
    Step(caller, s, Resume).applied == s.applied || Step(caller, s, Resume).applied == s.applied + [s.core.serial]
  }

  ghost predicate NeverSuperseded(caller: Caller, callersFirst: bool) {
    forall run: seq<Event> | callersFirst ==> CallersFirst(caller, INITIAL, run) ::
      AppliesNewest(caller, RunFrom(caller, INITIAL, run))
  }

  predicate QueueNewest(s: State) {
    |s.queue| <= 1 && (s.queue != [] && s.queue[0].isLatest ==> s.queue[0].serial == s.core.serial)
  }

  lemma {:induction false} CallersFirstNewest(caller: Caller, s: State, run: seq<Event>)
    requires QueueNewest(s) && CallersFirst(caller, s, run)
    ensures QueueNewest(RunFrom(caller, s, run))
    decreases |run|
  {
    if run != [] {
      CallersFirstNewest(caller, Step(caller, s, run[0]), run[1..]);
    }
  }

  // A request started between the settling of an older one and its caller.
  const OVERTAKEN := [Start, Settle(1, Fetched), Start]

  lemma OvertakenRun()
    ensures var s := RunFrom(Plain, INITIAL, OVERTAKEN);
            s.queue == [Delivery(1, false, true)] && s.core.serial == 2 && s.applied == []
  {
    hide Step;
    var s1 := Step(Plain, INITIAL, Start);
    var s2 := Step(Plain, s1, Settle(1, Fetched));
    assert OVERTAKEN[1..] == [Settle(1, Fetched), Start] && [Settle(1, Fetched), Start][1..] == [Start];
    assert RunFrom(Plain, s2, [Start]) == Step(Plain, s2, Start);
    OvertakenSteps();
  }

  lemma OvertakenSteps()
    ensures var s := Step(Plain, Step(Plain, Step(Plain, INITIAL, Start), Settle(1, Fetched)), Start);
            s.queue == [Delivery(1, false, true)] && s.core.serial == 2 && s.applied == []
  {
    var s1 := Step(Plain, INITIAL, Start);
    assert s1.core.inflight == map[1 := false];
    var s2 := Step(Plain, s1, Settle(1, Fetched));
    assert s2.queue == [Delivery(1, false, true)];
  }

  // No caller ever applies a superseded result exactly when it keeps a serial of its own, or
  // callers always run before anything else starts.
  lemma NeverSupersededExactly(caller: Caller, callersFirst: bool)
    ensures NeverSuperseded(caller, callersFirst) <==> caller.OwnSerial? || callersFirst
  {
    hide RunFrom, Step, CallersFirst;
    if caller.OwnSerial? || callersFirst {
      forall run: seq<Event> | callersFirst ==> CallersFirst(caller, INITIAL, run)
        ensures AppliesNewest(caller, RunFrom(caller, INITIAL, run))
      {
        if caller.OwnSerial? {
          OwnSerialNewest(run);
        } else {
          CallersFirstNewest(caller, INITIAL, run);
          NewestApplied(caller, RunFrom(caller, INITIAL, run));
        }
      }
    } else {
      OvertakenRun();
      OvertakenApplies(RunFrom(Plain, INITIAL, OVERTAKEN));
    }
  }

  lemma OwnSerialNewest(run: seq<Event>)
    ensures AppliesNewest(OwnSerial, RunFrom(OwnSerial, INITIAL, run))
  {
    hide RunFrom, LoadCurrent;
    SerialsInStep(run);
  }

  lemma NewestApplied(caller: Caller, s: State)
    requires QueueNewest(s)
    ensures AppliesNewest(caller, s)
  {
  }

  lemma OvertakenApplies(s: State)
    requires s.queue == [Delivery(1, false, true)] && s.core.serial == 2 && s.applied == []
    ensures !AppliesNewest(Plain, s)
  {
    assert Step(Plain, s, Resume).applied == [1] && [1][0] != [s.core.serial][0];
  }

  // A settled request leaves the protocol: what it fetched, or that it was aborted, goes to its
  // caller after all earlier results, marked latest exactly when no newer request has started.
  lemma SettleLaw(caller: Caller, s: State, k: nat, outcome: Outcome)
    requires Enabled(s, Settle(k, outcome))
    ensures var t := Step(caller, s, Settle(k, outcome));
            && t.core.serial == s.core.serial && t.core.inflight == s.core.inflight - {k}
            && t.core.controller == (if s.core.controller == Some(k) then None else s.core.controller)
            && t.queue == s.queue + (if outcome.Failed? then []
                                     else if outcome.Aborted? then [Delivery(k, true, false)]
                                     else [Delivery(k, false, k == s.core.serial)])
            && t.fetched == s.fetched + (if outcome.Fetched? then {k} else {})
            && t == s.(core := t.core, queue := t.queue, fetched := t.fetched)
  {
  }

  // A start takes the next serial, signals the controller in force and no other request, and
  // its own is not signalled.
  lemma StartLaw(caller: Caller, run: seq<Event>)
    ensures var s := RunFrom(caller, INITIAL, run);
            var t := Step(caller, s, Start);
            && t.core.serial == s.core.serial + 1 && t.core.controller == Some(s.core.serial + 1)
            && t.core.inflight.Keys == s.core.inflight.Keys + {s.core.serial + 1}
            && (forall k | k in s.core.inflight :: t.core.inflight[k]) && !t.core.inflight[s.core.serial + 1]
            && t.queue == s.queue && t.applied == s.applied && t.fetched == s.fetched
  {
    hide RunFrom;
    ReachableInvariant(caller, run);
  }
}
