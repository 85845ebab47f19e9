/** Telling the server whether the launch page is in use: two browser timers and a log of messages. */
module WarmPresence {
  import opened Common

  const IDLE_MS: int := 600000
  const HEARTBEAT_MS: int := 60000

  // A pending browser timer: the one-shot idle timer, or the repeating heartbeat.
  datatype Timer = Idle(due: int) | Heartbeat(due: int)

  // A message to the server and when it was sent.
  datatype Message = Message(active: bool, reason: string, at: int)

  // The page's four fields, the browser's clock and timers, and history: the messages sent and
  // the time of the last activity.
  datatype State = State(
    active: bool, idleTimer: Option<nat>, heartbeatTimer: Option<nat>, lastReason: string,
    clock: int, nextId: nat, timers: map<nat, Timer>, sent: seq<Message>, lastMark: int)

  const INITIAL := State(false, None, None, "", 0, 0, map[], [], 0)

  datatype Event = Tick(ms: nat) | Mark(reason: string) | Close(reason: string) | Fire(id: nat)

  function Sent(s: State, active: bool, reason: string): State {
    s.(sent := s.sent + [Message(active, reason, s.clock)])
  }

  // clearWarmPresenceIdleTimer
  function IdleCleared(s: State): State {
    if s.idleTimer == None then s else s.(timers := s.timers - {s.idleTimer.value}, idleTimer := None)
  }

  // clearWarmPresenceHeartbeat
  function HeartbeatCleared(s: State): State {
    if s.heartbeatTimer == None then s else s.(timers := s.timers - {s.heartbeatTimer.value}, heartbeatTimer := None)
  }

  // ensureWarmPresenceHeartbeat
  function HeartbeatSet(s: State): State {
    if s.heartbeatTimer.Some? then s
    else s.(heartbeatTimer := Some(s.nextId), nextId := s.nextId + 1,
            timers := s.timers[s.nextId := Heartbeat(s.clock + HEARTBEAT_MS)])
  }

  function IdleSet(s: State): State {
    s.(idleTimer := Some(s.nextId), nextId := s.nextId + 1, timers := s.timers[s.nextId := Idle(s.clock + IDLE_MS)])
  }

  // markLaunchdeckWarmPresence
  function Marked(s: State, reason: string): State {
    var t := IdleCleared(s.(lastReason := reason, lastMark := s.clock));
    IdleSet(HeartbeatSet(if t.active then t else Sent(t.(active := true), true, reason)))
  }

  // setLaunchdeckWarmInactive
  function Closed(s: State, reason: string): State {
    var t := IdleCleared(s);
    if !t.active then t else Sent(HeartbeatCleared(t.(active := false, lastReason := reason)), false, reason)
  }

  // A due timer fires. An interval is due again one period after it fired.
  function Fired(s: State, id: nat): State
    requires id in s.timers
  {
    match s.timers[id]
    case Idle(_) => Closed(s.(timers := s.timers - {id}, idleTimer := None), "webapp-idle")
    case Heartbeat(_) =>
      var t := s.(timers := s.timers[id := Heartbeat(s.clock + HEARTBEAT_MS)]);
      if !s.active then t else Sent(t, true, if s.lastReason != "" then s.lastReason else "webapp-heartbeat")
  }

  predicate Enabled(s: State, e: Event) {
    e.Fire? ==> e.id in s.timers && s.timers[e.id].due <= s.clock
  }

  function Step(s: State, e: Event): State {
    if !Enabled(s, e) then s
    else
      match e
      case Tick(ms) => s.(clock := s.clock + ms)
      case Mark(reason) => Marked(s, reason)
      case Close(reason) => Closed(s, reason)
      case Fire(id) => Fired(s, id)
  }

  function RunFrom(s: State, run: seq<Event>): State
    decreases |run|
  {
    if run == [] then s else RunFrom(Step(s, run[0]), run[1..])
  }

  // --- the implementation ------------------------------------------------------------------------

  class Presence {
    var active: bool
    var idleTimer: Option<nat>
    var heartbeatTimer: Option<nat>
    var lastReason: string

    // The browser and the network.
    var clock: int
    var nextId: nat
    var timers: map<nat, Timer>
    var sent: seq<Message>

    ghost var lastMark: int

    ghost function View(): State
      reads this
    {
      State(active, idleTimer, heartbeatTimer, lastReason, clock, nextId, timers, sent, lastMark)
    }

    constructor ()
      ensures View() == INITIAL
    {
      active, idleTimer, heartbeatTimer, lastReason := false, None, None, "";
      clock, nextId, timers, sent, lastMark := 0, 0, map[], [], 0;
    }

    method Send(isActive: bool, reason: string)
      modifies this
      ensures View() == Sent(old(View()), isActive, reason)
    {
      sent := sent + [Message(isActive, reason, clock)];
    }

    method ClearIdleTimer()
      modifies this
      ensures View() == IdleCleared(old(View()))
    {
      if idleTimer == None {
        return;
      }
      timers := timers - {idleTimer.value};
      idleTimer := None;
    }

    method EnsureHeartbeat()
      modifies this
      ensures View() == HeartbeatSet(old(View()))
    {
      if heartbeatTimer.Some? {
        return;
      }
      timers := timers[nextId := Heartbeat(clock + HEARTBEAT_MS)];
      heartbeatTimer := Some(nextId);
      nextId := nextId + 1;
    }

    method SetIdleTimer()
      modifies this
      ensures View() == IdleSet(old(View()))
    {
      timers := timers[nextId := Idle(clock + IDLE_MS)];
      idleTimer := Some(nextId);
      nextId := nextId + 1;
    }

    method ClearHeartbeat()
      modifies this
      ensures View() == HeartbeatCleared(old(View()))
    {
      if heartbeatTimer == None {
        return;
      }
      timers := timers - {heartbeatTimer.value};
      heartbeatTimer := None;
    }

    method MarkPresence(reason: string)
      modifies this
      ensures View() == Marked(old(View()), reason)
    {
      hide Sent, IdleCleared, HeartbeatSet, IdleSet;
      lastReason := reason;
      lastMark := clock;
      ClearIdleTimer();
      if !active {
        active := true;
        Send(true, reason);
      }
      EnsureHeartbeat();
      SetIdleTimer();
    }

    method SetInactive(reason: string)
      modifies this
      ensures View() == Closed(old(View()), reason)
    {
      ClearIdleTimer();
      if !active {
        return;
      }
      active := false;
      lastReason := reason;
      ClearHeartbeat();
      Send(false, reason);
    }

    method OnTimer(id: nat)
      requires id in timers
      modifies this
      ensures View() == Fired(old(View()), id)
    {
      match timers[id]
      case Idle(_) =>
        timers := timers - {id};
        idleTimer := None;
        SetInactive("webapp-idle");
      case Heartbeat(_) =>
        timers := timers[id := Heartbeat(clock + HEARTBEAT_MS)];
        if !active {
          return;
        }
        Send(true, if lastReason != "" then lastReason else "webapp-heartbeat");
    }
  }

  // --- what every run keeps ------------------------------------------------------------------------

  // The page is active exactly when it holds a heartbeat and exactly when it holds an idle timer,
  // and these two are the only timers pending.
  predicate TimersHeld(s: State) {
    && s.active == s.heartbeatTimer.Some? == s.idleTimer.Some?
    && (s.active ==>
          && s.heartbeatTimer.value != s.idleTimer.value
          && s.timers.Keys == {s.heartbeatTimer.value, s.idleTimer.value}
          && s.timers[s.heartbeatTimer.value].Heartbeat?
          && s.timers[s.idleTimer.value] == Idle(s.lastMark + IDLE_MS)
          && s.heartbeatTimer.value < s.nextId && s.idleTimer.value < s.nextId)
    && (!s.active ==> s.timers == map[])
  }

  // The messages tell the server the active flag: the last one carries it, the first one is not an
  // inactive one, and no two inactive ones follow each other.
  predicate LogTells(s: State) {
    && s.active == (s.sent != [] && s.sent[|s.sent| - 1].active)
    && (forall i | 0 <= i < |s.sent| && !s.sent[i].active :: i > 0 && s.sent[i - 1].active)
  }

  // The next heartbeat is due at most one period after the last message.
  predicate Beating(s: State) {
    && s.lastMark <= s.clock
    && (s.active && s.sent != [] && s.heartbeatTimer.Some? && s.heartbeatTimer.value in s.timers ==>
          s.timers[s.heartbeatTimer.value].due <= s.sent[|s.sent| - 1].at + HEARTBEAT_MS)
  }

  predicate Invariant(s: State) {
    TimersHeld(s) && LogTells(s) && Beating(s)
  }

  lemma MarkedInvariant(s: State, reason: string)
    requires Invariant(s)
    ensures Invariant(Marked(s, reason))
  {
    var t := IdleCleared(s.(lastReason := reason, lastMark := s.clock));
    assert t.timers.Keys == if s.active then {s.heartbeatTimer.value} else {};
    var u := HeartbeatSet(if t.active then t else Sent(t.(active := true), true, reason));
    assert u.timers.Keys == {u.heartbeatTimer.value};
    assert IdleSet(u).timers.Keys == {u.heartbeatTimer.value, u.nextId};
  }

  lemma ClosedInvariant(s: State, reason: string)
    requires Invariant(s)
    ensures Invariant(Closed(s, reason))
  {
    ClosedFrom(s, reason);
  }

  // Closing needs no idle timer to be pending: it may be the one that just fired.
  lemma ClosedFrom(s: State, reason: string)
    requires LogTells(s) && s.lastMark <= s.clock && s.active == s.heartbeatTimer.Some?
    requires s.active ==>
               s.timers.Keys == {s.heartbeatTimer.value} + if s.idleTimer.Some? then {s.idleTimer.value} else {}
    requires !s.active ==> s.timers == map[] && s.idleTimer == None
    ensures Invariant(Closed(s, reason))
  {
    if s.active {
      var t := IdleCleared(s);
      assert HeartbeatCleared(t.(active := false, lastReason := reason)).timers.Keys == {};
    }
  }

  lemma FiredInvariant(s: State, id: nat)
    requires Invariant(s) && Enabled(s, Fire(id))
    ensures Invariant(Fired(s, id))
  {
    hide Closed;
    match s.timers[id]
    case Idle(_) =>
      var t := s.(timers := s.timers - {id}, idleTimer := None);
      assert t.timers.Keys == {s.heartbeatTimer.value};
      ClosedFrom(t, "webapp-idle");
    case Heartbeat(_) =>
      assert s.timers[id := Heartbeat(s.clock + HEARTBEAT_MS)].Keys == s.timers.Keys;
  }

  lemma StepInvariant(s: State, e: Event)
    requires Invariant(s)
    ensures Invariant(Step(s, e))
  {
    hide Marked, Closed, Fired;
    if Enabled(s, e) {
      match e
      case Tick(ms) =>
      case Mark(reason) => MarkedInvariant(s, reason);
      case Close(reason) => ClosedInvariant(s, reason);
      case Fire(id) => FiredInvariant(s, id);
    }
  }

  lemma {:induction false} RunInvariant(s: State, run: seq<Event>)
    requires Invariant(s)
    ensures Invariant(RunFrom(s, run))
    decreases |run|
  {
    hide Step, Invariant;
    if run != [] {
      StepInvariant(s, run[0]);
      RunInvariant(Step(s, run[0]), run[1..]);
    }
  }

  // --- main results --------------------------------------------------------------------------------

  // After any run the timers, the flag and the message log agree.
  lemma PresenceAgrees(run: seq<Event>)
    ensures var s := RunFrom(INITIAL, run);
            && (s.active <==> s.heartbeatTimer.Some?) && (s.active <==> s.idleTimer.Some?)
            && |s.timers| == (if s.active then 2 else 0)
            && (s.active <==> s.sent != [] && s.sent[|s.sent| - 1].active)
            && (forall i | 0 <= i < |s.sent| && !s.sent[i].active :: i > 0 && s.sent[i - 1].active)
  {
    hide RunFrom;
    RunInvariant(INITIAL, run);
    var s := RunFrom(INITIAL, run);
    if s.active {
      assert |s.timers| == |{s.heartbeatTimer.value, s.idleTimer.value}|;
    }
  }

  // A timer only ends the session ten minutes or more after the last activity, and every other
  // firing sends a heartbeat - the heartbeat's own test of the flag never fails.
  lemma FiringsExact(run: seq<Event>, id: nat)
    ensures var s := RunFrom(INITIAL, run);
            var t := Step(s, Fire(id));
            Enabled(s, Fire(id)) ==>
              && s.active && |t.sent| == |s.sent| + 1 && t.sent[..|s.sent|] == s.sent
              && (t.active <==> s.idleTimer != Some(id))
              && t.sent[|s.sent|].active == t.active && t.sent[|s.sent|].at == s.clock
              && (!t.active ==> s.clock >= s.lastMark + IDLE_MS && t.timers == map[] && t.lastReason == "webapp-idle")
              && (t.active ==> t.lastMark == s.lastMark && t.idleTimer == s.idleTimer && t.lastReason == s.lastReason)
  {
    hide RunFrom;
    RunInvariant(INITIAL, run);
    var s := RunFrom(INITIAL, run);
    if Enabled(s, Fire(id)) {
      StepInvariant(s, Fire(id));
    }
  }

  // No timer is overdue.
  predicate Prompt(s: State) {
    forall id | id in s.timers :: s.clock <= s.timers[id].due
  }

  // With timers that fire on time, an active page was used within the last ten minutes and told
  // the server so within the last minute.
  lemma FreshWhileActive(run: seq<Event>)
    ensures var s := RunFrom(INITIAL, run);
            Prompt(s) && s.active ==>
              && s.clock - s.lastMark <= IDLE_MS
              && s.sent != [] && s.sent[|s.sent| - 1].active && s.clock - s.sent[|s.sent| - 1].at <= HEARTBEAT_MS
  {
    hide RunFrom;
    RunInvariant(INITIAL, run);
    var s := RunFrom(INITIAL, run);
    if s.active {
      assert s.idleTimer.value in s.timers.Keys && s.heartbeatTimer.value in s.timers.Keys;
    }
  }

  // --- what each step does -------------------------------------------------------------------------

  // Both timers are pending anew or still: the idle one ten minutes from now, the heartbeat as it
  // was, or a minute from now if there was none.
  predicate TimersRenewed(s: State, t: State) {
    && t.idleTimer.Some? && t.heartbeatTimer.Some?
    && t.timers.Keys == {t.idleTimer.value, t.heartbeatTimer.value}
    && t.timers[t.idleTimer.value] == Idle(s.clock + 600000) && t.idleTimer.value !in s.timers
    && (s.active ==> t.heartbeatTimer == s.heartbeatTimer && s.heartbeatTimer.value in s.timers
                     && t.timers[t.heartbeatTimer.value] == s.timers[s.heartbeatTimer.value])
    && (!s.active ==> t.timers[t.heartbeatTimer.value] == Heartbeat(s.clock + 60000))
  }

  // Activity is announced only to begin a session, with its reason; the timers are renewed.
  lemma MarkLaw(run: seq<Event>, reason: string)
    ensures var s := RunFrom(INITIAL, run);
            var t := Step(s, Mark(reason));
            && t.active && t.lastReason == reason && t.lastMark == t.clock == s.clock
            && t.sent == s.sent + (if s.active then [] else [Message(true, reason, s.clock)])
            && TimersRenewed(s, t)
  {
    hide RunFrom;
    RunInvariant(INITIAL, run);
    var s := RunFrom(INITIAL, run);
    var t := Step(s, Mark(reason));
    StepInvariant(s, Mark(reason));
    MarkedTimers(s, reason);
  }

  lemma MarkedTimers(s: State, reason: string)
    requires Invariant(s) && Invariant(Marked(s, reason))
    ensures TimersRenewed(s, Marked(s, reason))
    ensures Marked(s, reason).sent == s.sent + (if s.active then [] else [Message(true, reason, s.clock)])
  {
    if s.active {
      assert s.heartbeatTimer.value in s.timers.Keys;
    }
    assert s.nextId !in s.timers.Keys && s.nextId + 1 !in s.timers.Keys;
  }

  // Closing is announced only to end a session, with its reason; nothing is pending afterwards.
  lemma CloseLaw(run: seq<Event>, reason: string)
    ensures var s := RunFrom(INITIAL, run);
            var t := Step(s, Close(reason));
            && !t.active && t.timers == map[] && t.clock == s.clock && t.lastMark == s.lastMark
            && t.sent == s.sent + (if s.active then [Message(false, reason, s.clock)] else [])
            && t.lastReason == (if s.active then reason else s.lastReason)
  {
    hide RunFrom;
    RunInvariant(INITIAL, run);
    StepInvariant(RunFrom(INITIAL, run), Close(reason));
  }

  // A due heartbeat is sent with the last reason, and is due again a minute later; a due idle
  // timer ends the session.
  lemma FireLaw(run: seq<Event>, id: nat)
    requires var s := RunFrom(INITIAL, run); id in s.timers && s.timers[id].due <= s.clock
    ensures var s := RunFrom(INITIAL, run);
            var t := Step(s, Fire(id));
            && (s.timers[id].Heartbeat? ==>
                  && t.timers == s.timers[id := Heartbeat(s.clock + 60000)]
                  && t.sent == s.sent +
                     [Message(true, if s.lastReason == "" then "webapp-heartbeat" else s.lastReason, s.clock)]
                  && t == s.(timers := t.timers, sent := t.sent))
            && (s.timers[id].Idle? ==>
                  && t.timers == map[] && t.idleTimer == None && t.heartbeatTimer == None && !t.active
                  && t.sent == s.sent + [Message(false, "webapp-idle", s.clock)] && t.lastReason == "webapp-idle")
  {
    hide RunFrom;
    RunInvariant(INITIAL, run);
    var s := RunFrom(INITIAL, run);
    assert id in s.timers.Keys;
    StepInvariant(s, Fire(id));
  }

  // A page used once and then left for ten minutes says so.
  lemma LeftAlone(reason: string)
    ensures RunFrom(INITIAL, [Mark(reason), Tick(600000), Fire(1)]).sent ==
            [Message(true, reason, 0), Message(false, "webapp-idle", 600000)]
  {
    var s1 := Step(INITIAL, Mark(reason));
    assert s1.timers == map[0 := Heartbeat(60000), 1 := Idle(600000)];
    var s2 := Step(s1, Tick(600000));
    var s3 := Step(s2, Fire(1));
    assert s3.sent == [Message(true, reason, 0), Message(false, "webapp-idle", 600000)];
    var run := [Mark(reason), Tick(600000), Fire(1)];
    assert run[1..] == [Tick(600000), Fire(1)] && run[1..][1..] == [Fire(1)];
    assert RunFrom(s2, [Fire(1)]) == RunFrom(s3, []);
  }
}
