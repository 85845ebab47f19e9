/** Polling a follow report: a chain of timers and fetches that a serial number keeps single. */
module FollowPolling {
  import opened Common

  const INTERVAL_MS: int := 1500
  const TIMEOUT_MS: int := 90000

  // A timer set by the poller, and a fetch in flight.
  datatype Timer = Timer(reportId: string, serial: nat, due: int)
  datatype Poll = Poll(reportId: string, serial: nat)

  // How a fetch ends: an accepted reply, whose job may be finished, or which fails while it is
  // being shown; a reply that is not ok; or an exception before that.
  datatype Reply = Accepted(terminal: bool) | ShowFailed | NotOk | Threw

  // The poller's fields (serial to startedAtMs), the browser's timers and fetches, and history:
  // the snapshots applied, the polls of the current chain, and its late replies that were not ok.
  datatype State = State(
    clock: int, serial: nat, timer: Option<nat>, reportId: string, startedAtMs: int,
    nextId: nat, timers: map<nat, Timer>, polls: map<nat, Poll>,
    applied: seq<Poll>, chainPolls: nat, lateNotOk: nat)

  datatype Event = Tick(ms: nat) | Start(reportId: string) | Stop | Fire(id: nat) | Settle(id: nat, reply: Reply)

  predicate Enabled(s: State, e: Event) {
    match e
    case Fire(id) => id in s.timers && s.clock >= s.timers[id].due
    case Settle(id, _) => id in s.polls
    case _ => true
  }

  // stopOutputFollowRefresh
  function Stopped(s: State): State {
    var timers := if s.timer.Some? then s.timers - {s.timer.value} else s.timers;
    s.(serial := s.serial + 1, timer := None, reportId := "", startedAtMs := 0, timers := timers,
       chainPolls := 0, lateNotOk := 0)
  }

  function Armed(s: State, reportId: string, serial: nat): State {
    s.(timer := Some(s.nextId), nextId := s.nextId + 1,
       timers := s.timers[s.nextId := Timer(reportId, serial, s.clock + INTERVAL_MS)])
  }

  // startOutputFollowRefresh
  function Started(s: State, reportId: string): State {
    var stopped := Stopped(s);
    if reportId == "" then stopped
    else Armed(stopped.(reportId := reportId, startedAtMs := s.clock), reportId, stopped.serial)
  }

  // A timer fires: pollOutputFollowReport up to its fetch.
  function Fired(s: State, id: nat): State
    requires id in s.timers
  {
    var t := s.timers[id];
    var fired := s.(timers := s.timers - {id});
    if t.reportId == "" || t.serial != s.serial then fired
    else fired.(polls := s.polls[s.nextId := Poll(t.reportId, t.serial)], nextId := s.nextId + 1,
                chainPolls := s.chainPolls + 1)
  }

  predicate Late(s: State) {
    s.clock - s.startedAtMs >= TIMEOUT_MS
  }

  // The rest of pollOutputFollowReport, once its fetch has ended.
  function Settled(s: State, id: nat, reply: Reply): State
    requires id in s.polls
  {
    var p := s.polls[id];
    var done := s.(polls := s.polls - {id});
    if p.serial != s.serial then done
    else
      match reply
      case Accepted(terminal) =>
        var shown := done.(applied := s.applied + [p]);
        if terminal || Late(s) then Stopped(shown) else Armed(shown, p.reportId, p.serial)
      case NotOk =>
        Armed(done.(lateNotOk := if Late(s) then s.lateNotOk + 1 else s.lateNotOk), p.reportId, p.serial)
      case ShowFailed =>
        var shown := done.(applied := s.applied + [p]);
        if Late(s) then Stopped(shown) else Armed(shown, p.reportId, p.serial)
      case Threw =>
        if Late(s) then Stopped(done) else Armed(done, p.reportId, p.serial)
  }

  function Step(s: State, e: Event): State {
    if !Enabled(s, e) then s
    else
      match e
      case Tick(ms) => s.(clock := s.clock + ms)
      case Start(reportId) => Started(s, reportId)
      case Stop => Stopped(s)
      case Fire(id) => Fired(s, id)
      case Settle(id, reply) => Settled(s, id, reply)
  }

  function RunFrom(s: State, run: seq<Event>): State
    decreases |run|
  {
    if run == [] then s else RunFrom(Step(s, run[0]), run[1..])
  }

  const INITIAL := State(0, 0, None, "", 0, 0, map[], map[], [], 0, 0)

  // --- the implementation ------------------------------------------------------------------------

  class FollowRefresh {
    var serial: nat
    var timer: Option<nat>
    var reportId: string
    var startedAtMs: int

    // The browser: its clock, its pending timers and the fetches in flight.
    var clock: int
    var nextId: nat
    var timers: map<nat, Timer>
    var polls: map<nat, Poll>
    var applied: seq<Poll>

    ghost var chainPolls: nat
    ghost var lateNotOk: nat

    ghost function View(): State
      reads this
    {
      State(clock, serial, timer, reportId, startedAtMs, nextId, timers, polls, applied, chainPolls, lateNotOk)
    }

    constructor ()
      ensures View() == INITIAL
    {
      clock, serial, timer, reportId, startedAtMs := 0, 0, None, "", 0;
      nextId, timers, polls, applied, chainPolls, lateNotOk := 0, map[], map[], [], 0, 0;
    }

    method SetTimer(report: string, forSerial: nat)
      modifies this
      ensures View() == Armed(old(View()), report, forSerial)
    {
      timers := timers[nextId := Timer(report, forSerial, clock + INTERVAL_MS)];
      timer := Some(nextId);
      nextId := nextId + 1;
    }

    method StopRefresh()
      modifies this
      ensures View() == Stopped(old(View()))
    {
      serial := serial + 1;
      if timer.Some? {
        timers := timers - {timer.value};
      }
      timer := None;
      reportId := "";
      startedAtMs := 0;
      chainPolls, lateNotOk := 0, 0;
    }

    method StartRefresh(report: string)
      modifies this
      ensures View() == Started(old(View()), report)
    {
      StopRefresh();
      if report == "" {
        return;
      }
      reportId := report;
      startedAtMs := clock;
      SetTimer(report, serial);
    }

    method OnTimer(id: nat)
      requires id in timers
      modifies this
      ensures View() == Fired(old(View()), id)
    {
      var t := timers[id];
      timers := timers - {id};
      if t.reportId == "" || t.serial != serial {
        return;
      }
      polls := polls[nextId := Poll(t.reportId, t.serial)];
      nextId := nextId + 1;
      chainPolls := chainPolls + 1;
    }

    method OnReply(id: nat, reply: Reply)
      requires id in polls
      modifies this
      ensures View() == Settled(old(View()), id, reply)
    {
      var p := polls[id];
      polls := polls - {id};
      if p.serial != serial {
        return;
      }
      if reply.Accepted? || reply.ShowFailed? {
        applied := applied + [p];
      }
      if reply.Accepted? {
        if reply.terminal || clock - startedAtMs >= TIMEOUT_MS {
          StopRefresh();
          return;
        }
      } else if !reply.NotOk? && clock - startedAtMs >= TIMEOUT_MS {
        StopRefresh();
        return;
      } else if clock - startedAtMs >= TIMEOUT_MS {
        lateNotOk := lateNotOk + 1;
      }
      SetTimer(p.reportId, p.serial);
    }
  }

  // --- one chain at a time -------------------------------------------------------------------------

  // A timer or poll of the current chain.
  predicate CurrentPoll(s: State, id: nat) {
    id in s.polls && s.polls[id].serial == s.serial
  }

  predicate Fresh(s: State) {
    && (forall id | id in s.timers :: id < s.nextId)
    && (forall id | id in s.polls :: id < s.nextId && s.polls[id].serial <= s.serial)
  }

  // Every pending timer is the recorded one, of the current serial and report.
  predicate TimersCurrent(s: State) {
    forall id | id in s.timers ::
      s.timer == Some(id) && s.timers[id].serial == s.serial && s.timers[id].reportId == s.reportId
  }

  // A poll of the current chain is the only one, polls the recorded report, and excludes a timer.
  ghost predicate PollsCurrent(s: State) {
    forall id | CurrentPoll(s, id) ::
      s.polls[id].reportId == s.reportId && s.timers == map[] && forall j | CurrentPoll(s, j) :: j == id
  }

  // How many polls a chain can have made, by its clock and its late replies.
  ghost predicate Paced(s: State) {
    && s.startedAtMs <= s.clock && 0 <= s.clock
    && (forall id | id in s.timers ::
          s.timers[id].due >= s.startedAtMs + INTERVAL_MS * (s.chainPolls + 1) && s.chainPolls <= 59 + s.lateNotOk)
    && (forall id | CurrentPoll(s, id) :: s.clock >= s.startedAtMs + INTERVAL_MS * s.chainPolls)
    && s.chainPolls <= 60 + s.lateNotOk
  }

  ghost predicate Invariant(s: State) {
    Fresh(s) && TimersCurrent(s) && PollsCurrent(s) && Paced(s)
  }

  lemma StoppedInvariant(s: State)
    requires Fresh(s) && TimersCurrent(s) && 0 <= s.clock
    ensures Invariant(Stopped(s)) && Stopped(s).timers == map[]
  {
    var t := Stopped(s);
    assert forall id | id in t.timers :: id in s.timers && s.timer == Some(id);
    assert t.timers.Keys == {};
  }

  lemma StartedInvariant(s: State, reportId: string)
    requires Invariant(s)
    ensures Invariant(Started(s, reportId))
  {
    StoppedInvariant(s);
  }

  lemma FiredInvariant(s: State, id: nat)
    requires Invariant(s) && Enabled(s, Fire(id))
    ensures Invariant(Fired(s, id))
  {
    var t := Fired(s, id);
    assert forall j | j in s.timers :: j == id;
    assert t.timers.Keys == {};
  }

  lemma RearmedInvariant(s: State, done: State, p: Poll)
    requires Fresh(done) && done.timers == map[] && p.serial == done.serial && p.reportId == done.reportId
    requires forall j :: !CurrentPoll(done, j)
    requires done.startedAtMs <= done.clock && 0 <= done.clock
    requires done.clock >= done.startedAtMs + INTERVAL_MS * done.chainPolls && done.chainPolls <= 59 + done.lateNotOk
    ensures Invariant(Armed(done, p.reportId, p.serial))
  {
    var t := Armed(done, p.reportId, p.serial);
    assert forall j :: !CurrentPoll(t, j) by {
      forall j ensures !CurrentPoll(t, j) {
        assert !CurrentPoll(done, j);
      }
    }
  }

  lemma SettledInvariant(s: State, id: nat, reply: Reply)
    requires Invariant(s) && id in s.polls
    ensures Invariant(Settled(s, id, reply))
  {
    var p := s.polls[id];
    var done := s.(polls := s.polls - {id});
    assert forall j | CurrentPoll(done, j) :: CurrentPoll(s, j);
    if p.serial == s.serial {
      assert CurrentPoll(s, id);
      assert forall j :: !CurrentPoll(done, j);
      var shown := if reply.Accepted? || reply.ShowFailed? then done.(applied := s.applied + [p])
                   else if reply.NotOk? then done.(lateNotOk := if Late(s) then s.lateNotOk + 1 else s.lateNotOk)
                   else done;
      assert forall j :: CurrentPoll(shown, j) ==> CurrentPoll(done, j);
      StoppedInvariant(shown);
      if !Late(s) || reply.NotOk? {
        RearmedInvariant(s, shown, p);
      }
    }
  }

  lemma StepInvariant(s: State, e: Event)
    requires Invariant(s)
    ensures Invariant(Step(s, e))
  {
    hide Invariant, Settled, Fired, Started, Stopped;
    if Enabled(s, e) {
      match e
      case Tick(ms) => TickInvariant(s, ms);
      case Start(reportId) => StartedInvariant(s, reportId);
      case Stop => StopInvariant(s);
      case Fire(id) => FiredInvariant(s, id);
      case Settle(id, reply) => SettledInvariant(s, id, reply);
    }
  }

  lemma StopInvariant(s: State)
    requires Invariant(s)
    ensures Invariant(Stopped(s))
  {
    StoppedInvariant(s);
  }

  lemma TickInvariant(s: State, ms: nat)
    requires Invariant(s)
    ensures Invariant(s.(clock := s.clock + ms))
  {
    var t := s.(clock := s.clock + ms);
    assert forall id | CurrentPoll(t, id) :: CurrentPoll(s, id);
    assert forall id | CurrentPoll(s, id) :: CurrentPoll(t, id);
  }

  lemma {:induction false} RunInvariant(s: State, run: seq<Event>)
    requires Invariant(s)
    ensures Invariant(RunFrom(s, run))
    decreases |run|
  {
    hide Step, Invariant;
    if run != [] {
      StepInvariant(s, run[0]);
      RunInvariant(Step(s, run[0]), run[1..]);
    }
  }

  // In every reachable state at most one timer or fetch belongs to the current chain, it polls
  // the recorded report, and no timer of an older chain is left.
  lemma SingleChain(run: seq<Event>)
    ensures var s := RunFrom(INITIAL, run);
            && |s.timers| <= 1
            && (forall i, j | CurrentPoll(s, i) && CurrentPoll(s, j) :: i == j)
            && (forall i | CurrentPoll(s, i) :: s.timers == map[] && s.polls[i].reportId == s.reportId)
            && (forall i | i in s.timers :: s.timers[i].serial == s.serial && s.timers[i].reportId == s.reportId)
  {
    hide RunFrom;
    RunInvariant(INITIAL, run);
    var s := RunFrom(INITIAL, run);
    if s.timers != map[] {
      var id :| id in s.timers;
      assert s.timers.Keys == {id};
    }
  }

  // A chain makes at most 60 polls, and one more for every reply that is not ok after the
  // deadline - such a reply skips the deadline test.
  lemma ChainBounded(run: seq<Event>)
    ensures RunFrom(INITIAL, run).chainPolls <= 60 + RunFrom(INITIAL, run).lateNotOk
  {
    hide RunFrom;
    RunInvariant(INITIAL, run);
  }

  // The number of polls in a chain is unbounded when replies keep failing.
  function Failing(n: nat): seq<Event> {
    if n == 0 then [Start("r")] else Failing(n - 1) + [Tick(1500), Fire(2 * n - 2), Settle(2 * n - 1, NotOk)]
  }

  lemma {:induction false} RunSplit(s: State, a: seq<Event>, b: seq<Event>)
    ensures RunFrom(s, a + b) == RunFrom(RunFrom(s, a), b)
    decreases |a|
  {
    hide Step;
    if a == [] {
      assert a + b == b;
    } else {
      assert (a + b)[1..] == a[1..] + b;
      RunSplit(Step(s, a[0]), a[1..], b);
    }
  }

  lemma RunThree(s: State, a: Event, b: Event, c: Event)
    ensures RunFrom(s, [a, b, c]) == Step(Step(Step(s, a), b), c)
  {
    hide Step;
    assert [a, b, c][1..] == [b, c] && [b, c][1..] == [c] && [c][1..] == [];
    assert RunFrom(Step(Step(s, a), b), [c]) == Step(Step(Step(s, a), b), c);
  }

  lemma {:induction false} FailingPolls(n: nat)
    ensures var s := RunFrom(INITIAL, Failing(n));
            && s.chainPolls == n && s.serial == 1 && s.reportId == "r" && s.polls == map[] && s.nextId == 2 * n + 1
            && s.clock == 1500 * n && s.startedAtMs == 0
            && s.lateNotOk == (if n < 60 then 0 else n - 59)
            && s.timers == map[2 * n := Timer("r", 1, 1500 * n + 1500)]
  {
    if n == 0 {
      var s := Step(INITIAL, Start("r"));
      assert RunFrom(s, []) == s;
      assert [Start("r")][1..] == [];
    } else {
      FailingPolls(n - 1);
      var s := RunFrom(INITIAL, Failing(n - 1));
      RunSplit(INITIAL, Failing(n - 1), [Tick(1500), Fire(2 * n - 2), Settle(2 * n - 1, NotOk)]);
      RunThree(s, Tick(1500), Fire(2 * n - 2), Settle(2 * n - 1, NotOk));
      FailingRound(s, n);
    }
  }

  lemma FailingRound(s: State, n: nat)
    requires n > 0 && s.serial == 1 && s.reportId == "r" && s.polls == map[] && s.nextId == 2 * n - 1
    requires s.clock == 1500 * (n - 1) && s.startedAtMs == 0
    requires s.timers == map[2 * n - 2 := Timer("r", 1, 1500 * n)]
    ensures var t := Step(Step(Step(s, Tick(1500)), Fire(2 * n - 2)), Settle(2 * n - 1, NotOk));
            && t.chainPolls == s.chainPolls + 1 && t.serial == 1 && t.reportId == "r" && t.polls == map[]
            && t.nextId == 2 * n + 1 && t.clock == 1500 * n && t.startedAtMs == 0
            && t.lateNotOk == (if n < 60 then s.lateNotOk else s.lateNotOk + 1)
            && t.timers == map[2 * n := Timer("r", 1, 1500 * n + 1500)]
  {
    var s1 := Step(s, Tick(1500));
    var s2 := Step(s1, Fire(2 * n - 2));
    assert s2.timers == map[] && s2.polls == map[2 * n - 1 := Poll("r", 1)];
    var s3 := Step(s2, Settle(2 * n - 1, NotOk));
    assert s3.polls == map[];
  }

  // The bound of 60 polls and one per late reply that is not ok is met, whatever their number.
  lemma BoundAttained(late: nat)
    ensures var s := RunFrom(INITIAL, Failing(59 + late) + [Tick(1500), Fire(2 * (59 + late))]);
            s.lateNotOk == late && s.chainPolls == 60 + late
  {
    hide Failing, RunFrom;
    var n := 59 + late;
    FailingPolls(n);
    var s := RunFrom(INITIAL, Failing(n));
    var s1 := Step(s, Tick(1500));
    var s2 := Step(s1, Fire(2 * n));
    RunSplit(INITIAL, Failing(n), [Tick(1500), Fire(2 * n)]);
    assert RunFrom(s, [Tick(1500), Fire(2 * n)]) == s2 by { RunTwo(s, Tick(1500), Fire(2 * n)); }
  }

  lemma RunTwo(s: State, a: Event, b: Event)
    ensures RunFrom(s, [a, b]) == Step(Step(s, a), b)
  {
    hide Step;
    assert [a, b][1..] == [b] && [b][1..] == [];
    assert RunFrom(Step(s, a), [b]) == Step(Step(s, a), b);
  }

  // All replies of the run are of the given kinds.
  predicate OnlyReplies(run: seq<Event>, kinds: set<Reply>) {
    forall e | e in run :: e.Settle? ==> e.reply in kinds
  }

  lemma {:induction false} NoLateReplies(s: State, run: seq<Event>, kinds: set<Reply>)
    requires s.lateNotOk == 0 && NotOk !in kinds && OnlyReplies(run, kinds)
    ensures RunFrom(s, run).lateNotOk == 0
    decreases |run|
  {
    if run != [] {
      assert run[0] in run;
      NoLateReplies(Step(s, run[0]), run[1..], kinds);
    }
  }

  lemma {:induction false} FailingReplies(n: nat, kinds: set<Reply>)
    requires NotOk in kinds
    ensures OnlyReplies(Failing(n), kinds)
  {
    if n > 0 {
      FailingReplies(n - 1, kinds);
    }
  }

  ghost predicate AtMostSixty(kinds: set<Reply>) {
    forall run: seq<Event> | OnlyReplies(run, kinds) :: RunFrom(INITIAL, run).chainPolls <= 60
  }

  // No chain makes more than 60 polls exactly when no reply is not ok.
  lemma SixtyPolls(kinds: set<Reply>)
    ensures AtMostSixty(kinds) <==> NotOk !in kinds
  {
    hide RunFrom, OnlyReplies, Failing;
    if NotOk in kinds {
      FailingReplies(61, kinds);
      FailingPolls(61);
    } else {
      forall run: seq<Event> | OnlyReplies(run, kinds) ensures RunFrom(INITIAL, run).chainPolls <= 60 {
        ChainBounded(run);
        NoLateReplies(INITIAL, run, kinds);
      }
    }
  }

  // --- stopping ----------------------------------------------------------------------------------

  lemma StepHistory(s: State, e: Event)
    requires Invariant(s)
    ensures Step(s, e).serial >= s.serial
    ensures Step(s, e).applied == s.applied ||
            Step(s, e).applied == s.applied + [Poll(s.reportId, s.serial)]
  {
    if e.Settle? && Enabled(s, e) && s.polls[e.id].serial == s.serial {
      assert CurrentPoll(s, e.id);
    }
  }

  // Everything a run applies belongs to the chain it starts in or to a later one.
  lemma {:induction false} AppliesForward(s: State, run: seq<Event>)
    requires Invariant(s)
    ensures var t := RunFrom(s, run);
            && s.applied <= t.applied && s.serial <= t.serial
            && forall i | |s.applied| <= i < |t.applied| :: t.applied[i].serial >= s.serial
    decreases |run|
  {
    hide Step, Invariant;
    if run != [] {
      StepHistory(s, run[0]);
      StepInvariant(s, run[0]);
      AppliesForward(Step(s, run[0]), run[1..]);
    }
  }

  // After a stop no poll of an older chain ever applies a snapshot or sets a timer again.
  lemma StopSilences(before: seq<Event>, after: seq<Event>)
    ensures var s := RunFrom(INITIAL, before);
            var t := RunFrom(Step(s, Stop), after);
            && (forall i | |s.applied| <= i < |t.applied| :: t.applied[i].serial > s.serial)
            && (forall id | id in t.timers :: t.timers[id].serial > s.serial)
  {
    hide RunFrom, Invariant;
    var s := RunFrom(INITIAL, before);
    InitialInvariant();
    RunInvariant(INITIAL, before);
    StepInvariant(s, Stop);
    AppliesForward(Step(s, Stop), after);
    RunInvariant(Step(s, Stop), after);
    TimersOf(RunFrom(Step(s, Stop), after));
  }

  lemma InitialInvariant()
    ensures Invariant(INITIAL)
  {
  }

  lemma TimersOf(s: State)
    requires Invariant(s)
    ensures forall id | id in s.timers :: s.timers[id].serial == s.serial
  {
  }

  // --- what each step does -------------------------------------------------------------------------

  // The chain has ended: nothing is pending, and its serial is used up.
  predicate ChainEnded(s: State, t: State) {
    && t.timers == map[] && t.timer == None && t.reportId == "" && t.startedAtMs == 0 && t.serial == s.serial + 1
  }

  // One new timer is pending, due in a second and a half.
  predicate NextTimer(s: State, t: State, reportId: string, serial: nat) {
    && t.timer == Some(s.nextId) && t.timers == map[s.nextId := Timer(reportId, serial, s.clock + 1500)]
    && t.nextId == s.nextId + 1
  }

  // A reply to an older chain's poll is dropped. For the current chain a finished job, and any
  // reply after 90 seconds but one that is not ok, ends the chain; every other reply sets the
  // next timer for the same report. Accepted reports are shown.
  lemma ReplyLaw(run: seq<Event>, id: nat, reply: Reply)
    requires id in RunFrom(INITIAL, run).polls
    ensures var s := RunFrom(INITIAL, run);
            var t := Step(s, Settle(id, reply));
            var p := s.polls[id];
            var ends := reply == Accepted(true) || (s.clock - s.startedAtMs >= 90000 && reply != NotOk);
            && t.polls == s.polls - {id} && t.clock == s.clock
            && (p.serial != s.serial ==> t == s.(polls := s.polls - {id}))
            && (p.serial == s.serial ==>
                  && t.applied == s.applied + (if reply.Accepted? || reply.ShowFailed? then [p] else [])
                  && (ends ==> ChainEnded(s, t) && t.nextId == s.nextId)
                  && (!ends ==>
                        && NextTimer(s, t, p.reportId, p.serial)
                        && t.serial == s.serial && t.reportId == s.reportId == p.reportId
                        && t.startedAtMs == s.startedAtMs && t.chainPolls == s.chainPolls))
  {
    hide RunFrom;
    RunInvariant(INITIAL, run);
    var s := RunFrom(INITIAL, run);
    if s.polls[id].serial == s.serial {
      ReplyStep(s, id);
    }
  }

  lemma ReplyStep(s: State, id: nat)
    requires Invariant(s) && id in s.polls && s.polls[id].serial == s.serial
    ensures s.timers == map[] && s.polls[id].reportId == s.reportId
  {
    assert CurrentPoll(s, id);
  }

  // A timer of the current chain polls its report; there is no other kind of timer.
  lemma FireLaw(run: seq<Event>, id: nat)
    requires Enabled(RunFrom(INITIAL, run), Fire(id))
    ensures var s := RunFrom(INITIAL, run);
            var t := Step(s, Fire(id));
            && t.timers == map[]
            && (s.reportId != "" ==>
                  t == s.(timers := map[], polls := s.polls[s.nextId := Poll(s.reportId, s.serial)],
                          nextId := s.nextId + 1, chainPolls := s.chainPolls + 1))
            && (s.reportId == "" ==> t == s.(timers := map[]))
  {
    hide RunFrom;
    RunInvariant(INITIAL, run);
    OneTimer(RunFrom(INITIAL, run), id);
  }

  lemma OneTimer(s: State, id: nat)
    requires Invariant(s) && id in s.timers
    ensures s.timers - {id} == map[] && s.timers[id].serial == s.serial && s.timers[id].reportId == s.reportId
  {
    assert (s.timers - {id}).Keys == {};
  }

  // Starting ends the old chain; the new one has the next serial and one timer for its report.
  lemma StartLaw(run: seq<Event>, reportId: string)
    ensures var s := RunFrom(INITIAL, run);
            var t := Step(s, Start(reportId));
            && t.polls == s.polls && t.applied == s.applied && t.clock == s.clock
            && t.chainPolls == 0 && t.lateNotOk == 0
            && (reportId == "" ==> ChainEnded(s, t) && t.nextId == s.nextId)
            && (reportId != "" ==>
                  NextTimer(s, t, reportId, s.serial + 1) && t.serial == s.serial + 1
                  && t.reportId == reportId && t.startedAtMs == s.clock)
    ensures var s := RunFrom(INITIAL, run);
            var t := Step(s, Stop);
            && t.polls == s.polls && t.applied == s.applied && t.clock == s.clock
            && ChainEnded(s, t) && t.nextId == s.nextId && t.chainPolls == 0 && t.lateNotOk == 0
  {
    hide RunFrom;
    RunInvariant(INITIAL, run);
    StoppedEmpty(RunFrom(INITIAL, run));
  }

  lemma StoppedEmpty(s: State)
    requires Invariant(s)
    ensures (if s.timer.Some? then s.timers - {s.timer.value} else s.timers) == map[]
  {
    StoppedInvariant(s);
  }
}
