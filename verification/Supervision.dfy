/** The daemon's threads over one host, at the granularity of their lock sections: the
    supervisor, request handlers that reload or launch, shutdown, and children that may
    exit at any time. */
module Supervision {
  import opened Text
  import opened Host

  /** Where the supervisor thread is between its lock sections. */
  datatype Supervisor =
    | Idle
    | SawExit                 // polled, and found the child gone
    | Sleeping(afterMs: nat)  // decided to respawn
    | Checked                 // woke up, and found no shutdown
    | Quit

  /** `launching` are the children of handlers that found no host and launch one outside
      the lock. */
  datatype Sys = Sys(host: Option<HostModel>, procs: Procs, supervisor: Supervisor, launching: set<nat>, shutdown: bool)

  const INIT := Sys(None, Procs({}, 0), Idle, {}, false)

  datatype Action =
    | ChildExits(pid: nat)
    | Poll
    | Decide(now: int)
    | Wake
    | DoRespawn(outcome: Outcome)
    | LoopEnds
    | ReloadHost(cfg: Config, outcome: Outcome, ms: nat)
    | LaunchStarts
    | LaunchFails(pid: nat)
    | LaunchInstalls(pid: nat, cfg: Config)
    | RequestShutdown
    | StopHost

  predicate Watched(h: HostModel) { h.state.Running? || h.state.Reloading? }

  predicate Enabled(s: Sys, a: Action) {
    match a
    case ChildExits(pid) => pid in s.procs.live
    case Poll => s.supervisor.Idle?
    case Decide(_) => s.supervisor.SawExit?
    case Wake => s.supervisor.Sleeping?
    case DoRespawn(_) => s.supervisor.Checked?
    case LoopEnds => s.supervisor.Idle? && s.shutdown
    case ReloadHost(_, _, _) => s.host.Some?
    case LaunchStarts => true
    case LaunchFails(pid) => pid in s.launching
    case LaunchInstalls(pid, _) => pid in s.launching
    case RequestShutdown => true
    case StopHost => s.shutdown
  }

  function NewHost(pid: nat, cfg: Config): HostModel { HostModel(pid, pid, Running(pid), cfg, [], 0, []) }

  function Next(s: Sys, a: Action): Sys {
    match a
    case ChildExits(pid) => s.(procs := Killed(s.procs, pid))
    case Poll =>
      if s.host.Some? && Watched(s.host.value) && s.host.value.child !in s.procs.live
      then s.(supervisor := SawExit) else s
    case Decide(now) =>
      if s.host.None? then s.(supervisor := Idle)
      else
        var (h, d) := ChildExited(s.host.value, now, false);
        s.(host := Some(h), supervisor := if d.Respawn? then Sleeping(d.afterMs) else Idle)
    case Wake => s.(supervisor := if s.shutdown then Quit else Checked)
    case DoRespawn(outcome) =>
      if s.host.None? then s.(supervisor := Idle)
      else
        var (h, procs) := Respawned(s.host.value, s.procs, outcome);
        s.(host := Some(h), procs := procs, supervisor := Idle)
    case LoopEnds => s.(supervisor := Quit)
    case ReloadHost(cfg, outcome, ms) =>
      if s.host.None? then s
      else
        var (h, procs) := Reloaded(s.host.value, s.procs, cfg, outcome, ms);
        s.(host := Some(h), procs := procs)
    case LaunchStarts =>
      if s.host.Some? then s
      else s.(procs := Spawned(s.procs), launching := s.launching + {s.procs.next})
    case LaunchFails(pid) => s.(procs := Killed(s.procs, pid), launching := s.launching - {pid})
    case LaunchInstalls(pid, cfg) =>
      s.(host := Some(NewHost(pid, cfg)), launching := s.launching - {pid},
         procs := if s.host.Some? then Dropped(s.host.value, s.procs) else s.procs)
    case RequestShutdown => s.(shutdown := true)
    case StopHost =>
      if s.host.None? then s
      else
        var (h, procs) := StoppedHost(s.host.value, s.procs);
        s.(host := Some(h), procs := procs)
  }

  /** A run: every action is enabled where it happens. */
  predicate IsRun(s: Sys, actions: seq<Action>)
    decreases |actions|
  {
    actions == [] || (Enabled(s, actions[0]) && IsRun(Next(s, actions[0]), actions[1..]))
  }

  function RunFrom(s: Sys, actions: seq<Action>): Sys
    decreases |actions|
  {
    if actions == [] then s else RunFrom(Next(s, actions[0]), actions[1..])
  }

  // --- the lock sections as code ----------------------------------------------------------

  class Daemon {
    const os: Os
    var host: HostHandle?
    var supervisor: Supervisor
    var launching: set<nat>
    var shutdown: bool

    ghost predicate Valid() reads this, host { host != null ==> host.os == os }

    ghost function Snapshot(): Sys
      reads this, host, os
    {
      Sys(if host == null then None else Some(host.Snapshot()), os.Snapshot(), supervisor, launching, shutdown)
    }

    constructor (os: Os)
      requires os.Snapshot() == Procs({}, 0)
      ensures Valid() && Snapshot() == INIT && this.os == os
    {
      this.os, host, supervisor, launching, shutdown := os, null, Idle, {}, false;
    }

    method PollSection()
      requires Valid()
      modifies this`supervisor
      ensures Valid() && Snapshot() == Next(old(Snapshot()), Poll)
    {
      if host != null && (host.state.Running? || host.state.Reloading?) {
        if host.child !in os.live {
          supervisor := SawExit;
        }
      }
    }

    method DecideSection(now: int)
      requires Valid()
      modifies this`supervisor, host
      ensures Valid() && Snapshot() == Next(old(Snapshot()), Decide(now))
    {
      if host == null {
        supervisor := Idle;
      } else {
        var decision := host.OnChildExit(now, false);
        supervisor := if decision.Respawn? then Sleeping(decision.afterMs) else Idle;
      }
    }

    method RespawnSection(outcome: Outcome)
      requires Valid()
      modifies this`supervisor, host, os
      ensures Valid() && Snapshot() == Next(old(Snapshot()), DoRespawn(outcome))
    {
      if host != null {
        var _ := host.RespawnChild(outcome);
      }
      supervisor := Idle;
    }

    method ReloadSection(cfg: Config, outcome: Outcome, ms: nat)
      requires Valid() && host != null
      modifies host, os
      ensures Valid() && Snapshot() == Next(old(Snapshot()), ReloadHost(cfg, outcome, ms))
    {
      var _ := host.Reload(cfg, outcome, ms);
    }

    method InstallSection(pid: nat, cfg: Config)
      requires Valid()
      modifies this, os
      ensures Valid() && Snapshot() == Next(old(Snapshot()), LaunchInstalls(pid, cfg))
    {
      var launched := new HostHandle(os, pid, cfg);
      launched.state := Running(pid);
      if host != null {
        host.Drop();
      }
      host := launched;
      launching := launching - {pid};
    }

    method StopSection()
      requires Valid()
      modifies host, os
      ensures Valid() && Snapshot() == Next(old(Snapshot()), StopHost)
    {
      if host != null {
        host.Stop();
      }
    }
  }

  // --- no stray host ------------------------------------------------------------------------

  /** Every live group leader is the child of the held host, or still being launched. */
  predicate NoStray(s: Sys) {
    forall p | p in s.procs.live :: p in s.launching || (s.host.Some? && p == s.host.value.child)
  }

  /** Bookkeeping that every step keeps. */
  predicate Tidy(s: Sys) {
    && (forall p | p in s.procs.live :: p < s.procs.next)
    && (forall p | p in s.launching :: p < s.procs.next)
    && (s.host.Some? ==>
          var h := s.host.value; h.child == h.pgid && h.child < s.procs.next && h.child !in s.launching)
  }

  predicate ChildLive(s: Sys) { s.host.Some? && s.host.value.child in s.procs.live }

  /** Respawning over a child that is still alive, or replacing a host that gave up or was
      stopped (which is dropped without a kill) while its child is alive. */
  predicate Strands(s: Sys, a: Action) {
    ChildLive(s) &&
    ((a.DoRespawn? && a.outcome != SpawnFails) ||
     (a.LaunchInstalls? && (s.host.value.state.Stopped? || s.host.value.state.CrashLooping?)))
  }

  lemma TidyStep(s: Sys, a: Action)
    requires Tidy(s) && Enabled(s, a)
    ensures Tidy(Next(s, a))
  {
    hide Trimmed;
  }

  /** Exactly the stranding steps leave a live host that nobody holds. */
  lemma OnlyStrandingBreaks(s: Sys, a: Action)
    requires Tidy(s) && NoStray(s) && Enabled(s, a)
    ensures NoStray(Next(s, a)) <==> !Strands(s, a)
  {
    hide Trimmed;
    if Strands(s, a) {
      assert s.host.value.child in Next(s, a).procs.live;
    }
  }

  predicate Pending(sup: Supervisor) { sup.SawExit? || sup.Sleeping? || sup.Checked? }

  /** A live child is put in place while the supervisor is on its way to a respawn: from
      the poll that saw the exit, not only from its decision. */
  predicate Overlap(s: Sys, a: Action) {
    Pending(s.supervisor) &&
    ((a.ReloadHost? && a.outcome == Connects) || (a.LaunchInstalls? && a.pid in s.procs.live))
  }

  predicate NoOverlap(s: Sys, actions: seq<Action>)
    decreases |actions|
  {
    actions == [] || (!Overlap(s, actions[0]) && NoOverlap(Next(s, actions[0]), actions[1..]))
  }

  predicate Calm(s: Sys) {
    && Tidy(s) && NoStray(s)
    && (Pending(s.supervisor) ==> !ChildLive(s))
    && (s.host.Some? && (s.host.value.state.Stopped? || s.host.value.state.CrashLooping?) ==> !ChildLive(s))
  }

  lemma CalmStep(s: Sys, a: Action)
    requires Calm(s) && Enabled(s, a) && !Overlap(s, a)
    ensures Calm(Next(s, a))
  {
    TidyStep(s, a);
    OnlyStrandingBreaks(s, a);
    hide Trimmed, Tidy, NoStray;
    TidyFacts(s);
  }

  lemma TidyFacts(s: Sys)
    requires Tidy(s)
    ensures s.host.Some? ==> s.host.value.child == s.host.value.pgid < s.procs.next
  {
  }

  /** In every run in which no live child is put in place between the supervisor's poll
      and its respawn, every live host leader is the held one or still being launched. */
  lemma {:induction false} NoStrayWithoutOverlap(s: Sys, actions: seq<Action>)
    requires Calm(s) && IsRun(s, actions) && NoOverlap(s, actions)
    ensures Calm(RunFrom(s, actions)) && NoStray(RunFrom(s, actions))
    decreases |actions|
  {
    if actions != [] {
      CalmStep(s, actions[0]);
      NoStrayWithoutOverlap(Next(s, actions[0]), actions[1..]);
    }
  }

  /** From the start of the daemon on. */
  lemma NoStrayFromStart(actions: seq<Action>)
    requires IsRun(INIT, actions) && NoOverlap(INIT, actions)
    ensures NoStray(RunFrom(INIT, actions))
  {
    NoStrayWithoutOverlap(INIT, actions);
  }

  /** Whatever puts a live child in place, a reload, a respawn or an installation, puts it under
      supervision: when it exits, the next poll sees that. */
  lemma RevivedIsWatched(s: Sys, a: Action)
    requires Tidy(s) && Enabled(s, a) && Revives(s, a) && Next(s, a).supervisor.Idle?
    ensures ChildLive(Next(s, a))
    ensures var gone := ChildExits(Next(s, a).host.value.child);
            Enabled(Next(s, a), gone) && Next(Next(Next(s, a), gone), Poll).supervisor == SawExit
  {
  }

  /** A poll sees nothing while the child lives, nor once the host was stopped, has crashed or
      has given up. */
  lemma PollSeesExactly(s: Sys)
    requires s.supervisor.Idle?
    ensures Next(s, Poll).supervisor == SawExit <==>
              s.host.Some? && s.host.value.child !in s.procs.live
              && !(s.host.value.state.Starting? || s.host.value.state.Crashed? || s.host.value.state.CrashLooping?
                   || s.host.value.state.Stopped?)
    ensures Next(s, Poll) == s.(supervisor := Next(s, Poll).supervisor)
  {
  }

  /** A launch starts one child, and only where no host is held; when it is installed it is the host
      that launching yields, with its configuration and a clean record. */
  lemma LaunchExactly(s: Sys, pid: nat, cfg: Config)
    requires Tidy(s)
    ensures s.host.Some? ==> Next(s, LaunchStarts) == s
    ensures s.host.None? ==>
              Next(s, LaunchStarts) == s.(launching := s.launching + {s.procs.next}, procs := Spawned(s.procs))
    ensures var s' := Next(s, LaunchInstalls(pid, cfg));
            s'.host == Some(HostModel(pid, pid, Running(pid), cfg, [], 0, [])) && s'.launching == s.launching - {pid}
    ensures Launched(s.procs, cfg, Connects).0 == Next(s, LaunchInstalls(s.procs.next, cfg)).host
  {
  }

  /** The supervisor gives up its respawn when the host is gone or shutdown has been asked for in
      the meantime, and ends. */
  lemma SupervisorStandsDown(s: Sys, now: int, outcome: Outcome)
    ensures s.host.None? ==> Next(s, Decide(now)) == s.(supervisor := Idle) == Next(s, DoRespawn(outcome))
    ensures s.supervisor.Sleeping? ==>
              Next(Next(s, RequestShutdown), Wake).supervisor == Quit
              && (!s.shutdown ==> Next(s, Wake).supervisor == Checked)
    ensures s.supervisor.Idle? ==> Enabled(Next(s, RequestShutdown), LoopEnds) && Next(s, LoopEnds).supervisor == Quit
  {
  }

  // --- the excluded overlap does break it ----------------------------------------------------

  /** What the supervisor still has to do, if the host does not give up at `now`. */
  function Remaining(sup: Supervisor, now: int, outcome: Outcome): seq<Action> {
    match sup
    case SawExit => [Decide(now), Wake, DoRespawn(outcome)]
    case Sleeping(_) => [Wake, DoRespawn(outcome)]
    case Checked => [DoRespawn(outcome)]
    case _ => []
  }

  lemma RespawnOverLiveChild(s: Sys, outcome: Outcome)
    requires Tidy(s) && ChildLive(s) && s.supervisor.Checked? && outcome != SpawnFails
    ensures IsRun(s, [DoRespawn(outcome)]) && !NoStray(RunFrom(s, [DoRespawn(outcome)]))
  {
    var s' := Next(s, DoRespawn(outcome));
    assert [DoRespawn(outcome)][1..] == [];
    assert s.host.value.child in s'.procs.live;
    assert RunFrom(s, [DoRespawn(outcome)]) == RunFrom(s', []) == s';
  }

  lemma WakeOverLiveChild(s: Sys, outcome: Outcome)
    requires Tidy(s) && ChildLive(s) && s.supervisor.Sleeping? && !s.shutdown && outcome != SpawnFails
    ensures IsRun(s, [Wake, DoRespawn(outcome)]) && !NoStray(RunFrom(s, [Wake, DoRespawn(outcome)]))
  {
    assert [Wake, DoRespawn(outcome)][1..] == [DoRespawn(outcome)];
    RespawnOverLiveChild(Next(s, Wake), outcome);
  }

  lemma DecideOverLiveChild(s: Sys, now: int, outcome: Outcome)
    requires Tidy(s) && ChildLive(s) && s.supervisor.SawExit? && !s.shutdown && outcome != SpawnFails
    requires |Trimmed(s.host.value.crashTimes, now)| < MAX_CRASHES
    ensures IsRun(s, [Decide(now), Wake, DoRespawn(outcome)])
    ensures !NoStray(RunFrom(s, [Decide(now), Wake, DoRespawn(outcome)]))
  {
    assert [Decide(now), Wake, DoRespawn(outcome)][1..] == [Wake, DoRespawn(outcome)];
    WakeOverLiveChild(Next(s, Decide(now)), outcome);
  }

  /** Every such overlap breaks the property by the supervisor's own remaining steps: they
      respawn over the new child, which then lives on and is held by nobody. */
  lemma OverlapStrands(s: Sys, a: Action, now: int, outcome: Outcome)
    requires Tidy(s) && Enabled(s, a) && Overlap(s, a) && !s.shutdown && outcome != SpawnFails
    requires s.supervisor.SawExit? && a.ReloadHost? ==> |Trimmed(s.host.value.crashTimes, now)| < MAX_CRASHES
    ensures var s', rest := Next(s, a), Remaining(s.supervisor, now, outcome);
            IsRun(s', rest) && !NoStray(RunFrom(s', rest))
  {
    TidyStep(s, a);
    var s' := Next(s, a);
    assert ChildLive(s');
    assert s'.supervisor == s.supervisor && !s'.shutdown;
    match s.supervisor
    case SawExit => DecideOverLiveChild(s', now, outcome);
    case Sleeping(_) => WakeOverLiveChild(s', outcome);
    case Checked => RespawnOverLiveChild(s', outcome);
  }

  /** The one overlap that does not: with five recent exits the decision gives up, and leaves
      the host that was just reloaded alive, counted as crash-looping and watched by nobody. */
  lemma OverlapGivesUpLiveHost(s: Sys, cfg: Config, ms: nat, now: int)
    requires Tidy(s) && s.host.Some? && s.supervisor.SawExit?
    requires |Trimmed(s.host.value.crashTimes, now)| >= MAX_CRASHES
    ensures var s' := Next(Next(s, ReloadHost(cfg, Connects, ms)), Decide(now));
            ChildLive(s') && s'.host.value.state.CrashLooping? && s'.supervisor.Idle? && Next(s', Poll) == s'
  {
  }

  // --- such states are reached ------------------------------------------------------------------

  lemma Unfold(s: Sys, a: Action, rest: seq<Action>)
    ensures IsRun(s, [a] + rest) == (Enabled(s, a) && IsRun(Next(s, a), rest))
    ensures RunFrom(s, [a] + rest) == RunFrom(Next(s, a), rest)
  {
    assert ([a] + rest)[1..] == rest;
  }

  lemma {:induction false} RunInTwoParts(s: Sys, first: seq<Action>, second: seq<Action>)
    ensures IsRun(s, first + second) == (IsRun(s, first) && IsRun(RunFrom(s, first), second))
    ensures RunFrom(s, first + second) == RunFrom(RunFrom(s, first), second)
    decreases |first|
  {
    if first == [] {
      assert [] + second == second;
    } else {
      assert (first + second)[1..] == first[1..] + second;
      RunInTwoParts(Next(s, first[0]), first[1..], second);
    }
  }

  const TO_POLL := [LaunchStarts, LaunchInstalls(0, []), ChildExits(0), Poll]

  /** One host launched, its child gone, and the supervisor has seen it. */
  lemma PollIsReached()
    ensures var s := RunFrom(INIT, TO_POLL);
            IsRun(INIT, TO_POLL) && s == Sys(Some(NewHost(0, [])), Procs({}, 1), SawExit, {}, false)
  {
    var s1 := Next(INIT, LaunchStarts);
    var s2 := Next(s1, LaunchInstalls(0, []));
    var s3 := Next(s2, ChildExits(0));
    var s4 := Next(s3, Poll);
    assert s1.procs.live == {0} && s1.launching == {0};
    assert s3.procs.live == {} && s3.host == Some(NewHost(0, []));
    assert RunFrom(s4, []) == s4;
    Unfold(s3, Poll, []);
    Unfold(s2, ChildExits(0), [Poll]);
    Unfold(s1, LaunchInstalls(0, []), [ChildExits(0), Poll]);
    Unfold(INIT, LaunchStarts, [LaunchInstalls(0, []), ChildExits(0), Poll]);
    assert [Poll] + [] == [Poll] && [ChildExits(0)] + [Poll] == [ChildExits(0), Poll];
    assert [LaunchInstalls(0, [])] + [ChildExits(0), Poll] == [LaunchInstalls(0, []), ChildExits(0), Poll];
    assert TO_POLL == [LaunchStarts] + [LaunchInstalls(0, []), ChildExits(0), Poll];
  }

  const RELOAD := ReloadHost([], Connects, 0)

  /** A concrete bad run: the reload lands between the poll and the decision. */
  lemma ReloadBeforeDecisionStrands()
    ensures var run := TO_POLL + ([RELOAD] + [Decide(0), Wake, DoRespawn(Connects)]);
            IsRun(INIT, run) && !NoStray(RunFrom(INIT, run))
  {
    PollIsReached();
    var s := RunFrom(INIT, TO_POLL);
    assert Trimmed([], 0) == [];
    OverlapStrands(s, RELOAD, 0, Connects);
    Unfold(s, RELOAD, [Decide(0), Wake, DoRespawn(Connects)]);
    RunInTwoParts(INIT, TO_POLL, [RELOAD] + [Decide(0), Wake, DoRespawn(Connects)]);
  }

  /** And the one in which it lands in the sleep that follows the decision. */
  lemma ReloadInSleepStrands()
    ensures var run := TO_POLL + ([Decide(0)] + ([RELOAD] + [Wake, DoRespawn(Connects)]));
            IsRun(INIT, run) && !NoStray(RunFrom(INIT, run))
  {
    PollIsReached();
    var s := RunFrom(INIT, TO_POLL);
    assert Trimmed([], 0) == [];
    var asleep := Next(s, Decide(0));
    assert asleep.supervisor == Sleeping(200);
    TidyStep(s, Decide(0));
    OverlapStrands(asleep, RELOAD, 0, Connects);
    Unfold(asleep, RELOAD, [Wake, DoRespawn(Connects)]);
    Unfold(s, Decide(0), [RELOAD] + [Wake, DoRespawn(Connects)]);
    RunInTwoParts(INIT, TO_POLL, [Decide(0)] + ([RELOAD] + [Wake, DoRespawn(Connects)]));
  }

  // --- the backoff that is really used ------------------------------------------------------------

  /** While the supervisor is about to decide, or could be, the backoff index is 0. */
  predicate FreshBackoff(s: Sys) {
    s.host.Some? ==>
      var h := s.host.value; Watched(h) || s.supervisor.SawExit? ==> h.backoff == 0
  }

  predicate ReloadsSpawn(actions: seq<Action>) {
    forall i | 0 <= i < |actions| :: actions[i].ReloadHost? ==> actions[i].outcome != SpawnFails
  }

  /** Exactly one kind of step ends this: a reload that cannot start its process, over an
      index that has moved. */
  lemma FreshBackoffStep(s: Sys, a: Action)
    requires FreshBackoff(s) && Enabled(s, a)
    ensures FreshBackoff(Next(s, a)) <==> !(a.ReloadHost? && a.outcome == SpawnFails && s.host.value.backoff > 0)
    ensures a.Decide? && Next(s, a).supervisor.Sleeping? ==> Next(s, a).supervisor.afterMs == BACKOFF_MS[0]
  {
    hide Trimmed;
  }

  /** The growing backoff is never used: in every run in which each reload manages to start
      its process, overlaps or not, every respawn decision waits exactly 200 ms. */
  lemma {:induction false} EveryWaitIsTheFirst(s: Sys, actions: seq<Action>, i: nat)
    requires FreshBackoff(s) && IsRun(s, actions) && ReloadsSpawn(actions) && i < |actions| && actions[i].Decide?
    ensures var after := RunFrom(s, actions[..i + 1]);
            after.supervisor.Sleeping? ==> after.supervisor.afterMs == 200
    decreases i
  {
    var rest := actions[1..];
    assert forall k | 0 <= k < |rest| :: rest[k] == actions[k + 1];
    FreshBackoffStep(s, actions[0]);
    assert actions[..i + 1][0] == actions[0] && actions[..i + 1][1..] == rest[..i];
    if i > 0 {
      EveryWaitIsTheFirst(Next(s, actions[0]), rest, i - 1);
    } else {
      assert RunFrom(Next(s, actions[0]), rest[..0]) == Next(s, actions[0]);
    }
  }

  /** A reload that cannot start its process keeps the index, whatever it is, and leaves the
      host watched: the next decision waits as long as that index says. */
  lemma FailedReloadKeepsBackoff(s: Sys, cfg: Config, ms: nat, now: int)
    requires s.host.Some? && s.supervisor.Idle? && s.host.value.child == s.host.value.pgid
    requires |Trimmed(s.host.value.crashTimes, now)| < MAX_CRASHES
    ensures Next(Next(Next(s, ReloadHost(cfg, SpawnFails, ms)), Poll), Decide(now)).supervisor
         == Sleeping(BACKOFF_MS[Min(s.host.value.backoff, 4)])
  {
  }

  const FAILED_RELOAD := ReloadHost([], SpawnFails, 0)

  /** The supervisor sees an exit, decides, and its respawn cannot start. */
  function FailedRespawn(now: int): seq<Action> { [Poll, Decide(now), Wake, DoRespawn(SpawnFails)] }

  /** A first exit and then `n` reloads that cannot start either, each more than 30 s after
      the last. */
  function FailingRun(n: nat): seq<Action> {
    if n == 0 then [LaunchStarts, LaunchInstalls(0, []), ChildExits(0)] + FailedRespawn(0)
    else FailingRun(n - 1) + ([FAILED_RELOAD] + FailedRespawn(n * (CRASH_WINDOW + 1)))
  }

  /** Where that run ends. */
  function Failing(n: nat): Sys {
    Sys(Some(HostModel(0, 0, Crashed, [], [n * (CRASH_WINDOW + 1)], Min(n + 1, 4), [])), Procs({}, 1), Idle, {}, false)
  }

  lemma FailedRespawnRun(s: Sys, now: int)
    requires s.supervisor.Idle? && s.host.Some? && Watched(s.host.value) && !s.shutdown
    requires s.host.value.child !in s.procs.live && Trimmed(s.host.value.crashTimes, now) == []
    ensures var h := s.host.value;
            && IsRun(s, FailedRespawn(now))
            && RunFrom(s, FailedRespawn(now))
               == s.(host := Some(h.(state := Crashed, crashTimes := [now], backoff := Min(h.backoff + 1, 4))))
  {
    var s1 := Next(s, Poll);
    var s2 := Next(s1, Decide(now));
    var s3 := Next(s2, Wake);
    assert s1 == s.(supervisor := SawExit);
    assert Trimmed(s.host.value.crashTimes, now) + [now] == [now];
    assert s3.supervisor == Checked;
    assert RunFrom(Next(s3, DoRespawn(SpawnFails)), []) == Next(s3, DoRespawn(SpawnFails));
    Unfold(s, Poll, [Decide(now), Wake, DoRespawn(SpawnFails)]);
    Unfold(s1, Decide(now), [Wake, DoRespawn(SpawnFails)]);
    Unfold(s2, Wake, [DoRespawn(SpawnFails)]);
    Unfold(s3, DoRespawn(SpawnFails), []);
    assert FailedRespawn(now) == [Poll] + [Decide(now), Wake, DoRespawn(SpawnFails)];
    assert [Decide(now), Wake, DoRespawn(SpawnFails)] == [Decide(now)] + [Wake, DoRespawn(SpawnFails)];
    assert [Wake, DoRespawn(SpawnFails)] == [Wake] + [DoRespawn(SpawnFails)];
    assert [DoRespawn(SpawnFails)] == [DoRespawn(SpawnFails)] + [];
  }

  /** The growing backoff is reached from the start, by failed respawns followed by reloads
      that cannot start: after `n` of them the next wait is the one at index n + 1. */
  lemma {:induction false} GrowingBackoffIsReached(n: nat, now: int)
    requires now > n * (CRASH_WINDOW + 1) + CRASH_WINDOW
    ensures IsRun(INIT, FailingRun(n)) && RunFrom(INIT, FailingRun(n)) == Failing(n)
    ensures Next(Next(Next(Failing(n), FAILED_RELOAD), Poll), Decide(now)).supervisor
         == Sleeping(BACKOFF_MS[Min(n + 1, 4)])
  {
    hide FailedRespawn;
    if n == 0 {
      var start := [LaunchStarts, LaunchInstalls(0, []), ChildExits(0)];
      FirstExit();
      RunInTwoParts(INIT, start, FailedRespawn(0));
      FailedRespawnRun(RunFrom(INIT, start), 0);
    } else {
      var at := n * (CRASH_WINDOW + 1);
      var before := Failing(n - 1);
      GrowingBackoffIsReached(n - 1, at);
      RunInTwoParts(INIT, FailingRun(n - 1), [FAILED_RELOAD] + FailedRespawn(at));
      Unfold(before, FAILED_RELOAD, FailedRespawn(at));
      OldExitsTrimmed(at - (CRASH_WINDOW + 1), at);
      FailedRespawnRun(Next(before, FAILED_RELOAD), at);
    }
    OldExitsTrimmed(n * (CRASH_WINDOW + 1), now);
    FailedReloadKeepsBackoff(Failing(n), [], 0, now);
  }

  lemma OldExitsTrimmed(exit: int, now: int)
    requires now - exit > CRASH_WINDOW
    ensures Trimmed([exit], now) == []
  {
    assert [exit][1..] == [];
  }

  lemma FirstExit()
    ensures var start := [LaunchStarts, LaunchInstalls(0, []), ChildExits(0)];
            IsRun(INIT, start) && RunFrom(INIT, start) == Sys(Some(NewHost(0, [])), Procs({}, 1), Idle, {}, false)
  {
    var start := [LaunchStarts, LaunchInstalls(0, []), ChildExits(0)];
    PollIsReached();
    assert TO_POLL == start + [Poll];
    RunInTwoParts(INIT, start, [Poll]);
    var s1 := Next(INIT, LaunchStarts);
    var s2 := Next(s1, LaunchInstalls(0, []));
    var s3 := Next(s2, ChildExits(0));
    assert s1.procs.live == {0} && s1.launching == {0} && s3.procs.live == {};
    assert start == [LaunchStarts] + [LaunchInstalls(0, []), ChildExits(0)];
    assert [LaunchInstalls(0, []), ChildExits(0)] == [LaunchInstalls(0, [])] + [ChildExits(0)];
    assert [ChildExits(0)] == [ChildExits(0)] + [];
    Unfold(INIT, LaunchStarts, [LaunchInstalls(0, []), ChildExits(0)]);
    Unfold(s1, LaunchInstalls(0, []), [ChildExits(0)]);
    Unfold(s2, ChildExits(0), []);
  }

  /** A crashed host with an idle supervisor: nobody will respawn it. */
  predicate Abandoned(s: Sys) {
    s.supervisor.Idle? && s.host.Some? && s.host.value.state.Crashed?
  }

  predicate Replaces(a: Action) { a.ReloadHost? || a.LaunchInstalls? || a.StopHost? || a.LoopEnds? }

  /** A respawn that fails is never retried: the host stays crashed and the supervisor idle
      through every run until someone reloads, installs or stops a host or the daemon ends. */
  lemma {:induction false} FailedRespawnIsFinal(s: Sys, outcome: Outcome, actions: seq<Action>)
    requires s.supervisor.Checked? && s.host.Some? && s.host.value.state.Crashed? && outcome != Connects
    requires IsRun(Next(s, DoRespawn(outcome)), actions)
    requires forall i | 0 <= i < |actions| :: !Replaces(actions[i])
    ensures Abandoned(RunFrom(Next(s, DoRespawn(outcome)), actions))
  {
    StaysAbandoned(Next(s, DoRespawn(outcome)), actions);
  }

  lemma {:induction false} StaysAbandoned(s: Sys, actions: seq<Action>)
    requires Abandoned(s) && IsRun(s, actions) && forall i | 0 <= i < |actions| :: !Replaces(actions[i])
    ensures Abandoned(RunFrom(s, actions))
    decreases |actions|
  {
    if actions != [] {
      assert Abandoned(Next(s, actions[0]));
      StaysAbandoned(Next(s, actions[0]), actions[1..]);
    }
  }

  // --- shutdown ---------------------------------------------------------------------------------------

  /** The action puts a live child into the held host. */
  predicate Revives(s: Sys, a: Action) {
    || (s.host.Some? && (a.DoRespawn? || a.ReloadHost?) && a.outcome == Connects)
    || (a.LaunchInstalls? && a.pid in s.procs.live)
  }

  /** The action takes a live held child away without such a successor. */
  predicate Ends(s: Sys, a: Action) {
    match a
    case ChildExits(pid) => s.host.Some? && pid == s.host.value.child
    case DoRespawn(outcome) => outcome == NeverConnects
    case ReloadHost(_, outcome, _) => outcome != Connects
    case LaunchInstalls(pid, _) => pid !in s.procs.live
    case StopHost => true
    case _ => false
  }

  /** The held child is alive after a step exactly when the step revives it, or it was alive
      and the step does not end it. */
  lemma ChildLiveStep(s: Sys, a: Action)
    requires Tidy(s) && Enabled(s, a)
    ensures ChildLive(Next(s, a)) <==> Revives(s, a) || (ChildLive(s) && !Ends(s, a))
  {
    hide Trimmed;
  }

  lemma {:induction false} TidyRun(s: Sys, actions: seq<Action>)
    requires Tidy(s) && IsRun(s, actions)
    ensures Tidy(RunFrom(s, actions))
    decreases |actions|
  {
    hide Tidy;
    if actions != [] {
      TidyStep(s, actions[0]);
      TidyRun(Next(s, actions[0]), actions[1..]);
    }
  }

  /** The last step of a run, after what comes before it. */
  lemma LastStep(s: Sys, actions: seq<Action>, n: nat)
    requires n < |actions| && Tidy(s) && IsRun(s, actions)
    ensures IsRun(s, actions[..n]) && Tidy(RunFrom(s, actions[..n]))
    ensures Enabled(RunFrom(s, actions[..n]), actions[n])
    ensures RunFrom(s, actions[..n + 1]) == Next(RunFrom(s, actions[..n]), actions[n])
  {
    hide Enabled, Next, Tidy;
    var front := actions[..n];
    assert actions == front + actions[n..] && actions[n..] == [actions[n]] + actions[n + 1..];
    assert actions[..n + 1] == front + [actions[n]] && [actions[n]] == [actions[n]] + [];
    RunInTwoParts(s, front, actions[n..]);
    RunInTwoParts(s, front, [actions[n]]);
    Unfold(RunFrom(s, front), actions[n], actions[n + 1..]);
    Unfold(RunFrom(s, front), actions[n], []);
    TidyRun(s, front);
  }

  /** Action `i` revives the host and nothing after it ends that. */
  predicate RevivedLast(s: Sys, actions: seq<Action>, i: nat) {
    && i < |actions| && Revives(RunFrom(s, actions[..i]), actions[i])
    && forall j | i < j < |actions| :: !Ends(RunFrom(s, actions[..j]), actions[j])
  }

  lemma RevivedLastGrows(s: Sys, actions: seq<Action>, i: nat)
    requires actions != [] && i < |actions| - 1
    ensures var n := |actions| - 1;
            RevivedLast(s, actions, i)
            <==> RevivedLast(s, actions[..n], i) && !Ends(RunFrom(s, actions[..n]), actions[n])
  {
    hide Revives, Ends, RunFrom;
    var n := |actions| - 1;
    assert forall j | 0 <= j < n :: actions[..n][..j] == actions[..j] && actions[..n][j] == actions[j];
  }

  /** From a host that is not alive, the held child is alive at the end of a run exactly when
      some action revived it and none after that ended it. */
  lemma {:induction false} LiveAtEndExactly(s: Sys, actions: seq<Action>)
    requires Tidy(s) && !ChildLive(s) && IsRun(s, actions)
    ensures ChildLive(RunFrom(s, actions)) <==> exists i: nat :: RevivedLast(s, actions, i)
    decreases |actions|
  {
    hide Tidy, Enabled, Next, Revives, Ends, ChildLive;
    if actions != [] {
      var n := |actions| - 1;
      var front := actions[..n];
      assert actions[..n + 1] == actions;
      LastStep(s, actions, n);
      LiveAtEndExactly(s, front);
      ChildLiveStep(RunFrom(s, front), actions[n]);
      hide RunFrom;
      forall i: nat | i < n
        ensures RevivedLast(s, actions, i) <==> RevivedLast(s, front, i) && !Ends(RunFrom(s, front), actions[n])
      {
        RevivedLastGrows(s, actions, i);
      }
      assert RevivedLast(s, actions, n) <==> Revives(RunFrom(s, front), actions[n]);
      if exists i: nat :: RevivedLast(s, front, i) {
        var i: nat :| RevivedLast(s, front, i);
        assert i < n;
      }
    }
  }

  lemma StoppedDown(s: Sys)
    requires Tidy(s)
    ensures Tidy(Next(s, StopHost)) && !ChildLive(Next(s, StopHost))
  {
  }

  /** When the host was stopped, in every run that follows the held child is ever alive again
      if and only if some action revives it: a respawn or a reload that connects, or the
      installation of a host that was being launched. */
  lemma StopIsFinalExactly(s: Sys, actions: seq<Action>)
    requires Tidy(s) && IsRun(Next(s, StopHost), actions)
    ensures var down := Next(s, StopHost);
            (exists n: nat :: n <= |actions| && ChildLive(RunFrom(down, actions[..n])))
            <==> exists i: nat :: i < |actions| && Revives(RunFrom(down, actions[..i]), actions[i])
  {
    var down := Next(s, StopHost);
    StoppedDown(s);
    hide Tidy, Next, Revives, ChildLive, RunFrom, IsRun;
    if exists n: nat :: n <= |actions| && ChildLive(RunFrom(down, actions[..n])) {
      var n: nat :| n <= |actions| && ChildLive(RunFrom(down, actions[..n]));
      LiveNeedsRevival(down, actions, n);
    }
    if i: nat :| i < |actions| && Revives(RunFrom(down, actions[..i]), actions[i]) {
      RevivalLives(down, actions, i);
      assert ChildLive(RunFrom(down, actions[..i + 1]));
    }
  }

  lemma LiveNeedsRevival(s: Sys, actions: seq<Action>, n: nat)
    requires Tidy(s) && !ChildLive(s) && IsRun(s, actions) && n <= |actions| && ChildLive(RunFrom(s, actions[..n]))
    ensures exists i: nat :: i < |actions| && Revives(RunFrom(s, actions[..i]), actions[i])
  {
    hide Tidy, Revives, Ends, ChildLive, RunFrom, IsRun;
    assert actions == actions[..n] + actions[n..];
    RunInTwoParts(s, actions[..n], actions[n..]);
    LiveAtEndExactly(s, actions[..n]);
    var i: nat :| RevivedLast(s, actions[..n], i);
    assert actions[..n][..i] == actions[..i] && actions[..n][i] == actions[i];
  }

  lemma RevivalLives(s: Sys, actions: seq<Action>, i: nat)
    requires Tidy(s) && IsRun(s, actions) && i < |actions| && Revives(RunFrom(s, actions[..i]), actions[i])
    ensures ChildLive(RunFrom(s, actions[..i + 1]))
  {
    hide Tidy, Enabled, Next, Revives, Ends, ChildLive, RunFrom, IsRun;
    LastStep(s, actions, i);
    ChildLiveStep(RunFrom(s, actions[..i]), actions[i]);
  }

  /** After the stop: no held child is alive, and no respawn is past its shutdown check. */
  predicate Down(s: Sys) { s.shutdown && !ChildLive(s) && !s.supervisor.Checked? }

  lemma {:induction false} StaysDown(s: Sys, actions: seq<Action>)
    requires Down(s) && IsRun(s, actions)
    requires forall i | 0 <= i < |actions| :: !actions[i].ReloadHost? && !actions[i].LaunchInstalls?
    requires s.host.Some? ==> s.host.value.child < s.procs.next
    ensures Down(RunFrom(s, actions))
    decreases |actions|
  {
    hide Trimmed;
    if actions != [] {
      assert Down(Next(s, actions[0]));
      StaysDown(Next(s, actions[0]), actions[1..]);
    }
  }

  /** Without requests of connection threads on the way, the stop is final when the supervisor
      is not between its shutdown check and its respawn. */
  lemma QuietStopIsFinal(s: Sys, actions: seq<Action>)
    requires Tidy(s) && s.shutdown && !s.supervisor.Checked? && IsRun(Next(s, StopHost), actions)
    requires forall i | 0 <= i < |actions| :: !actions[i].ReloadHost? && !actions[i].LaunchInstalls?
    ensures !ChildLive(RunFrom(Next(s, StopHost), actions))
  {
    StaysDown(Next(s, StopHost), actions);
  }

  /** Each kind of revival does happen after a stop: the respawn past its check, the reload of a
      connection thread that waited for the lock, after which the supervisor has ended, and the
      installation of a host whose launch was under way, even where none was held. */
  lemma LateRequestsRevive(s: Sys, cfg: Config, ms: nat, pid: nat)
    requires Tidy(s) && s.shutdown
    ensures var down := Next(s, StopHost);
            && (s.supervisor.Checked? && s.host.Some? ==>
                  IsRun(down, [DoRespawn(Connects)]) && ChildLive(RunFrom(down, [DoRespawn(Connects)])))
            && (s.supervisor.Idle? && s.host.Some? ==>
                  var late := [LoopEnds] + [ReloadHost(cfg, Connects, ms)];
                  && IsRun(down, late) && ChildLive(RunFrom(down, late)) && RunFrom(down, late).supervisor.Quit?)
            && (pid in s.launching && pid in s.procs.live ==>
                  IsRun(down, [LaunchInstalls(pid, cfg)]) && ChildLive(RunFrom(down, [LaunchInstalls(pid, cfg)])))
  {
    var down := Next(s, StopHost);
    assert [DoRespawn(Connects)] == [DoRespawn(Connects)] + [];
    assert [ReloadHost(cfg, Connects, ms)] == [ReloadHost(cfg, Connects, ms)] + [];
    assert [LaunchInstalls(pid, cfg)] == [LaunchInstalls(pid, cfg)] + [];
    Unfold(down, DoRespawn(Connects), []);
    Unfold(down, LoopEnds, [ReloadHost(cfg, Connects, ms)]);
    Unfold(Next(down, LoopEnds), ReloadHost(cfg, Connects, ms), []);
    Unfold(down, LaunchInstalls(pid, cfg), []);
  }

  /** The end of the daemon: the host is stopped, the supervisor joined and the state given up,
      which drops the host unless a connection thread holds the state still. Those threads are
      not joined: `actions` is everything that happens from the stop to the end of the process,
      their late requests included. */
  function TornDown(s: Sys, actions: seq<Action>, stillHeld: bool): Sys {
    var end := RunFrom(Next(s, StopHost), actions);
    if stillHeld || end.host.None? then end else end.(procs := Dropped(end.host.value, end.procs))
  }

  predicate GaveUp(s: Sys) { s.host.Some? && s.host.value.state.CrashLooping? }

  predicate StoppedIsDead(s: Sys) { s.host.Some? && s.host.value.state.Stopped? ==> !ChildLive(s) }

  lemma {:induction false} StoppedStaysDead(s: Sys, actions: seq<Action>)
    requires Tidy(s) && StoppedIsDead(s) && IsRun(s, actions)
    ensures StoppedIsDead(RunFrom(s, actions))
    decreases |actions|
  {
    hide Trimmed, Tidy;
    if actions != [] {
      TidyStep(s, actions[0]);
      TidyFacts(s);
      StoppedStaysDead(Next(s, actions[0]), actions[1..]);
    }
  }

  /** The held host outlives the daemon exactly when some action after the stop revived it and
      none after that ended it, and either a connection thread still holds the state or the
      host was given up, which a drop does not kill. */
  lemma TeardownLeavesHostExactly(s: Sys, actions: seq<Action>, stillHeld: bool)
    requires Tidy(s) && IsRun(Next(s, StopHost), actions)
    ensures ChildLive(TornDown(s, actions, stillHeld)) <==>
              (exists i: nat :: RevivedLast(Next(s, StopHost), actions, i))
              && (stillHeld || GaveUp(RunFrom(Next(s, StopHost), actions)))
  {
    StoppedDown(s);
    StoppedStaysDead(Next(s, StopHost), actions);
    TidyRun(Next(s, StopHost), actions);
    LiveAtEndExactly(Next(s, StopHost), actions);
    TidyFacts(RunFrom(Next(s, StopHost), actions));
    hide Tidy, Next, RunFrom, RevivedLast;
  }

  lemma CalmStop(s: Sys)
    requires Calm(s) && s.shutdown
    ensures Calm(Next(s, StopHost))
  {
    CalmStep(s, StopHost);
  }

  /** No host at all outlives the daemon, in a run without overlaps, exactly when no launch is
      under way at its end with its child alive, and no thread holds the state over a revived
      host. A thread that launches holds the state. */
  lemma NothingOutlivesExactly(s: Sys, actions: seq<Action>, stillHeld: bool)
    requires Calm(s) && s.shutdown
    requires IsRun(Next(s, StopHost), actions) && NoOverlap(Next(s, StopHost), actions)
    requires RunFrom(Next(s, StopHost), actions).launching != {} ==> stillHeld
    ensures var end := RunFrom(Next(s, StopHost), actions);
            TornDown(s, actions, stillHeld).procs.live == {} <==>
              (forall p | p in end.launching :: p !in end.procs.live)
              && !(stillHeld && exists i: nat :: RevivedLast(Next(s, StopHost), actions, i))
  {
    CalmStop(s);
    StoppedDown(s);
    NoStrayWithoutOverlap(Next(s, StopHost), actions);
    LiveAtEndExactly(Next(s, StopHost), actions);
    hide Next, RunFrom, RevivedLast, IsRun, NoOverlap;
  }
}
