/** The Extension Host child: launch, reload, respawn, stop, and the crash window with its
    backoff. Each child leads its own process group, so a group is named by its leader. */
module Host {
  import opened Text

  const MAX_CRASHES := 5
  const CRASH_WINDOW := 30_000_000_000 // nanoseconds
  const BACKOFF_MS := [200, 500, 1000, 2000, 4000]
  const MAX_SAMPLES := 32

  datatype HostState = Starting | Running(pid: nat) | Reloading | Crashed | CrashLooping(attempts: nat) | Stopped

  datatype Decision = Respawn(afterMs: nat) | PromptTty | GaveUpCrashLooping

  /** The names of the extensions the host is told to load, in order. */
  type Config = seq<string>

  /** How starting a child turns out. */
  datatype Outcome = SpawnFails | NeverConnects | Connects

  /** The group leaders alive, and the next process to be created. */
  datatype Procs = Procs(live: set<nat>, next: nat)

  datatype HostModel = HostModel(child: nat, pgid: nat, state: HostState, cfg: Config,
                                 crashTimes: seq<int>, backoff: nat, samples: seq<nat>)

  // --- what each operation does ---------------------------------------------------------

  function Killed(procs: Procs, pgid: nat): Procs { procs.(live := procs.live - {pgid}) }

  function Spawned(procs: Procs): Procs { Procs(procs.live + {procs.next}, procs.next + 1) }

  function Launched(procs: Procs, cfg: Config, outcome: Outcome): (Option<HostModel>, Procs) {
    match outcome
    case SpawnFails => (None, procs)
    case NeverConnects => (None, Killed(Spawned(procs), procs.next))
    case Connects =>
      (Some(HostModel(procs.next, procs.next, Running(procs.next), cfg, [], 0, [])), Spawned(procs))
  }

  function Recorded(samples: seq<nat>, ms: nat): seq<nat> {
    var s := samples + [ms];
    if |s| > MAX_SAMPLES then s[|s| - MAX_SAMPLES..] else s
  }

  function Reloaded(h: HostModel, procs: Procs, cfg: Config, outcome: Outcome, ms: nat): (HostModel, Procs) {
    var killed := Killed(procs, h.pgid);
    var pid := procs.next;
    var renewed := h.(child := pid, pgid := pid, cfg := cfg, backoff := 0);
    match outcome
    case SpawnFails => (h.(state := Reloading), killed)
    case NeverConnects => (renewed.(state := Crashed), Killed(Spawned(killed), pid))
    case Connects => (renewed.(state := Running(pid), samples := Recorded(h.samples, ms)), Spawned(killed))
  }

  function Respawned(h: HostModel, procs: Procs, outcome: Outcome): (HostModel, Procs) {
    var pid := procs.next;
    var renewed := h.(child := pid, pgid := pid);
    match outcome
    case SpawnFails => (h, procs)
    case NeverConnects => (renewed.(state := Crashed), Killed(Spawned(procs), pid))
    case Connects => (renewed.(state := Running(pid), backoff := 0), Spawned(procs))
  }

  function StoppedHost(h: HostModel, procs: Procs): (HostModel, Procs) {
    (h.(state := Stopped), Killed(procs, h.pgid))
  }

  /** Dropping the handle kills the group, unless the host was stopped or gave up. */
  function Dropped(h: HostModel, procs: Procs): Procs {
    if h.state.Stopped? || h.state.CrashLooping? then procs else Killed(procs, h.pgid)
  }

  /** `duration_since`, which is zero when `then` is later. */
  function Since(now: int, earlier: int): int { if now >= earlier then now - earlier else 0 }

  function Trimmed(times: seq<int>, now: int): seq<int> {
    if times != [] && Since(now, times[0]) > CRASH_WINDOW then Trimmed(times[1..], now) else times
  }

  function Min(a: nat, b: nat): nat { if a <= b then a else b }

  function ChildExited(h: HostModel, now: int, tty: bool): (HostModel, Decision) {
    var times := Trimmed(h.crashTimes, now) + [now];
    if |times| > MAX_CRASHES then (h.(state := CrashLooping(|times|), crashTimes := times), GaveUpCrashLooping)
    else if tty then (h.(state := Crashed, crashTimes := times), PromptTty)
    else
      (h.(state := Crashed, crashTimes := times, backoff := Min(h.backoff + 1, |BACKOFF_MS| - 1)),
       Respawn(BACKOFF_MS[Min(h.backoff, |BACKOFF_MS| - 1)]))
  }

  // --- the operations ----------------------------------------------------------------------

  class Os {
    var live: set<nat>
    var next: nat

    ghost function Snapshot(): Procs reads this { Procs(live, next) }

    constructor ()
      ensures Snapshot() == Procs({}, 0)
    {
      live, next := {}, 0;
    }

    method SpawnChild() returns (pid: nat)
      modifies this
      ensures Snapshot() == Spawned(old(Snapshot())) && pid == old(next)
    {
      pid := next;
      live, next := live + {pid}, next + 1;
    }

    method KillPg(pgid: nat)
      modifies this
      ensures Snapshot() == Killed(old(Snapshot()), pgid)
    {
      live := live - {pgid};
    }
  }

  class HostHandle {
    const os: Os
    var child: nat
    var pgid: nat
    var state: HostState
    var cfg: Config
    var crashTimes: seq<int>
    var backoff: nat
    var samples: seq<nat>

    ghost function Snapshot(): HostModel reads this {
      HostModel(child, pgid, state, cfg, crashTimes, backoff, samples)
    }

    constructor (os: Os, pid: nat, cfg: Config)
      ensures Snapshot() == HostModel(pid, pid, Starting, cfg, [], 0, []) && this.os == os
    {
      this.os, child, pgid, state, this.cfg, crashTimes, backoff, samples := os, pid, pid, Starting, cfg, [], 0, [];
    }

    static method Launch(os: Os, cfg: Config, outcome: Outcome) returns (host: HostHandle?)
      modifies os
      ensures var (h, procs) := Launched(old(os.Snapshot()), cfg, outcome);
              os.Snapshot() == procs && (host == null <==> h.None?)
              && (host != null ==> fresh(host) && host.os == os && host.Snapshot() == h.value)
    {
      if outcome == SpawnFails {
        return null;
      }
      var pid := os.SpawnChild();
      host := new HostHandle(os, pid, cfg);
      if outcome == Connects {
        host.state := Running(pid);
      } else {
        host.KillGroup();
        host := null;
      }
    }

    method KillGroup()
      modifies os
      ensures os.Snapshot() == Killed(old(os.Snapshot()), pgid)
    {
      os.KillPg(pgid);
    }

    method Reload(cfg: Config, outcome: Outcome, ms: nat) returns (ok: bool)
      modifies this, os
      ensures (Snapshot(), os.Snapshot()) == Reloaded(old(Snapshot()), old(os.Snapshot()), cfg, outcome, ms)
      ensures ok <==> outcome == Connects
    {
      state := Reloading;
      KillGroup();
      if outcome == SpawnFails {
        return false;
      }
      var pid := os.SpawnChild();
      child, pgid, this.cfg, backoff := pid, pid, cfg, 0;
      if outcome == Connects {
        RecordReload(ms);
        state := Running(pid);
        return true;
      }
      KillGroup();
      state := Crashed;
      return false;
    }

    method RecordReload(ms: nat)
      modifies this`samples
      ensures samples == Recorded(old(samples), ms)
    {
      samples := samples + [ms];
      ghost var all := samples;
      while |samples| > MAX_SAMPLES
        invariant |samples| <= |all| && samples == all[|all| - |samples|..]
        invariant |all| > MAX_SAMPLES ==> |samples| >= MAX_SAMPLES
        invariant |all| <= MAX_SAMPLES ==> samples == all
        decreases |samples|
      {
        samples := samples[1..];
      }
    }

    method RespawnChild(outcome: Outcome) returns (ok: bool)
      modifies this, os
      ensures (Snapshot(), os.Snapshot()) == Respawned(old(Snapshot()), old(os.Snapshot()), outcome)
      ensures ok <==> outcome == Connects
    {
      if outcome == SpawnFails {
        return false;
      }
      var pid := os.SpawnChild();
      child, pgid := pid, pid;
      state := Starting;
      if outcome == Connects {
        backoff := 0;
        state := Running(pid);
        return true;
      }
      KillGroup();
      state := Crashed;
      return false;
    }

    method Stop()
      modifies this, os
      ensures (Snapshot(), os.Snapshot()) == StoppedHost(old(Snapshot()), old(os.Snapshot()))
    {
      KillGroup();
      state := Stopped;
    }

    method Drop()
      modifies os
      ensures os.Snapshot() == Dropped(Snapshot(), old(os.Snapshot()))
    {
      if !(state.Stopped? || state.CrashLooping?) {
        KillGroup();
      }
    }

    method OnChildExit(now: int, tty: bool) returns (decision: Decision)
      modifies this
      ensures (Snapshot(), decision) == ChildExited(old(Snapshot()), now, tty)
    {
      state := Crashed;
      while crashTimes != [] && Since(now, crashTimes[0]) > CRASH_WINDOW
        invariant Trimmed(crashTimes, now) == Trimmed(old(crashTimes), now)
        invariant Snapshot() == old(Snapshot()).(state := Crashed, crashTimes := crashTimes)
        decreases |crashTimes|
      {
        crashTimes := crashTimes[1..];
      }
      crashTimes := crashTimes + [now];
      if |crashTimes| > MAX_CRASHES {
        state := CrashLooping(|crashTimes|);
        return GaveUpCrashLooping;
      }
      if tty {
        return PromptTty;
      }
      var after := BACKOFF_MS[Min(backoff, |BACKOFF_MS| - 1)];
      backoff := Min(backoff + 1, |BACKOFF_MS| - 1);
      return Respawn(after);
    }
  }

  // --- what an operation leaves ----------------------------------------------------------------

  /** The held child leads its own group, and processes are numbered from the next on. */
  predicate Fits(h: HostModel, procs: Procs) {
    h.child == h.pgid < procs.next && forall p | p in procs.live :: p < procs.next
  }

  /** The child is alive and the state says so, with its process. */
  predicate Runs(h: HostModel, procs: Procs) { h.child in procs.live && h.state == Running(h.child) }

  predicate Dead(h: HostModel, procs: Procs) { h.child !in procs.live && !h.state.Running? }

  /** Launching yields a running host with this configuration exactly when the child connects,
      and otherwise leaves the processes that were there, and no other, alive. */
  lemma LaunchLeaves(procs: Procs, cfg: Config, outcome: Outcome)
    requires forall p | p in procs.live :: p < procs.next
    ensures var (h, procs') := Launched(procs, cfg, outcome);
            if outcome == Connects then
              && h.Some? && Runs(h.value, procs') && Fits(h.value, procs') && h.value.cfg == cfg
              && h.value.crashTimes == [] && h.value.backoff == 0 && h.value.samples == []
              && procs'.live == procs.live + {h.value.child} && h.value.child !in procs.live
            else h.None? && procs'.live == procs.live
  {
  }

  /** A reload ends the old child whatever happens; exactly when the new one connects, the host
      runs it with the new configuration, and otherwise nothing of the host is alive. */
  lemma ReloadLeaves(h: HostModel, procs: Procs, cfg: Config, outcome: Outcome, ms: nat)
    requires Fits(h, procs)
    ensures var (h', procs') := Reloaded(h, procs, cfg, outcome, ms);
            && Fits(h', procs') && h'.crashTimes == h.crashTimes
            && (outcome == Connects ==>
                  Runs(h', procs') && h'.cfg == cfg && procs'.live == procs.live - {h.child} + {h'.child}
                  && h'.child !in procs.live && h'.backoff == 0)
            && (outcome != Connects ==>
                  Dead(h', procs') && procs'.live == procs.live - {h.child} && h'.samples == h.samples)
            && (outcome == NeverConnects ==> h'.state == Crashed && h'.cfg == cfg && h'.backoff == 0)
            && (outcome == SpawnFails ==> h' == h.(state := Reloading))
  {
  }

  /** A respawn keeps the configuration and the crash record; exactly when it connects, the host
      runs the new child, without harm to any other process. */
  lemma RespawnLeaves(h: HostModel, procs: Procs, outcome: Outcome)
    requires Fits(h, procs) && h.child !in procs.live && !h.state.Running?
    ensures var (h', procs') := Respawned(h, procs, outcome);
            && Fits(h', procs') && h'.cfg == h.cfg && h'.crashTimes == h.crashTimes && h'.samples == h.samples
            && (outcome == Connects ==>
                  Runs(h', procs') && h'.backoff == 0 && procs'.live == procs.live + {h'.child}
                  && h'.child !in procs.live)
            && (outcome != Connects ==> Dead(h', procs') && procs'.live == procs.live && h'.backoff == h.backoff)
            && (outcome == NeverConnects ==> h'.state == Crashed)
            && (outcome == SpawnFails ==> h' == h)
  {
  }

  /** Stopping ends the child and nothing else, and is remembered as such. */
  lemma StopLeaves(h: HostModel, procs: Procs)
    requires Fits(h, procs)
    ensures var (h', procs') := StoppedHost(h, procs);
            procs'.live == procs.live - {h.child} && h' == h.(state := Stopped) && Dead(h', procs')
            && Dropped(h', procs') == procs'
  {
  }

  /** A host that is dropped leaves no child behind, unless it was stopped or had given up; no
      other process is touched. */
  lemma DropLeaves(h: HostModel, procs: Procs)
    requires Fits(h, procs)
    ensures Dropped(h, procs).live
         == if h.state.Stopped? || h.state.CrashLooping? then procs.live else procs.live - {h.child}
  {
  }

  /** After an exit the host counts as crashed, or as given up with the number of exits counted,
      and a terminal is asked instead of waiting. */
  lemma ExitLeaves(h: HostModel, now: int, tty: bool)
    ensures var (h', decision) := ChildExited(h, now, tty);
            && h'.child == h.child && h'.pgid == h.pgid && h'.cfg == h.cfg && h'.samples == h.samples
            && h'.crashTimes != [] && h'.crashTimes[|h'.crashTimes| - 1] == now
            && (decision == GaveUpCrashLooping <==> |h'.crashTimes| > 5)
            && (decision == GaveUpCrashLooping ==> h'.state == CrashLooping(|h'.crashTimes|))
            && (decision != GaveUpCrashLooping ==> h'.state == Crashed && (decision == PromptTty <==> tty))
            && (!decision.Respawn? ==> h'.backoff == h.backoff)
            && (decision.Respawn? ==> decision.afterMs == [200, 500, 1000, 2000, 4000][Min(h.backoff, 4)])
  {
  }

  // --- the crash window against the whole history --------------------------------------------

  predicate Ordered(times: seq<int>) { forall i, j | 0 <= i < j < |times| :: times[i] <= times[j] }

  /** The exits of a history that fall within the window that ends now, both ends included. */
  function Recent(times: seq<int>, now: int): seq<int> {
    if times == [] then []
    else Recent(times[..|times| - 1], now) +
         (if now - 30_000_000_000 <= times[|times| - 1] then [times[|times| - 1]] else [])
  }

  /** One lifetime of a host: exits the supervisor handles, reloads, respawns and stops. */
  datatype Op =
    | Exit(now: int)
    | Reload(cfg: Config, outcome: Outcome, ms: nat)
    | RespawnOp(outcome: Outcome)
    | Stop

  /** The host, every exit so far with what was decided, and the `Respawn` decisions since
      the last backoff reset. */
  datatype Life = Life(h: HostModel, procs: Procs, exits: seq<int>, decisions: seq<Decision>, ks: seq<nat>, k: nat)

  function Step(w: Life, op: Op): Life {
    match op
    case Exit(now) =>
      var (h, d) := ChildExited(w.h, now, false);
      Life(h, w.procs, w.exits + [now], w.decisions + [d], w.ks + [w.k], if d.Respawn? then w.k + 1 else w.k)
    case Reload(cfg, outcome, ms) =>
      var (h, procs) := Reloaded(w.h, w.procs, cfg, outcome, ms);
      w.(h := h, procs := procs, k := if outcome == SpawnFails then w.k else 0)
    case RespawnOp(outcome) =>
      var (h, procs) := Respawned(w.h, w.procs, outcome);
      w.(h := h, procs := procs, k := if outcome == Connects then 0 else w.k)
    case Stop =>
      var (h, procs) := StoppedHost(w.h, w.procs);
      w.(h := h, procs := procs)
  }

  function Run(procs: Procs, cfg: Config, ops: seq<Op>): Life {
    if ops == [] then Life(Launched(procs, cfg, Connects).0.value, Spawned(procs), [], [], [], 0)
    else Step(Run(procs, cfg, ops[..|ops| - 1]), ops[|ops| - 1])
  }

  /** More than five exits within the window that ends with exit `i`. */
  predicate TooMany(exits: seq<int>, i: nat)
    requires i < |exits|
  {
    |Recent(exits[..i + 1], exits[i])| > 5
  }

  ghost predicate LifeInv(w: Life) {
    && |w.decisions| == |w.exits| == |w.ks|
    && w.h.crashTimes == (if w.exits == [] then [] else Recent(w.exits, w.exits[|w.exits| - 1]))
    && w.h.backoff == Min(w.k, 4)
    && forall i | 0 <= i < |w.exits| ::
         w.decisions[i] == if TooMany(w.exits, i) then GaveUpCrashLooping
                            else Respawn([200, 500, 1000, 2000, 4000][Min(w.ks[i], 4)])
  }

  predicate AtMost(times: seq<int>, bound: int) { forall i | 0 <= i < |times| :: times[i] <= bound }

  lemma RecentGrows(times: seq<int>, t: int, now: int)
    ensures Recent(times + [t], now) == Recent(times, now) + if now - CRASH_WINDOW <= t then [t] else []
  {
    assert (times + [t])[..|times|] == times;
  }

  lemma {:induction false} RecentOrdered(times: seq<int>, now: int, bound: int)
    requires Ordered(times) && AtMost(times, bound)
    ensures Ordered(Recent(times, now)) && AtMost(Recent(times, now), bound)
  {
    if times != [] {
      RecentOrdered(times[..|times| - 1], now, times[|times| - 1]);
    }
  }

  /** Trimming from the front is filtering, because the exits are in order. */
  lemma {:induction false} TrimIsFilter(times: seq<int>, now: int)
    requires Ordered(times) && AtMost(times, now)
    ensures Trimmed(times, now) == Recent(times, now)
  {
    if times != [] {
      if Since(now, times[0]) > CRASH_WINDOW {
        TrimIsFilter(times[1..], now);
        RecentSkipsFirst(times, now);
      } else {
        RecentIsAll(times, now);
      }
    }
  }

  lemma {:induction false} RecentSkipsFirst(times: seq<int>, now: int)
    requires times != [] && times[0] < now - CRASH_WINDOW
    ensures Recent(times, now) == Recent(times[1..], now)
  {
    if |times| > 1 {
      RecentSkipsFirst(times[..|times| - 1], now);
      assert times[..|times| - 1][1..] == times[1..][..|times| - 2];
    } else {
      assert times[..0] == [];
    }
  }

  lemma {:induction false} RecentIsAll(times: seq<int>, now: int)
    requires forall i | 0 <= i < |times| :: now - CRASH_WINDOW <= times[i]
    ensures Recent(times, now) == times
  {
    if times != [] {
      RecentIsAll(times[..|times| - 1], now);
      assert times == times[..|times| - 1] + [times[|times| - 1]];
    }
  }

  /** Filtering for an earlier moment first loses nothing. */
  lemma {:induction false} RecentOfRecent(times: seq<int>, earlier: int, now: int)
    requires earlier <= now
    ensures Recent(Recent(times, earlier), now) == Recent(times, now)
  {
    if times != [] {
      var front, last := times[..|times| - 1], times[|times| - 1];
      RecentOfRecent(front, earlier, now);
      RecentGrows(Recent(front, earlier), last, now);
      assert forall s: seq<int> :: s + [] == s;
    }
  }

  lemma ExitStep(exits: seq<int>, crashTimes: seq<int>, now: int)
    requires Ordered(exits + [now])
    requires crashTimes == if exits == [] then [] else Recent(exits, exits[|exits| - 1])
    ensures Trimmed(crashTimes, now) + [now] == Recent(exits + [now], now)
  {
    assert (exits + [now])[..|exits|] == exits;
    if exits != [] {
      var last := exits[|exits| - 1];
      assert (exits + [now])[|exits| - 1] == last && (exits + [now])[|exits|] == now;
      assert forall i | 0 <= i < |exits| :: exits[i] == (exits + [now])[i];
      RecentOrdered(exits, last, now);
      TrimIsFilter(Recent(exits, last), now);
      RecentOfRecent(exits, last, now);
    }
  }

  /** The durations of the reloads that connected, in order. */
  function Durations(ops: seq<Op>): seq<nat> {
    if ops == [] then []
    else
      var last := ops[|ops| - 1];
      Durations(ops[..|ops| - 1]) + (if last.Reload? && last.outcome == Connects then [last.ms] else [])
  }

  /** The reload samples are the last 32 durations, over any run. */
  lemma {:induction false} SamplesAreLastDurations(procs: Procs, cfg: Config, ops: seq<Op>)
    ensures var all := Durations(ops);
            Run(procs, cfg, ops).h.samples == if |all| <= 32 then all else all[|all| - 32..]
  {
    hide ChildExited;
    if ops != [] {
      SamplesAreLastDurations(procs, cfg, ops[..|ops| - 1]);
      ExitKeepsSamples(Run(procs, cfg, ops[..|ops| - 1]), ops[|ops| - 1]);
    }
  }

  lemma ExitKeepsSamples(w: Life, op: Op)
    ensures Step(w, op).h.samples
         == if op.Reload? && op.outcome == Connects then Recorded(w.h.samples, op.ms) else w.h.samples
  {
    hide Trimmed;
  }

  lemma StepKeepsInv(w: Life, op: Op)
    requires LifeInv(w) && Ordered(Step(w, op).exits)
    ensures LifeInv(Step(w, op))
  {
    hide Trimmed, Recent;
    if op.Exit? {
      ExitStep(w.exits, w.h.crashTimes, op.now);
      var exits := w.exits + [op.now];
      assert exits[..|exits|] == exits;
      assert forall i | 0 <= i < |w.exits| :: exits[..i + 1] == w.exits[..i + 1] && exits[i] == w.exits[i];
    }
  }

  lemma {:induction false} ExitsArePrefix(procs: Procs, cfg: Config, ops: seq<Op>)
    requires ops != []
    ensures Run(procs, cfg, ops[..|ops| - 1]).exits <= Run(procs, cfg, ops).exits
  {
  }

  /** With a clock that never goes back, the trimmed deque gives the verdict of the whole
      history, across reloads too: give up exactly when more than five exits fall in the
      last 30 s inclusive; and each wait is `BACKOFF_MS[min(k, 4)]`, where k counts the
      respawn decisions since the last reset. */
  lemma {:induction false} VerdictOfWholeHistory(procs: Procs, cfg: Config, ops: seq<Op>)
    requires Ordered(Run(procs, cfg, ops).exits)
    ensures LifeInv(Run(procs, cfg, ops))
  {
    if ops != [] {
      var front := ops[..|ops| - 1];
      ExitsArePrefix(procs, cfg, ops);
      var before, after := Run(procs, cfg, front), Run(procs, cfg, ops);
      assert forall i | 0 <= i < |before.exits| :: before.exits[i] == after.exits[i];
      VerdictOfWholeHistory(procs, cfg, front);
      StepKeepsInv(before, ops[|ops| - 1]);
    }
  }

  // --- no window holds more than five respawns ------------------------------------------------

  ghost function RecentIndices(times: seq<int>, now: int): set<nat> {
    set i: nat | i < |times| && now - CRASH_WINDOW <= times[i]
  }

  lemma {:induction false} RecentCounts(times: seq<int>, now: int)
    ensures |RecentIndices(times, now)| == |Recent(times, now)|
  {
    if times == [] {
      assert RecentIndices(times, now) == {};
    } else {
      var n := |times| - 1;
      RecentCounts(times[..n], now);
      var front := RecentIndices(times[..n], now);
      assert RecentIndices(times, now) == if now - CRASH_WINDOW <= times[n] then front + {n} else front;
    }
  }

  /** The respawn decisions taken in the closed window of 30 s that starts at `start`. */
  ghost function RespawnsIn(w: Life, start: int): set<nat> {
    set i: nat | i < |w.exits| && i < |w.decisions| && w.decisions[i].Respawn?
                 && start <= w.exits[i] <= start + 30_000_000_000
  }

  lemma MaxOf(s: set<nat>) returns (m: nat)
    requires s != {}
    ensures m in s && forall i | i in s :: i <= m
  {
    var x :| x in s;
    if s == {x} {
      m := x;
    } else {
      var r := MaxOf(s - {x});
      m := if r > x then r else x;
      assert s == (s - {x}) + {x};
    }
  }

  lemma SubsetSize(a: set<nat>, b: set<nat>)
    requires a <= b
    ensures |a| <= |b|
  {
    if a != {} {
      var x :| x in a;
      SubsetSize(a - {x}, b - {x});
    }
  }

  lemma AtMostFiveRespawns(procs: Procs, cfg: Config, ops: seq<Op>, start: int)
    requires Ordered(Run(procs, cfg, ops).exits)
    ensures |RespawnsIn(Run(procs, cfg, ops), start)| <= 5
  {
    hide Recent;
    var w := Run(procs, cfg, ops);
    VerdictOfWholeHistory(procs, cfg, ops);
    var s := RespawnsIn(w, start);
    if s != {} {
      var m := MaxOf(s);
      var upTo := w.exits[..m + 1];
      assert s <= RecentIndices(upTo, w.exits[m]);
      SubsetSize(s, RecentIndices(upTo, w.exits[m]));
      RecentCounts(upTo, w.exits[m]);
      assert !TooMany(w.exits, m);
    }
  }
}
