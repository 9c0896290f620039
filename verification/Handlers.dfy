/** The daemon's request handlers over its shared state: reload, working set, connection
    close and status, each taken as one step. */
module Handlers {
  import opened Text
  import opened SemVer
  import opened Registry
  import opened Host

  /** The version every host reports. */
  const HOST_API := Version(1, 0, 0, [])

  /** What a handler finds outside: the registry as loaded (nothing on a read error), the
      file system, and how starting the child turns out. */
  datatype Env = Env(load: Option<seq<Entry>>, fs: Fs, outcome: Outcome, ms: nat)

  datatype Core = Core(host: Option<HostModel>, procs: Procs, full: seq<Entry>, workingSet: Option<seq<string>>,
                       owner: nat, skipped: seq<string>, shutdown: bool)

  const START := Core(None, Procs({}, 0), [], None, 0, [], false)

  datatype Verdict = Accepted | Refused | Failed

  // --- the handlers as functions of the state --------------------------------------------

  function EnabledOnly(es: seq<Entry>): seq<Entry> {
    if es == [] then [] else (if es[0].enabled then [es[0]] else []) + EnabledOnly(es[1..])
  }

  function Scoped(es: seq<Entry>, names: seq<string>): seq<Entry> {
    if es == [] then [] else (if es[0].name in names then [es[0]] else []) + Scoped(es[1..], names)
  }

  function EnabledScoped(env: Env, workingSet: Option<seq<string>>): seq<Entry> {
    if env.load.None? then []
    else if workingSet.None? then EnabledOnly(env.load.value)
    else Scoped(EnabledOnly(env.load.value), workingSet.value)
  }

  /** A reload, scoped when `only` is given. A strict one is refused when the pre-filter
      drops anything; the sets are updated all the same. */
  function AfterReload(c: Core, only: Option<seq<string>>, strict: bool, env: Env): (Core, Verdict) {
    var workingSet := if only.Some? then only else c.workingSet;
    var entries := EnabledScoped(env, workingSet);
    var kept := Compatible(env.fs, entries, HOST_API);
    var skipped := Names(Incompatible(env.fs, entries, HOST_API));
    var c1 := c.(workingSet := workingSet, full := entries, skipped := skipped);
    if strict && skipped != [] then (c1, Refused)
    else
      var verdict := if env.outcome == Connects then Accepted else Failed;
      if c.host.Some? then
        var (h, procs) := Reloaded(c.host.value, c.procs, Names(kept), env.outcome, env.ms);
        (c1.(host := Some(h), procs := procs), verdict)
      else
        var (h, procs) := Launched(c.procs, Names(kept), env.outcome);
        (c1.(host := h, procs := procs), verdict)
  }

  function WorkingSetBy(c: Core, names: Option<seq<string>>, conn: nat, env: Env): Core {
    AfterReload(c.(owner := if names.Some? then conn else 0, workingSet := names), None, false, env).0
  }

  function Closed(c: Core, conn: nat, env: Env): Core {
    if conn == 0 || c.shutdown || c.owner != conn then c
    else
      var released := c.(owner := 0, workingSet := None);
      if c.workingSet.Some? then AfterReload(released, None, false, env).0 else released
  }

  datatype Lifecycle = Registered | Loaded | Skipped

  predicate ShownRunning(c: Core) {
    c.host.Some? && (c.host.value.state.Running? || c.host.value.state.Reloading?)
  }

  function LifecycleOf(c: Core, name: string): Lifecycle {
    if name in c.skipped then Skipped
    else if ShownRunning(c) then Loaded
    else Registered
  }

  datatype Row = Row(name: string, path: Path, enabled: bool, lifecycle: Lifecycle)

  function RowOf(c: Core, e: Entry): Row { Row(e.name, e.path, e.enabled, LifecycleOf(c, e.name)) }

  function Status(c: Core): (r: seq<Row>)
    ensures |r| == |c.full|
    ensures forall i | 0 <= i < |r| :: r[i] == RowOf(c, c.full[i])
  {
    seq(|c.full|, i requires 0 <= i < |c.full| => RowOf(c, c.full[i]))
  }

  // --- the handlers as code ------------------------------------------------------------------

  class DaemonState {
    const os: Os
    var host: HostHandle?
    var fullSet: seq<Entry>
    var workingSet: Option<seq<string>>
    var workingSetOwner: nat
    var skipped: seq<string>
    var shutdown: bool

    ghost predicate Valid() reads this, host { host != null ==> host.os == os }

    ghost function Snapshot(): Core
      reads this, host, os
    {
      Core(if host == null then None else Some(host.Snapshot()), os.Snapshot(), fullSet, workingSet,
           workingSetOwner, skipped, shutdown)
    }

    constructor (os: Os)
      requires os.Snapshot() == Procs({}, 0)
      ensures Valid() && Snapshot() == START && this.os == os
    {
      this.os, host, fullSet, workingSet, workingSetOwner, skipped, shutdown := os, null, [], None, 0, [], false;
    }

    method DoReload(only: Option<seq<string>>, strict: bool, env: Env) returns (verdict: Verdict)
      requires Valid()
      modifies this, host, os
      ensures Valid() && (Snapshot(), verdict) == AfterReload(old(Snapshot()), only, strict, env)
      ensures host == old(host) || fresh(host)
    {
      hide EnabledScoped, Compatible, Incompatible, Names, Reloaded, Launched;
      if only.Some? {
        workingSet := only;
      }
      var entries := EnabledScoped(env, workingSet);
      fullSet := entries;
      var kept, dropped := Prefilter(env.fs, entries, HOST_API);
      skipped := Names(dropped);
      if strict && skipped != [] {
        return Refused;
      }
      if host != null {
        var ok := host.Reload(Names(kept), env.outcome, env.ms);
        verdict := if ok then Accepted else Failed;
      } else {
        var launched := HostHandle.Launch(os, Names(kept), env.outcome);
        host := launched;
        verdict := if env.outcome == Connects then Accepted else Failed;
      }
    }

    method SetWorkingSet(names: Option<seq<string>>, conn: nat, env: Env)
      requires Valid()
      modifies this, host, os
      ensures Valid() && Snapshot() == WorkingSetBy(old(Snapshot()), names, conn, env)
    {
      hide AfterReload;
      workingSetOwner := if names.Some? then conn else 0;
      workingSet := names;
      var _ := DoReload(None, false, env);
    }

    method ConnectionClosed(conn: nat, env: Env)
      requires Valid()
      modifies this, host, os
      ensures Valid() && Snapshot() == Closed(old(Snapshot()), conn, env)
    {
      hide AfterReload;
      if conn == 0 || shutdown {
        return;
      }
      if workingSetOwner == conn {
        workingSetOwner := 0;
        var hadScope := workingSet.Some?;
        workingSet := None;
        if hadScope {
          var _ := DoReload(None, false, env);
        }
      }
    }

    method StatusResponse() returns (extensions: seq<Row>)
      requires Valid()
      ensures extensions == Status(Snapshot())
    {
      var running := host != null && (host.state.Running? || host.state.Reloading?);
      extensions := [];
      for i := 0 to |fullSet|
        invariant extensions == Status(Snapshot())[..i]
      {
        var name := fullSet[i].name;
        var lifecycle := if name in skipped then Skipped else if running then Loaded else Registered;
        extensions := extensions + [Row(name, fullSet[i].path, fullSet[i].enabled, lifecycle)];
      }
    }
  }

  // --- what is loaded -------------------------------------------------------------------------------

  /** The entries that are enabled and, when there is a working set, named in it. */
  ghost function Selected(workingSet: Option<seq<string>>): iset<Entry> {
    iset e: Entry | e.enabled && (workingSet.Some? ==> e.name in workingSet.value)
  }

  lemma {:induction false} EnabledPicks(es: seq<Entry>) returns (at: seq<nat>)
    ensures Picks(es, EnabledOnly(es), at, Selected(None))
  {
    hide Picks;
    if es == [] {
      at := [];
      NothingPicked(Selected(None));
    } else {
      at := EnabledPicks(es[1..]);
      at := PicksMore(es[0], es[1..], EnabledOnly(es[1..]), at, Selected(None));
      assert [es[0]] + es[1..] == es;
    }
  }

  lemma {:induction false} ScopedPicks(es: seq<Entry>, names: seq<string>) returns (at: seq<nat>)
    ensures Picks(es, Scoped(EnabledOnly(es), names), at, Selected(Some(names)))
  {
    hide Picks;
    if es == [] {
      at := [];
      NothingPicked(Selected(Some(names)));
    } else {
      at := ScopedPicks(es[1..], names);
      at := PicksMore(es[0], es[1..], Scoped(EnabledOnly(es[1..]), names), at, Selected(Some(names)));
      assert [es[0]] + es[1..] == es;
      assert ([es[0]] + EnabledOnly(es[1..]))[1..] == EnabledOnly(es[1..]);
      assert [] + EnabledOnly(es[1..]) == EnabledOnly(es[1..]);
      assert [] + Scoped(EnabledOnly(es[1..]), names) == Scoped(EnabledOnly(es[1..]), names);
    }
  }

  /** What is in scope: nothing of a registry that cannot be read, and else exactly the enabled
      entries, of the working set when there is one, each in its place. */
  ghost predicate InScope(env: Env, workingSet: Option<seq<string>>, full: seq<Entry>) {
    if env.load.None? then full == []
    else exists at :: Picks(env.load.value, full, at, Selected(workingSet))
  }

  lemma ScopeExactly(env: Env, workingSet: Option<seq<string>>)
    ensures InScope(env, workingSet, EnabledScoped(env, workingSet))
  {
    if env.load.Some? {
      if workingSet.None? {
        var at := EnabledPicks(env.load.value);
      } else {
        var at := ScopedPicks(env.load.value, workingSet.value);
      }
    }
  }

  lemma PickedAre(es: seq<Entry>, r: seq<Entry>, at: seq<nat>, wanted: iset<Entry>)
    requires Picks(es, r, at, wanted)
    ensures forall e :: e in r <==> e in es && e in wanted
  {
    forall e | e in r
      ensures e in es && e in wanted
    {
      var k :| 0 <= k < |r| && r[k] == e;
      assert at[k] in at;
    }
    forall e | e in es && e in wanted
      ensures e in r
    {
      var i :| 0 <= i < |es| && es[i] == e;
      var k :| 0 <= k < |at| && at[k] == i;
    }
  }

  /** In particular what is in it. */
  lemma ScopeMembers(env: Env, workingSet: Option<seq<string>>)
    ensures forall e :: e in EnabledScoped(env, workingSet) <==>
              env.load.Some? && e in env.load.value && e.enabled && (workingSet.Some? ==> e.name in workingSet.value)
  {
    ScopeExactly(env, workingSet);
    hide EnabledScoped, Picks;
    if env.load.Some? {
      var full := EnabledScoped(env, workingSet);
      var at :| Picks(env.load.value, full, at, Selected(workingSet));
      PickedAre(env.load.value, full, at, Selected(workingSet));
    }
  }

  /** A reload is refused exactly when it is strict and something in scope asks for a later
      host; it then leaves host and processes alone and updates only the sets. */
  lemma RefusedExactly(c: Core, only: Option<seq<string>>, strict: bool, env: Env)
    ensures var workingSet := if only.Some? then only else c.workingSet;
            var (c', verdict) := AfterReload(c, only, strict, env);
            && InScope(env, workingSet, c'.full) && c'.workingSet == workingSet
            && (verdict == Refused <==> strict && exists e :: e in c'.full && TooNew(env.fs, e, Version(1, 0, 0, [])))
            && (verdict == Refused ==> c' == c.(workingSet := workingSet, full := c'.full, skipped := c'.skipped))
            && (verdict != Refused ==> (verdict == Accepted <==> env.outcome == Connects))
            && (forall name :: name in c'.skipped <==>
                  exists e :: e in c'.full && e.name == name && TooNew(env.fs, e, Version(1, 0, 0, [])))
  {
    var (c', verdict) := AfterReload(c, only, strict, env);
    ReloadKeepsScope(c, only, strict, env);
    ScopeExactly(env, c'.workingSet);
    PrefilterPartitions(env.fs, c'.full, HOST_API);
    var dropped := Incompatible(env.fs, c'.full, HOST_API);
    hide TooNew, Compatible, Incompatible, EnabledScoped, InScope, Reloaded, Launched;
    assert c'.skipped == Names(dropped);
    forall name
      ensures name in c'.skipped <==> exists e :: e in c'.full && e.name == name && TooNew(env.fs, e, HOST_API)
    {
      NamedIn(dropped, name);
    }
    assert dropped != [] <==> exists e :: e in c'.full && TooNew(env.fs, e, HOST_API) by {
      if dropped != [] { assert dropped[0] in dropped; }
    }
  }

  lemma NamedIn(es: seq<Entry>, name: string)
    ensures name in Names(es) <==> exists e :: e in es && e.name == name
  {
    if name in Names(es) {
      var k :| 0 <= k < |Names(es)| && Names(es)[k] == name;
      assert es[k] in es;
    }
    if e :| e in es && e.name == name {
      var k :| 0 <= k < |es| && es[k] == e;
      assert Names(es)[k] == name;
    }
  }

  // --- what status tells -------------------------------------------------------------------------

  /** The host's configuration is the kept part of the set that `status` lists. */
  predicate Accurate(c: Core, fs: Fs) {
    && c.skipped == Names(Incompatible(fs, c.full, HOST_API))
    && (c.host.Some? ==> c.host.value.cfg == Names(Compatible(fs, c.full, HOST_API)))
  }

  /** What happens between two reload requests: the child crashes, or a respawn. */
  datatype Between = Crash(now: int) | Respawning(outcome: Outcome)

  function After(c: Core, b: Between): Core {
    if c.host.None? then c
    else match b
      case Crash(now) => c.(host := Some(ChildExited(c.host.value, now, false).0))
      case Respawning(outcome) =>
        var (h, procs) := Respawned(c.host.value, c.procs, outcome);
        c.(host := Some(h), procs := procs)
  }

  function AfterAll(c: Core, events: seq<Between>): Core
    decreases |events|
  {
    if events == [] then c else AfterAll(After(c, events[0]), events[1..])
  }

  /** A reload leaves status and host in agreement exactly when the host took the new
      configuration (it was neither refused nor unable to start a process) or already had it. */
  lemma ReloadAccurateExactly(c: Core, only: Option<seq<string>>, strict: bool, env: Env)
    requires c.host.Some?
    ensures var (c', verdict) := AfterReload(c, only, strict, env);
            Accurate(c', env.fs) <==>
              (verdict != Refused && env.outcome != SpawnFails)
              || c.host.value.cfg == Names(Compatible(env.fs, c'.full, HOST_API))
  {
    hide EnabledScoped, Names, Compatible, Incompatible, Recorded;
  }

  /** The first launch leaves them in agreement however it turns out. */
  lemma LaunchAccurate(c: Core, only: Option<seq<string>>, strict: bool, env: Env)
    requires c.host.None?
    ensures Accurate(AfterReload(c, only, strict, env).0, env.fs)
  {
    hide EnabledScoped, Names, Compatible, Incompatible;
  }

  lemma {:induction false} CrashesKeepAccurate(c: Core, fs: Fs, events: seq<Between>)
    requires Accurate(c, fs)
    ensures Accurate(AfterAll(c, events), fs) && AfterAll(c, events).full == c.full
    decreases |events|
  {
    hide Names, Compatible, Incompatible, Trimmed;
    if events != [] {
      CrashesKeepAccurate(After(c, events[0]), fs, events[1..]);
    }
  }

  function LoadedNames(rows: seq<Row>): seq<string> {
    if rows == [] then []
    else (if rows[0].lifecycle == Loaded then [rows[0].name] else []) + LoadedNames(rows[1..])
  }

  lemma {:induction false} SkippedNames(fs: Fs, es: seq<Entry>, i: nat)
    requires NamesDistinct(es) && i < |es|
    ensures es[i].name in Names(Incompatible(fs, es, HOST_API)) <==> TooNew(fs, es[i], HOST_API)
  {
    hide TooNew;
    PrefilterPartitions(fs, es, HOST_API);
    var skipped := Incompatible(fs, es, HOST_API);
    if es[i].name in Names(skipped) {
      var k :| 0 <= k < |skipped| && Names(skipped)[k] == es[i].name;
      assert skipped[k] in es && skipped[k].name == es[i].name;
      var j :| 0 <= j < |es| && es[j] == skipped[k];
      assert j == i;
    }
    if TooNew(fs, es[i], HOST_API) {
      assert es[i] in skipped;
      var k :| 0 <= k < |skipped| && skipped[k] == es[i];
      assert Names(skipped)[k] == es[i].name;
    }
  }

  lemma {:induction false} LoadedAreKept(fs: Fs, es: seq<Entry>, rows: seq<Row>)
    requires |rows| == |es|
    requires forall i | 0 <= i < |es| ::
               rows[i].name == es[i].name && (rows[i].lifecycle == Loaded <==> !TooNew(fs, es[i], HOST_API))
    ensures LoadedNames(rows) == Names(Compatible(fs, es, HOST_API))
  {
    hide TooNew;
    if es != [] {
      LoadedAreKept(fs, es[1..], rows[1..]);
      var first := if TooNew(fs, es[0], HOST_API) then [] else [es[0]];
      assert Compatible(fs, es, HOST_API) == first + Compatible(fs, es[1..], HOST_API);
      NamesOfSum(first, Compatible(fs, es[1..], HOST_API));
    }
  }

  lemma NamesOfSum(a: seq<Entry>, b: seq<Entry>)
    ensures Names(a + b) == Names(a) + Names(b)
  {
  }

  /** Status lists each entry of the set once and in order, marks Skipped exactly what the
      pre-filter dropped, and while the host runs marks Loaded exactly its configuration. */
  lemma StatusTellsTheTruth(c: Core, fs: Fs)
    requires Accurate(c, fs) && NamesDistinct(c.full)
    ensures var rows := Status(c);
            && (forall i | 0 <= i < |rows| ::
                  && rows[i].name == c.full[i].name && rows[i].path == c.full[i].path
                  && rows[i].enabled == c.full[i].enabled)
            && (forall i, j | 0 <= i < j < |rows| :: rows[i].name != rows[j].name)
            && (forall i | 0 <= i < |rows| :: rows[i].lifecycle == Skipped <==> TooNew(fs, c.full[i], HOST_API))
            && (c.host.Some? && c.host.value.state.Running? ==> LoadedNames(rows) == c.host.value.cfg)
            && (!ShownRunning(c) ==> LoadedNames(rows) == [])
  {
    hide TooNew, Names, Compatible, Incompatible;
    var rows := Status(c);
    forall i | 0 <= i < |rows| ensures rows[i].lifecycle == Skipped <==> TooNew(fs, c.full[i], HOST_API) {
      SkippedNames(fs, c.full, i);
    }
    if c.host.Some? && c.host.value.state.Running? {
      LoadedAreKept(fs, c.full, rows);
    }
    if !ShownRunning(c) {
      NoneLoaded(rows);
    }
  }

  lemma {:induction false} NoneLoaded(rows: seq<Row>)
    requires forall i | 0 <= i < |rows| :: rows[i].lifecycle != Loaded
    ensures LoadedNames(rows) == []
  {
    if rows != [] { NoneLoaded(rows[1..]); }
  }

  lemma FrontDistinct(es: seq<Entry>, r: seq<Entry>)
    requires es != [] && NamesDistinct(es) && NamesDistinct(r) && forall e | e in r :: e in es[1..]
    ensures NamesDistinct(es[1..]) && NamesDistinct([es[0]] + r)
  {
    forall e | e in r
      ensures e.name != es[0].name
    {
      var i :| 0 <= i < |es[1..]| && es[1..][i] == e;
      assert es[i + 1] == e;
    }
  }

  lemma NoneDistinct(es: seq<Entry>)
    requires NamesDistinct(es)
    ensures NamesDistinct([]) && (es != [] ==> NamesDistinct(es[1..]))
  {
  }

  lemma {:induction false} EnabledKeepsNames(es: seq<Entry>)
    requires NamesDistinct(es)
    ensures NamesDistinct(EnabledOnly(es)) && forall e | e in EnabledOnly(es) :: e in es && e.enabled
  {
    NoneDistinct(es);
    hide NamesDistinct;
    if es != [] {
      EnabledKeepsNames(es[1..]);
      FrontDistinct(es, EnabledOnly(es[1..]));
      assert [] + EnabledOnly(es[1..]) == EnabledOnly(es[1..]);
    }
  }

  lemma {:induction false} ScopeKeepsNames(es: seq<Entry>, names: seq<string>)
    requires NamesDistinct(es)
    ensures NamesDistinct(Scoped(es, names)) && forall e | e in Scoped(es, names) :: e in es && e.name in names
  {
    NoneDistinct(es);
    hide NamesDistinct;
    if es != [] {
      ScopeKeepsNames(es[1..], names);
      FrontDistinct(es, Scoped(es[1..], names));
      assert [] + Scoped(es[1..], names) == Scoped(es[1..], names);
    }
  }

  /** End to end: after a reload that the host took, and through any crashes and respawns
      until the next request, status tells the truth. */
  lemma StatusAfterReload(c: Core, only: Option<seq<string>>, strict: bool, env: Env, events: seq<Between>)
    requires env.load.Some? ==> NamesDistinct(env.load.value)
    requires AfterReload(c, only, strict, env).1 != Refused && env.outcome != SpawnFails
    ensures var c' := AfterAll(AfterReload(c, only, strict, env).0, events);
            && c'.full == EnabledScoped(env, if only.Some? then only else c.workingSet)
            && InScope(env, if only.Some? then only else c.workingSet, c'.full)
            && (forall i | 0 <= i < |c'.full| ::
                  Status(c')[i].name == c'.full[i].name
                  && (Status(c')[i].lifecycle == Skipped <==> TooNew(env.fs, c'.full[i], HOST_API)))
            && (forall i, j | 0 <= i < j < |c'.full| :: c'.full[i].name != c'.full[j].name)
            && (c'.host.Some? && c'.host.value.state.Running? ==> LoadedNames(Status(c')) == c'.host.value.cfg)
  {
    ScopeExactly(env, if only.Some? then only else c.workingSet);
    hide TooNew, AfterAll, LoadedNames, InScope;
    var c1 := AfterReload(c, only, strict, env).0;
    if c.host.Some? { ReloadAccurateExactly(c, only, strict, env); } else { LaunchAccurate(c, only, strict, env); }
    CrashesKeepAccurate(c1, env.fs, events);
    ScopedNamesDistinct(env, if only.Some? then only else c.workingSet);
    StatusTellsTheTruth(AfterAll(c1, events), env.fs);
  }

  /** After an accepted reload the host runs, its child is alive, and status shows as Loaded exactly
      the names of the entries in scope that it can load, in the order of the registry. */
  lemma AcceptedShowsLoaded(c: Core, only: Option<seq<string>>, strict: bool, env: Env)
    requires env.load.Some? ==> NamesDistinct(env.load.value)
    requires AfterReload(c, only, strict, env).1 == Accepted
    ensures var c' := AfterReload(c, only, strict, env).0;
            && InScope(env, if only.Some? then only else c.workingSet, c'.full)
            && c'.host.Some? && c'.host.value.state == Running(c'.host.value.child) && HeldChildLive(c')
            && LoadedNames(Status(c')) == Names(Compatible(env.fs, c'.full, HOST_API)) == c'.host.value.cfg
  {
    hide TooNew, Names, Compatible, Incompatible, LoadedNames, EnabledScoped, Recorded, InScope;
    StatusAfterReload(c, only, strict, env, []);
    ScopeExactly(env, if only.Some? then only else c.workingSet);
    if c.host.Some? { ReloadAccurateExactly(c, only, strict, env); } else { LaunchAccurate(c, only, strict, env); }
  }

  /** After a crash status shows nothing as Loaded, and after the respawn that connects again what
      the host was told to load. */
  lemma CrashIsShown(c: Core, fs: Fs, now: int)
    requires c.host.Some? && Accurate(c, fs) && NamesDistinct(c.full)
    ensures LoadedNames(Status(After(c, Crash(now)))) == []
    ensures var c' := After(After(c, Crash(now)), Respawning(Connects));
            && c'.host.Some? && c'.host.value.state.Running?
            && LoadedNames(Status(c')) == c'.host.value.cfg == c.host.value.cfg
  {
    hide TooNew, Names, Compatible, Incompatible, LoadedNames, NamesDistinct, Trimmed;
    var c1 := After(c, Crash(now));
    StatusTellsTheTruth(c1, fs);
    StatusTellsTheTruth(After(c1, Respawning(Connects)), fs);
  }

  /** After a reload that was refused, the rows shown as Loaded are what the running host was
      told to load exactly when that is still what the pre-filter keeps. */
  lemma RefusedShowsLoadedExactly(c: Core, only: Option<seq<string>>, strict: bool, env: Env)
    requires env.load.Some? ==> NamesDistinct(env.load.value)
    requires c.host.Some? && c.host.value.state.Running? && AfterReload(c, only, strict, env).1 == Refused
    ensures var c' := AfterReload(c, only, strict, env).0;
            c'.host == c.host
            && (LoadedNames(Status(c')) == c.host.value.cfg
                <==> c.host.value.cfg == Names(Compatible(env.fs, c'.full, HOST_API)))
  {
    hide TooNew, EnabledScoped, Names, Compatible, Incompatible, NamesDistinct, LoadedNames;
    var c' := AfterReload(c, only, strict, env).0;
    ReloadKeepsScope(c, only, strict, env);
    ScopedNamesDistinct(env, c'.workingSet);
    forall i | 0 <= i < |c'.full|
      ensures Status(c')[i].lifecycle == Loaded <==> !TooNew(env.fs, c'.full[i], HOST_API)
    {
      SkippedNames(env.fs, c'.full, i);
    }
    LoadedAreKept(env.fs, c'.full, Status(c'));
  }

  lemma {:induction false} NoSkippedIsKept(fs: Fs, es: seq<Entry>)
    requires NamesDistinct(es)
    ensures Compatible(fs, es, HOST_API) != []
       <==> exists i: nat :: i < |es| && es[i].name !in Names(Incompatible(fs, es, HOST_API))
  {
    hide TooNew, Names, Compatible, Incompatible;
    PrefilterPartitions(fs, es, HOST_API);
    forall i: nat | i < |es|
      ensures es[i].name in Names(Incompatible(fs, es, HOST_API)) <==> TooNew(fs, es[i], HOST_API)
    {
      SkippedNames(fs, es, i);
    }
    if Compatible(fs, es, HOST_API) != [] {
      assert Compatible(fs, es, HOST_API)[0] in es;
    } else {
      assert forall i: nat | i < |es| :: es[i] in es && es[i] !in Compatible(fs, es, HOST_API);
    }
  }

  lemma ScopedNamesDistinct(env: Env, workingSet: Option<seq<string>>)
    requires env.load.Some? ==> NamesDistinct(env.load.value)
    ensures NamesDistinct(EnabledScoped(env, workingSet))
  {
    hide EnabledOnly, Scoped;
    if env.load.Some? {
      EnabledKeepsNames(env.load.value);
      if workingSet.Some? { ScopeKeepsNames(EnabledOnly(env.load.value), workingSet.value); }
    }
  }

  /** Status shows something as Loaded. */
  predicate ShowsLoaded(c: Core) { exists i | 0 <= i < |c.full| :: Status(c)[i].lifecycle == Loaded }

  /** The held child leads its own group; every step of a run keeps this. */
  predicate Led(c: Core) { c.host.Some? ==> c.host.value.child == c.host.value.pgid < c.procs.next }

  predicate HeldChildLive(c: Core) { c.host.Some? && c.host.value.child in c.procs.live }

  lemma ShowsLoadedExactly(c: Core, fs: Fs)
    requires NamesDistinct(c.full) && c.skipped == Names(Incompatible(fs, c.full, HOST_API))
    ensures ShowsLoaded(c) <==> ShownRunning(c) && Compatible(fs, c.full, HOST_API) != []
  {
    hide TooNew, Names, Compatible, Incompatible, NamesDistinct;
    NoSkippedIsKept(fs, c.full);
    if ShowsLoaded(c) {
      var i :| 0 <= i < |c.full| && Status(c)[i].lifecycle == Loaded;
      assert c.full[i].name !in c.skipped;
    }
    if ShownRunning(c) && Compatible(fs, c.full, HOST_API) != [] {
      var i: nat :| i < |c.full| && c.full[i].name !in c.skipped;
      assert Status(c)[i].lifecycle == Loaded;
    }
  }

  /** A reload that is not refused leaves status showing something as Loaded with no live child
      behind it if and only if a host was held, its process could not be started, and the
      pre-filter kept anything at all. */
  lemma DeadShownLoadedExactly(c: Core, only: Option<seq<string>>, strict: bool, env: Env)
    requires env.load.Some? ==> NamesDistinct(env.load.value)
    requires Led(c)
    requires AfterReload(c, only, strict, env).1 != Refused
    ensures var c' := AfterReload(c, only, strict, env).0;
            ShowsLoaded(c') && !HeldChildLive(c')
            <==> c.host.Some? && env.outcome == SpawnFails && Compatible(env.fs, c'.full, HOST_API) != []
  {
    hide EnabledScoped, Names, Compatible, Incompatible, NamesDistinct, ShowsLoaded, Recorded;
    var c' := AfterReload(c, only, strict, env).0;
    ReloadKeepsScope(c, only, strict, env);
    ScopedNamesDistinct(env, c'.workingSet);
    ShowsLoadedExactly(c', env.fs);
  }

  // --- who owns the working set ---------------------------------------------------------------------

  /** The daemon with its connections, and the working set as its setter asked for it. */
  datatype World = World(core: Core, open: set<nat>, nextConn: nat, setBy: Option<(nat, seq<string>)>)

  const WORLD := World(START, {}, 1, None)

  datatype Event =
    | Open
    | SetNames(conn: nat, names: Option<seq<string>>, env: Env)
    | ReloadRequest(only: Option<seq<string>>, strict: bool, env: Env)
    | Close(conn: nat, env: Env)
    | HostEvent(between: Between)
    | Shutdown

  predicate Possible(w: World, e: Event) {
    match e
    case SetNames(conn, _, _) => conn in w.open
    case Close(conn, _) => conn in w.open
    case _ => true
  }

  function Step(w: World, e: Event): World {
    match e
    case Open => w.(open := w.open + {w.nextConn}, nextConn := w.nextConn + 1)
    case SetNames(conn, names, env) =>
      w.(core := WorkingSetBy(w.core, names, conn, env),
         setBy := if names.Some? then Some((conn, names.value)) else None)
    case ReloadRequest(only, strict, env) => w.(core := AfterReload(w.core, only, strict, env).0)
    case Close(conn, env) =>
      w.(core := Closed(w.core, conn, env), open := w.open - {conn},
         setBy := if w.setBy.Some? && w.setBy.value.0 == conn then None else w.setBy)
    case HostEvent(between) => w.(core := After(w.core, between))
    case Shutdown => w.(core := w.core.(shutdown := true))
  }

  predicate IsRun(w: World, events: seq<Event>)
    decreases |events|
  {
    events == [] || (Possible(w, events[0]) && IsRun(Step(w, events[0]), events[1..]))
  }

  function RunFrom(w: World, events: seq<Event>): World
    decreases |events|
  {
    if events == [] then w else RunFrom(Step(w, events[0]), events[1..])
  }

  /** The working set in force is exactly what an open connection set last, and that
      connection is its owner; with no such connection there is none. */
  predicate Owned(w: World) {
    && (forall c | c in w.open :: 0 < c < w.nextConn) && w.nextConn > 0
    && match w.setBy
       case None => w.core.workingSet.None? && w.core.owner == 0
       case Some((conn, names)) => conn in w.open && w.core.owner == conn && w.core.workingSet == Some(names)
  }

  lemma ReloadKeepsScope(c: Core, only: Option<seq<string>>, strict: bool, env: Env)
    ensures var c' := AfterReload(c, only, strict, env).0;
            c'.owner == c.owner && c'.shutdown == c.shutdown
            && c'.workingSet == (if only.Some? then only else c.workingSet)
            && c'.full == EnabledScoped(env, c'.workingSet)
  {
    hide EnabledScoped, Names, Compatible, Incompatible, Reloaded, Launched;
  }

  /** Before shutdown, exactly the scoped reloads for another set than the one in force
      break the ownership of the working set. */
  lemma OnlyScopedReloadsBreakOwnership(w: World, e: Event)
    requires Owned(w) && Possible(w, e) && !w.core.shutdown
    ensures Owned(Step(w, e)) <==> !(e.ReloadRequest? && e.only.Some? && e.only != w.core.workingSet)
  {
    hide AfterReload;
    match e
    case SetNames(conn, names, env) =>
      ReloadKeepsScope(w.core.(owner := if names.Some? then conn else 0, workingSet := names), None, false, env);
    case ReloadRequest(only, strict, env) => ReloadKeepsScope(w.core, only, strict, env);
    case Close(conn, env) => ReloadKeepsScope(w.core.(owner := 0, workingSet := None), None, false, env);
    case _ =>
  }

  /** In every run without a scoped reload and before shutdown. */
  lemma {:induction false} OwnershipHolds(w: World, events: seq<Event>)
    requires Owned(w) && !w.core.shutdown && IsRun(w, events)
    requires forall i | 0 <= i < |events| :: !events[i].Shutdown? && !(events[i].ReloadRequest? && events[i].only.Some?)
    ensures Owned(RunFrom(w, events))
    decreases |events|
  {
    hide Owned;
    if events != [] {
      OnlyScopedReloadsBreakOwnership(w, events[0]);
      NoShutdownYet(w, events[0]);
      OwnershipHolds(Step(w, events[0]), events[1..]);
    }
  }

  /** In particular in every such run from the start of the daemon. */
  lemma OwnershipFromStart(events: seq<Event>)
    requires IsRun(WORLD, events)
    requires forall i | 0 <= i < |events| :: !events[i].Shutdown? && !(events[i].ReloadRequest? && events[i].only.Some?)
    ensures Owned(RunFrom(WORLD, events))
  {
    OwnershipHolds(WORLD, events);
  }

  lemma StepKeepsLed(w: World, e: Event)
    requires Led(w.core)
    ensures Led(Step(w, e).core) && Led(START)
  {
    hide EnabledScoped, Names, Compatible, Incompatible, Recorded, Trimmed;
  }

  lemma NoShutdownYet(w: World, e: Event)
    requires !w.core.shutdown && !e.Shutdown?
    ensures !Step(w, e).core.shutdown
  {
    hide EnabledScoped, Names, Compatible, Incompatible, Reloaded, Launched, ChildExited, Respawned;
  }

  /** Closing any other connection changes nothing but the connection itself; closing the
      owner restores the full enabled set. */
  lemma CloseRestoresOrLeaves(w: World, conn: nat, env: Env)
    requires Owned(w) && conn in w.open && !w.core.shutdown
    ensures w.core.owner != conn ==> Step(w, Close(conn, env)).core == w.core
    ensures w.core.owner == conn ==>
      var c := Step(w, Close(conn, env)).core;
      c.workingSet.None? && c.owner == 0 && InScope(env, None, c.full)
  {
    ScopeExactly(env, None);
    hide AfterReload, EnabledScoped, InScope;
    ReloadKeepsScope(w.core.(owner := 0, workingSet := None), None, false, env);
  }

  /** A close acts exactly for the owner of a working set, before shutdown. */
  lemma CloseActsExactly(c: Core, conn: nat, env: Env)
    ensures conn == 0 || c.shutdown || conn != c.owner ==> Closed(c, conn, env) == c
    ensures conn != 0 && !c.shutdown && conn == c.owner ==>
              var c' := Closed(c, conn, env);
              && c'.owner == 0 && c'.workingSet.None?
              && (c.workingSet.None? ==> c' == c.(owner := 0))
              && (c.workingSet.Some? ==> InScope(env, None, c'.full))
  {
    ScopeExactly(env, None);
    ReloadKeepsScope(c.(owner := 0, workingSet := None), None, false, env);
    hide AfterReload, EnabledScoped, InScope;
  }

  /** What happens to the scope of a scoped reload: through every later plain reload, close,
      crash and respawn it stays in force, until a working set is set or another scoped reload
      comes, if and only if no connection that owns the working set closes on the way. The
      reload itself takes no owner, so without an earlier one it outlives its connection. */
  lemma {:induction false} ScopedReloadOutlivesItself(w: World, events: seq<Event>)
    requires w.core.workingSet.Some? && !w.core.shutdown && IsRun(w, events)
    requires forall i | 0 <= i < |events| ::
               !events[i].SetNames? && !events[i].Shutdown? && !(events[i].ReloadRequest? && events[i].only.Some?)
    ensures RunFrom(w, events).core.workingSet == if ClosesOwner(w, events) then None else w.core.workingSet
    ensures RunFrom(w, events).core.owner == if ClosesOwner(w, events) then 0 else w.core.owner
    decreases |events|
  {
    hide AfterReload, ChildExited, Respawned;
    if events != [] {
      var w', rest := Step(w, events[0]), events[1..];
      NoShutdownYet(w, events[0]);
      assert forall i | 0 <= i < |rest| :: rest[i] == events[i + 1];
      if events[0].Close? && events[0].conn == w.core.owner != 0 {
        ReloadKeepsScope(w.core.(owner := 0, workingSet := None), None, false, events[0].env);
        StaysUnscoped(w', rest);
      } else {
        if events[0].ReloadRequest? { ReloadKeepsScope(w.core, None, events[0].strict, events[0].env); }
        ScopedReloadOutlivesItself(w', rest);
      }
    }
  }

  predicate ClosesOwner(w: World, events: seq<Event>) {
    w.core.owner != 0 && exists i | 0 <= i < |events| :: events[i].Close? && events[i].conn == w.core.owner
  }

  lemma {:induction false} StaysUnscoped(w: World, events: seq<Event>)
    requires w.core.workingSet.None? && w.core.owner == 0 && IsRun(w, events)
    requires forall i | 0 <= i < |events| ::
               !events[i].SetNames? && !(events[i].ReloadRequest? && events[i].only.Some?)
    ensures RunFrom(w, events).core.workingSet.None? && RunFrom(w, events).core.owner == 0
    decreases |events|
  {
    hide AfterReload, ChildExited, Respawned;
    if events != [] {
      if events[0].ReloadRequest? { ReloadKeepsScope(w.core, None, events[0].strict, events[0].env); }
      StaysUnscoped(Step(w, events[0]), events[1..]);
    }
  }
}
