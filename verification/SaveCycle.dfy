/** One save, across the wire: the chain's last call is a scoped reload, and this is what the
    daemon makes of it. */
module SaveCycle {
  import opened Text
  import opened WatchPlan
  import opened Registry
  import Host
  import Chain
  import Handlers

  /** The daemon after a reload that a chain has asked for. */
  function Reloaded(c: Handlers.Core, names: seq<string>, env: Handlers.Env): Handlers.Core {
    Handlers.AfterReload(c, Some(names), false, env).0
  }

  /** What the host is told to load after a save: the saved extensions that are registered,
      enabled and not too new. */
  predicate LoadedAfterSave(env: Handlers.Env, exts: seq<Chain.Ext>, name: string) {
    && env.load.Some? && (exists k | 0 <= k < |exts| :: exts[k].name == name)
    && exists i | 0 <= i < |env.load.value| ::
         var e := env.load.value[i]; e.name == name && e.enabled && !TooNew(env.fs, e, Handlers.HOST_API)
  }

  /** A chain that goes well for any extension at all ends in a request that names exactly the
      saved extensions, and whose effect is to narrow the host to them: the working set becomes
      their names, and the host, if its process starts, is told to load exactly those of them that
      are registered, enabled and not too new. Every other extension is unloaded by the save. */
  lemma SaveNarrowsHost(world: Chain.World, libs: seq<Lib>, exts: seq<Chain.Ext>, c: Handlers.Core, env: Handlers.Env)
    requires exts != [] && Chain.Run(world, Chain.Plan(libs, exts), []).ok
    ensures var t := Chain.Run(world, Chain.Plan(libs, exts), []).trace;
            && t != [] && Chain.Granted(t[|t| - 1], exts)
            && var names := t[|t| - 1].call.names; var c' := Reloaded(c, names, env);
               && c'.workingSet == Some(names) && c'.owner == c.owner
               && (c'.host.Some? && env.outcome != Host.SpawnFails ==>
                     forall name :: name in c'.host.value.cfg <==> LoadedAfterSave(env, exts, name))
  {
    Chain.FailureEndsChain(world, libs, exts);
    var t := Chain.Run(world, Chain.Plan(libs, exts), []).trace;
    var names := t[|t| - 1].call.names;
    var c' := Reloaded(c, names, env);
    Handlers.ReloadKeepsScope(c, Some(names), false, env);
    if c'.host.Some? && env.outcome != Host.SpawnFails {
      if c.host.Some? {
        Handlers.ReloadAccurateExactly(c, Some(names), false, env);
      } else {
        Handlers.LaunchAccurate(c, Some(names), false, env);
      }
      assert c'.host.value.cfg == Names(Compatible(env.fs, c'.full, Handlers.HOST_API));
      forall name ensures name in c'.host.value.cfg <==> LoadedAfterSave(env, exts, name) {
        KeptNames(env, exts, names, name);
      }
    }
  }

  lemma KeptNames(env: Handlers.Env, exts: seq<Chain.Ext>, names: seq<string>, name: string)
    requires Chain.Naming(names, exts)
    ensures var full := Handlers.EnabledScoped(env, Some(names));
            name in Names(Compatible(env.fs, full, Handlers.HOST_API)) <==> LoadedAfterSave(env, exts, name)
  {
    hide TooNew, Compatible, Names;
    var full := Handlers.EnabledScoped(env, Some(names));
    var kept := Compatible(env.fs, full, Handlers.HOST_API);
    PrefilterPartitions(env.fs, full, Handlers.HOST_API);
    Handlers.ScopeMembers(env, Some(names));
    Handlers.NamedIn(kept, name);
    assert name in names <==> exists k | 0 <= k < |exts| :: exts[k].name == name;
    hide Handlers.EnabledScoped;
    if e :| e in kept && e.name == name {
      var i :| 0 <= i < |env.load.value| && env.load.value[i] == e;
    }
    if LoadedAfterSave(env, exts, name) {
      var i :| 0 <= i < |env.load.value| && env.load.value[i].name == name && env.load.value[i].enabled
               && !TooNew(env.fs, env.load.value[i], Handlers.HOST_API);
      assert env.load.value[i] in kept;
    }
  }

  /** A save breaks the ownership of the working set unless exactly the saved names were in
      force already. */
  lemma SaveKeepsOwnershipExactly(w: Handlers.World, names: seq<string>, exts: seq<Chain.Ext>, env: Handlers.Env)
    requires Handlers.Owned(w) && !w.core.shutdown && Chain.Naming(names, exts)
    ensures Handlers.Owned(w.(core := Reloaded(w.core, names, env))) <==>
              w.core.workingSet.Some? && Chain.Naming(w.core.workingSet.value, exts)
  {
    hide Handlers.Owned, Handlers.AfterReload;
    Handlers.OnlyScopedReloadsBreakOwnership(w, Handlers.ReloadRequest(Some(names), false, env));
    if w.core.workingSet.Some? && Chain.Naming(w.core.workingSet.value, exts) {
      assert w.core.workingSet.value == names;
    }
  }
}
