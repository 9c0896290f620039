/** The chain a batch of changes sets off: rebuild libraries, then build and deploy every
    affected extension, then ask the host for one reload. Every external call may fail. */
module Chain {
  import opened WatchPlan

  /** A project to deploy: how many hooks may veto it and how many files its copy set has. */
  datatype Ext = Ext(name: string, device: bool, hooks: nat, files: nat)

  /** The external calls of the chain. `DiscoverAtRoot` fails for a workspace root too,
      `AuditNative` when a compiled module is missing, and `CopyNative` clears or copies the
      native modules. */
  datatype Call =
    | BuildLib(lib: Lib)
    | Discover(ext: Ext)
    | IsStale(ext: Ext)
    | Build(ext: Ext)
    | DiscoverAtRoot(ext: Ext)
    | ResolveExtension(ext: Ext)
    | ResolveUserLibrary(ext: Ext)
    | IsStaleAtDeploy(ext: Ext)
    | BuildAtDeploy(ext: Ext)
    | ManifestExists(ext: Ext)
    | BundleExists(ext: Ext)
    | ReadManifest(ext: Ext)
    | ResolveHooks(ext: Ext)
    | RunHook(ext: Ext, hook: nat)
    | AuditNative(ext: Ext)
    | MakeDestination(ext: Ext)
    | MakeParent(ext: Ext, file: nat)
    | SourceExists(ext: Ext, file: nat)
    | CopyFile(ext: Ext, file: nat)
    | CopyNative(ext: Ext)
    | InstallDevice(ext: Ext)
    | Reload(names: seq<string>)

  /** A call and how it went; a hook goes well only when it allows the deploy. */
  datatype Event = Event(call: Call, ok: bool)

  /** The world's answer to the n-th call. */
  type World = nat -> bool

  /** Calls that only choose a branch: a `false` from them is not a failure. */
  predicate IsProbe(c: Call) {
    c.IsStale? || c.IsStaleAtDeploy? || c.SourceExists?
  }

  method Try(world: World, trace: seq<Event>, call: Call) returns (after: seq<Event>, ok: bool)
    ensures ok == world(|trace|) && after == trace + [Event(call, ok)]
  {
    ok := world(|trace|);
    after := trace + [Event(call, ok)];
  }

  // --- what a run may look like ----------------------------------------------------------------

  /** Make a call and stop if it fails, or make it only when a probe says so. */
  datatype Step = Must(call: Call) | When(probe: Call, call: Call)

  datatype Outcome = Outcome(trace: seq<Event>, ok: bool)

  function Do(world: World, s: Step, t: seq<Event>): Outcome {
    var ok := world(|t|);
    match s
    case Must(c) => Outcome(t + [Event(c, ok)], ok)
    case When(p, c) =>
      var asked := t + [Event(p, ok)];
      if ok then Outcome(asked + [Event(c, world(|asked|))], world(|asked|)) else Outcome(asked, true)
  }

  /** Steps in order from the trace so far, up to the first failure. */
  function Run(world: World, steps: seq<Step>, t: seq<Event>): (o: Outcome)
    ensures t <= o.trace
    decreases |steps|
  {
    if steps == [] then Outcome(t, true)
    else
      var before := Run(world, steps[..|steps| - 1], t);
      if before.ok then Do(world, steps[|steps| - 1], before.trace) else before
  }

  function HookSteps(e: Ext, n: nat): (steps: seq<Step>) {
    seq(n, h requires 0 <= h => Must(RunHook(e, h)))
  }

  function FilePair(e: Ext, f: nat): seq<Step> {
    [Must(MakeParent(e, f)), When(SourceExists(e, f), CopyFile(e, f))]
  }

  function FileSteps(e: Ext, n: nat): seq<Step> {
    if n == 0 then []
    else FileSteps(e, n - 1) + FilePair(e, n - 1)
  }

  function Preparation(e: Ext): seq<Step> {
    [Must(ResolveExtension(e)), Must(ResolveUserLibrary(e)), When(IsStaleAtDeploy(e), BuildAtDeploy(e)),
     Must(ManifestExists(e)), Must(BundleExists(e)), Must(ReadManifest(e)), Must(ResolveHooks(e))]
  }

  function DeploySteps(e: Ext): seq<Step> {
    Preparation(e) + HookSteps(e, e.hooks)
    + [Must(AuditNative(e)), Must(MakeDestination(e))] + FileSteps(e, e.files) + [Must(CopyNative(e))]
  }

  function ExtSteps(e: Ext): seq<Step> {
    [Must(Discover(e)), When(IsStale(e), Build(e)), Must(DiscoverAtRoot(e))]
    + if e.device then [Must(InstallDevice(e))] else DeploySteps(e)
  }

  function AllExtSteps(exts: seq<Ext>): seq<Step> {
    if exts == [] then [] else AllExtSteps(exts[..|exts| - 1]) + ExtSteps(exts[|exts| - 1])
  }

  function LibSteps(libs: seq<Lib>): (steps: seq<Step>)
    ensures |steps| == |libs| && forall i | 0 <= i < |libs| :: steps[i] == Must(BuildLib(libs[i]))
  {
    seq(|libs|, i requires 0 <= i < |libs| => Must(BuildLib(libs[i])))
  }

  function Names(exts: seq<Ext>): seq<string> {
    seq(|exts|, i requires 0 <= i < |exts| => exts[i].name)
  }

  function Plan(libs: seq<Lib>, exts: seq<Ext>): seq<Step> {
    LibSteps(libs) + if exts == [] then [] else AllExtSteps(exts) + [Must(Reload(Names(exts)))]
  }

  // --- runs compose ----------------------------------------------------------------------------

  lemma RunOne(world: World, steps: seq<Step>, s: Step, t: seq<Event>)
    ensures Run(world, steps + [s], t)
         == (var o := Run(world, steps, t); if o.ok then Do(world, s, o.trace) else o)
  {
    assert (steps + [s])[..|steps|] == steps;
  }

  lemma {:induction false} RunAppend(world: World, a: seq<Step>, b: seq<Step>, t: seq<Event>)
    ensures Run(world, a + b, t) == (var o := Run(world, a, t); if o.ok then Run(world, b, o.trace) else o)
    decreases |b|
  {
    hide Do;
    if b == [] {
      assert a + b == a;
    } else {
      var front, last := b[..|b| - 1], b[|b| - 1];
      assert a + b == (a + front) + [last] && b == front + [last];
      RunAppend(world, a, front, t);
      RunOne(world, a + front, last, t);
      RunOne(world, front, last, Run(world, a, t).trace);
    }
  }

  /** What is left after `n` steps does not matter once the first `n` have failed. */
  lemma RunSplit(world: World, steps: seq<Step>, n: nat, t: seq<Event>)
    requires n <= |steps|
    ensures Run(world, steps[..n], t).trace <= Run(world, steps, t).trace
    ensures Run(world, steps, t).ok ==> Run(world, steps[..n], t).ok
    ensures !Run(world, steps[..n], t).ok ==> Run(world, steps, t) == Run(world, steps[..n], t)
  {
    assert steps[..n] + steps[n..] == steps;
    RunAppend(world, steps[..n], steps[n..], t);
  }

  // --- the chain itself ------------------------------------------------------------------------

  lemma RunFront(world: World, steps: seq<Step>, n: nat, t: seq<Event>)
    requires n < |steps|
    ensures Run(world, steps[n..], t)
         == (var o := Do(world, steps[n], t); if o.ok then Run(world, steps[n + 1..], o.trace) else o)
  {
    hide Do;
    assert steps[n..] == [steps[n]] + steps[n + 1..] && [] + [steps[n]] == [steps[n]];
    RunAppend(world, [steps[n]], steps[n + 1..], t);
    RunOne(world, [], steps[n], t);
  }

  method Prepare(world: World, e: Ext, start: seq<Event>) returns (t: seq<Event>, ok: bool)
    ensures Outcome(t, ok) == Run(world, Preparation(e), start)
  {
    ghost var steps := Preparation(e);
    assert steps[0..] == steps && steps[7..] == [];
    assert Run(world, steps[0..], start) == Run(world, steps, start);
    hide Run;
    RunFront(world, steps, 0, start);
    t, ok := Try(world, start, ResolveExtension(e));
    if !ok { return; }
    RunFront(world, steps, 1, t);
    t, ok := Try(world, t, ResolveUserLibrary(e));
    if !ok { return; }
    RunFront(world, steps, 2, t);
    t, ok := Try(world, t, IsStaleAtDeploy(e));
    if ok {
      t, ok := Try(world, t, BuildAtDeploy(e));
      if !ok { return; }
    }
    RunFront(world, steps, 3, t);
    t, ok := Try(world, t, ManifestExists(e));
    if !ok { return; }
    RunFront(world, steps, 4, t);
    t, ok := Try(world, t, BundleExists(e));
    if !ok { return; }
    RunFront(world, steps, 5, t);
    t, ok := Try(world, t, ReadManifest(e));
    if !ok { return; }
    RunFront(world, steps, 6, t);
    t, ok := Try(world, t, ResolveHooks(e));
    RunEmpty(world, t);
  }

  /** The hooks in order; the first that does not allow the deploy ends it. */
  method PreDeploy(world: World, e: Ext, start: seq<Event>) returns (t: seq<Event>, ok: bool)
    ensures Outcome(t, ok) == Run(world, HookSteps(e, e.hooks), start)
  {
    hide Run;
    RunEmpty(world, start);
    assert HookSteps(e, 0) == [];
    t, ok := start, true;
    for h := 0 to e.hooks
      invariant ok && Outcome(t, true) == Run(world, HookSteps(e, h), start)
    {
      assert HookSteps(e, h + 1) == HookSteps(e, h) + [Must(RunHook(e, h))];
      RunOne(world, HookSteps(e, h), Must(RunHook(e, h)), start);
      t, ok := Try(world, t, RunHook(e, h));
      if !ok {
        assert HookSteps(e, e.hooks)[..h + 1] == HookSteps(e, h + 1);
        RunSplit(world, HookSteps(e, e.hooks), h + 1, start);
        return;
      }
    }
  }

  method CopyFiles(world: World, e: Ext, start: seq<Event>) returns (t: seq<Event>, ok: bool)
    ensures Outcome(t, ok) == Run(world, FileSteps(e, e.files), start)
  {
    hide Run;
    RunEmpty(world, start);
    t, ok := start, true;
    for f := 0 to e.files
      invariant ok && Outcome(t, true) == Run(world, FileSteps(e, f), start)
    {
      var mkdir, copy := Must(MakeParent(e, f)), When(SourceExists(e, f), CopyFile(e, f));
      assert FileSteps(e, f + 1) == (FileSteps(e, f) + [mkdir]) + [copy];
      RunOne(world, FileSteps(e, f), mkdir, start);
      RunOne(world, FileSteps(e, f) + [mkdir], copy, start);
      FileStepsFailEarly(world, e, f + 1, start);
      t, ok := Try(world, t, MakeParent(e, f));
      if !ok { return; }
      t, ok := Try(world, t, SourceExists(e, f));
      if !ok {
        ok := true;
        continue;
      }
      t, ok := Try(world, t, CopyFile(e, f));
      if !ok { return; }
    }
  }

  lemma {:induction false} FileStepsFailEarly(world: World, e: Ext, n: nat, start: seq<Event>)
    requires n <= e.files
    ensures !Run(world, FileSteps(e, n), start).ok ==>
              Run(world, FileSteps(e, e.files), start) == Run(world, FileSteps(e, n), start)
    decreases e.files - n
  {
    hide Run;
    if n < e.files {
      FileStepsFailEarly(world, e, n + 1, start);
      RunAppend(world, FileSteps(e, n), FilePair(e, n), start);
    }
  }

  method DeployExtension(world: World, e: Ext, start: seq<Event>) returns (t: seq<Event>, ok: bool)
    ensures Outcome(t, ok) == Run(world, DeploySteps(e), start)
  {
    hide Run, Preparation, HookSteps, FileSteps;
    var audit, mkdir, native := Must(AuditNative(e)), Must(MakeDestination(e)), Must(CopyNative(e));
    ghost var gated := Preparation(e) + HookSteps(e, e.hooks);
    assert DeploySteps(e) == ((gated + [audit] + [mkdir]) + FileSteps(e, e.files)) + [native];
    RunAppend(world, Preparation(e), HookSteps(e, e.hooks), start);
    RunOne(world, gated, audit, start);
    RunOne(world, gated + [audit], mkdir, start);
    RunAppend(world, gated + [audit] + [mkdir], FileSteps(e, e.files), start);
    RunOne(world, (gated + [audit] + [mkdir]) + FileSteps(e, e.files), native, start);
    t, ok := Prepare(world, e, start);
    if !ok { return; }
    t, ok := PreDeploy(world, e, t);
    if !ok { return; }
    t, ok := Try(world, t, AuditNative(e));
    if !ok { return; }
    t, ok := Try(world, t, MakeDestination(e));
    if !ok { return; }
    t, ok := CopyFiles(world, e, t);
    if !ok { return; }
    t, ok := Try(world, t, CopyNative(e));
  }

  method BuildAndDeploy(world: World, e: Ext, start: seq<Event>) returns (t: seq<Event>, ok: bool)
    ensures Outcome(t, ok) == Run(world, ExtSteps(e), start)
  {
    hide Run, DeploySteps;
    ghost var steps := ExtSteps(e);
    var rest := if e.device then [Must(InstallDevice(e))] else DeploySteps(e);
    assert steps[0..] == steps && steps[3..] == rest && rest[0..] == rest;
    RunFront(world, steps, 0, start);
    t, ok := Try(world, start, Discover(e));
    if !ok { return; }
    RunFront(world, steps, 1, t);
    t, ok := Try(world, t, IsStale(e));
    if ok {
      t, ok := Try(world, t, Build(e));
      if !ok { return; }
    }
    RunFront(world, steps, 2, t);
    t, ok := Try(world, t, DiscoverAtRoot(e));
    if !ok { return; }
    if e.device {
      assert rest[1..] == [];
      RunFront(world, rest, 0, t);
      t, ok := Try(world, t, InstallDevice(e));
      RunEmpty(world, t);
    } else {
      t, ok := DeployExtension(world, e, t);
    }
  }

  lemma RunEmpty(world: World, t: seq<Event>)
    ensures Run(world, [], t) == Outcome(t, true)
  {
  }

  /** The whole chain, as one run of its plan. */
  method BuildDeployReload(world: World, libs: seq<Lib>, exts: seq<Ext>) returns (t: seq<Event>, ok: bool)
    ensures Outcome(t, ok) == Run(world, Plan(libs, exts), [])
  {
    hide Run, ExtSteps;
    RunEmpty(world, []);
    t, ok := [], true;
    if libs == [] && exts == [] {
      return;
    }
    for i := 0 to |libs|
      invariant ok && Outcome(t, true) == Run(world, LibSteps(libs[..i]), [])
    {
      assert LibSteps(libs[..i + 1]) == LibSteps(libs[..i]) + [Must(BuildLib(libs[i]))];
      RunOne(world, LibSteps(libs[..i]), Must(BuildLib(libs[i])), []);
      t, ok := Try(world, t, BuildLib(libs[i]));
      if !ok {
        assert Plan(libs, exts)[..i + 1] == LibSteps(libs[..i + 1]);
        RunSplit(world, Plan(libs, exts), i + 1, []);
        return;
      }
    }
    assert libs[..|libs|] == libs;
    if exts == [] {
      assert Plan(libs, exts) == LibSteps(libs);
      return;
    }
    var deployed := [];
    ghost var built := t;
    RunEmpty(world, built);
    for i := 0 to |exts|
      invariant ok && Outcome(t, true) == Run(world, AllExtSteps(exts[..i]), built)
      invariant deployed == Names(exts[..i])
    {
      assert exts[..i + 1][..i] == exts[..i];
      RunAppend(world, AllExtSteps(exts[..i]), ExtSteps(exts[i]), built);
      t, ok := BuildAndDeploy(world, exts[i], t);
      if !ok {
        ExtFailsPlan(world, libs, exts, i + 1);
        return;
      }
      deployed := deployed + [exts[i].name];
    }
    assert exts[..|exts|] == exts;
    RunAppend(world, LibSteps(libs), AllExtSteps(exts), []);
    assert Plan(libs, exts) == (LibSteps(libs) + AllExtSteps(exts)) + [Must(Reload(Names(exts)))];
    RunOne(world, LibSteps(libs) + AllExtSteps(exts), Must(Reload(Names(exts))), []);
    t, ok := Try(world, t, Reload(deployed));
  }

  lemma {:induction false} AllExtStepsSplit(exts: seq<Ext>, n: nat)
    requires n <= |exts|
    ensures AllExtSteps(exts[..n]) <= AllExtSteps(exts)
  {
    hide ExtSteps;
    if n == |exts| {
      assert exts[..n] == exts;
    } else {
      AllExtStepsSplit(exts[..|exts| - 1], n);
      assert exts[..|exts| - 1][..n] == exts[..n];
    }
  }

  lemma ExtFailsPlan(world: World, libs: seq<Lib>, exts: seq<Ext>, n: nat)
    requires 0 < n <= |exts| && Run(world, LibSteps(libs), []).ok
    requires !Run(world, AllExtSteps(exts[..n]), Run(world, LibSteps(libs), []).trace).ok
    ensures Run(world, Plan(libs, exts), []) == Run(world, AllExtSteps(exts[..n]), Run(world, LibSteps(libs), []).trace)
  {
    hide Run, AllExtSteps;
    AllExtStepsSplit(exts, n);
    RunAppend(world, LibSteps(libs), AllExtSteps(exts[..n]), []);
    var m := |LibSteps(libs) + AllExtSteps(exts[..n])|;
    assert Plan(libs, exts)[..m] == LibSteps(libs) + AllExtSteps(exts[..n]);
    RunSplit(world, Plan(libs, exts), m, []);
  }

  // --- what every run guarantees ---------------------------------------------------------------

  predicate Makes(s: Step, c: Call) {
    s.call == c || (s.When? && s.probe == c)
  }

  /** Where in the plan the j-th event comes from: everything before it is the run of the
      steps before, preceded by at most the step's own probe. */
  lemma {:induction false} Locate(world: World, steps: seq<Step>, t: seq<Event>, j: nat) returns (i: nat)
    requires |t| <= j < |Run(world, steps, t).trace|
    ensures i < |steps| && Makes(steps[i], Run(world, steps, t).trace[j].call)
    ensures Run(world, steps[..i], t).ok && Run(world, steps[..i], t).trace <= Run(world, steps, t).trace[..j]
    ensures steps[i].Must? ==> Run(world, steps, t).trace[..j] == Run(world, steps[..i], t).trace
    ensures steps[i].When? && Run(world, steps, t).trace[j].call != steps[i].probe ==>
              j > 0 && Run(world, steps, t).trace[j - 1] == Event(steps[i].probe, true)
    decreases |steps|
  {
    var n := |steps| - 1;
    var before := Run(world, steps[..n], t);
    var whole := Run(world, steps, t).trace;
    RunSplit(world, steps, n, t);
    if j < |before.trace| {
      hide Do;
      i := Locate(world, steps[..n], t, j);
      assert steps[..n][..i] == steps[..i];
      assert whole[..j] == before.trace[..j];
    } else {
      i := n;
    }
  }

  /** What a finished step leaves in the trace. */
  predicate Left(s: Step, t: seq<Event>) {
    match s
    case Must(c) => Event(c, true) in t
    case When(p, c) => Event(p, false) in t || (Event(p, true) in t && Event(c, true) in t)
  }

  lemma {:induction false} Finished(world: World, steps: seq<Step>, t: seq<Event>)
    requires Run(world, steps, t).ok
    ensures forall s | s in steps :: Left(s, Run(world, steps, t).trace)
    decreases |steps|
  {
    if steps != [] {
      var n := |steps| - 1;
      Finished(world, steps[..n], t);
      assert steps == steps[..n] + [steps[n]];
      var before, after := Run(world, steps[..n], t).trace, Run(world, steps, t).trace;
      assert forall s | s in steps[..n] :: Left(s, before) && (Left(s, before) ==> Left(s, after));
    }
  }

  /** Probes choose, everything else is demanded. */
  predicate Sound(steps: seq<Step>) {
    forall s | s in steps :: !IsProbe(s.call) && (s.When? ==> IsProbe(s.probe))
  }

  predicate Failure(e: Event) {
    !e.ok && !IsProbe(e.call)
  }

  /** The first failure is the last event, and a run goes wrong by nothing else. */
  lemma {:induction false} FailureIsLast(world: World, steps: seq<Step>, t: seq<Event>)
    requires Sound(steps)
    ensures var o := Run(world, steps, t);
            && (forall j | |t| <= j < |o.trace| && Failure(o.trace[j]) :: !o.ok && j == |o.trace| - 1)
            && (!o.ok ==> |t| < |o.trace| && Failure(o.trace[|o.trace| - 1]))
    decreases |steps|
  {
    if steps != [] {
      var n := |steps| - 1;
      assert forall s | s in steps[..n] :: s in steps;
      FailureIsLast(world, steps[..n], t);
      assert steps[n] in steps;
    }
  }

  /** A call that changes the installed copy of an extension. */
  predicate Installs(c: Call) {
    c.MakeDestination? || c.MakeParent? || c.CopyFile? || c.CopyNative?
  }

  /** What must be in the plan before a call: a fresh bundle and the hooks before a hook, a
      fresh bundle and every hook before the installed copy changes. */
  predicate Gate(c: Call, pre: seq<Step>) {
    && (c.RunHook? || Installs(c) ==> forall s | s in Preparation(c.ext) :: s in pre)
    && (c.RunHook? ==> forall h | 0 <= h < c.hook :: Must(RunHook(c.ext, h)) in pre)
    && (Installs(c) ==> forall h | 0 <= h < c.ext.hooks :: Must(RunHook(c.ext, h)) in pre)
  }

  predicate Gated(steps: seq<Step>) {
    forall i | 0 <= i < |steps| :: Gate(steps[i].call, steps[..i])
  }

  lemma GatedAppend(a: seq<Step>, b: seq<Step>)
    requires Gated(a) && Gated(b)
    ensures Gated(a + b)
  {
    forall i | 0 <= i < |a + b|
      ensures Gate((a + b)[i].call, (a + b)[..i])
    {
      if i < |a| {
        assert (a + b)[..i] == a[..i];
      } else {
        assert (a + b)[..i] == a + b[..i - |a|];
      }
    }
  }

  /** A step of one extension's own build and deploy. */
  predicate Inner(s: Step, e: Ext) {
    && !s.call.BuildLib? && !s.call.Reload? && !IsProbe(s.call) && s.call.ext == e
    && (s.When? ==> IsProbe(s.probe))
  }

  predicate AllInner(steps: seq<Step>, e: Ext) {
    forall s | s in steps :: Inner(s, e)
  }

  /** Steps that run no hook, once every hook has its place before them. */
  lemma GatedAfter(a: seq<Step>, b: seq<Step>, e: Ext)
    requires Gated(a) && Hookless(b, e)
    requires forall s | s in Preparation(e) :: s in a
    requires forall h | 0 <= h < e.hooks :: Must(RunHook(e, h)) in a
    ensures Gated(a + b)
  {
    hide Preparation;
    forall i | 0 <= i < |a + b|
      ensures Gate((a + b)[i].call, (a + b)[..i])
    {
      if i < |a| {
        assert (a + b)[..i] == a[..i];
      } else {
        assert (a + b)[i] in b && (a + b)[..i] == a + b[..i - |a|];
      }
    }
  }

  lemma HooksPlanned(e: Ext, n: nat)
    ensures AllInner(HookSteps(e, n), e)
    ensures forall h | 0 <= h < n :: Must(RunHook(e, h)) in HookSteps(e, n)
  {
    assert forall h | 0 <= h < n :: HookSteps(e, n)[h] == Must(RunHook(e, h));
  }

  lemma HooksGated(e: Ext, n: nat)
    ensures Gated(Preparation(e) + HookSteps(e, n))
  {
    var steps := Preparation(e) + HookSteps(e, n);
    PreparationShape(e);
    hide Preparation;
    forall i | 0 <= i < |steps|
      ensures Gate(steps[i].call, steps[..i])
    {
      var k := i - |Preparation(e)|;
      if k < 0 {
        assert steps[i] in Preparation(e);
      } else {
        assert steps[..i] == Preparation(e) + HookSteps(e, n)[..k] && steps[i] == Must(RunHook(e, k));
        assert HookSteps(e, n)[..k] == HookSteps(e, k);
        HooksPlanned(e, k);
      }
    }
  }

  /** Steps of one extension that run no hook. */
  predicate Hookless(steps: seq<Step>, e: Ext) {
    AllInner(steps, e) && forall s | s in steps :: !s.call.RunHook?
  }

  lemma HooklessAppend(a: seq<Step>, b: seq<Step>, e: Ext)
    requires Hookless(a, e) && Hookless(b, e)
    ensures Hookless(a + b, e)
  {
    hide Inner;
    assert forall s | s in a + b :: s in a || s in b;
  }

  lemma {:induction false} FileStepsHookless(e: Ext, n: nat)
    ensures Hookless(FileSteps(e, n), e)
  {
    hide Hookless, FilePair;
    if n == 0 {
      EmptyHookless(e);
    } else {
      FileStepsHookless(e, n - 1);
      PairHookless(e, n - 1);
      HooklessAppend(FileSteps(e, n - 1), FilePair(e, n - 1), e);
    }
  }

  lemma EmptyHookless(e: Ext)
    ensures Hookless([], e)
  {
  }

  lemma {:induction false} FilePlanned(e: Ext, n: nat, f: nat)
    requires f < n
    ensures When(SourceExists(e, f), CopyFile(e, f)) in FileSteps(e, n)
  {
    var pair := FilePair(e, n - 1);
    assert FileSteps(e, n) == FileSteps(e, n - 1) + pair && pair[1] in pair;
    if f < n - 1 {
      FilePlanned(e, n - 1, f);
    }
  }

  lemma PairHookless(e: Ext, f: nat)
    ensures Hookless(FilePair(e, f), e)
  {
  }

  function Installation(e: Ext): seq<Step> {
    [Must(AuditNative(e)), Must(MakeDestination(e))] + FileSteps(e, e.files) + [Must(CopyNative(e))]
  }

  lemma InstallationShape(e: Ext)
    ensures Hookless(Installation(e), e)
    ensures forall f | 0 <= f < e.files :: When(SourceExists(e, f), CopyFile(e, f)) in Installation(e)
    ensures Must(CopyNative(e)) in Installation(e)
  {
    forall f | 0 <= f < e.files
      ensures When(SourceExists(e, f), CopyFile(e, f)) in FileSteps(e, e.files)
    {
      FilePlanned(e, e.files, f);
    }
    var first, last := [Must(AuditNative(e)), Must(MakeDestination(e))], [Must(CopyNative(e))];
    assert Hookless(first, e) && Hookless(last, e) && last[0] in last;
    assert Installation(e) == first + FileSteps(e, e.files) + last;
    hide *;
    FileStepsHookless(e, e.files);
    HooklessAppend(first, FileSteps(e, e.files), e);
    HooklessAppend(first + FileSteps(e, e.files), last, e);
  }

  lemma PreparationShape(e: Ext)
    ensures AllInner(Preparation(e), e)
    ensures forall s | s in Preparation(e) :: !s.call.RunHook? && !Installs(s.call)
  {
  }

  lemma PreparationParts(e: Ext)
    ensures When(IsStaleAtDeploy(e), BuildAtDeploy(e)) in Preparation(e)
    ensures Must(ManifestExists(e)) in Preparation(e) && Must(BundleExists(e)) in Preparation(e)
  {
    var steps := Preparation(e);
    assert steps[2] in steps && steps[3] in steps && steps[4] in steps;
  }

  lemma DeployStepsGated(e: Ext)
    ensures Gated(DeploySteps(e)) && AllInner(DeploySteps(e), e)
    ensures forall s | s in Preparation(e) || s in HookSteps(e, e.hooks) || s in Installation(e) :: s in DeploySteps(e)
  {
    PreparationShape(e);
    HooksPlanned(e, e.hooks);
    HooksGated(e, e.hooks);
    InstallationShape(e);
    hide FileSteps, Preparation, HookSteps, Inner, Gated;
    assert DeploySteps(e) == (Preparation(e) + HookSteps(e, e.hooks)) + Installation(e);
    hide DeploySteps, Installation;
    GatedAfter(Preparation(e) + HookSteps(e, e.hooks), Installation(e), e);
  }

  lemma ExtStepsGated(e: Ext)
    ensures Gated(ExtSteps(e)) && AllInner(ExtSteps(e), e)
  {
    DeployStepsGated(e);
    hide DeploySteps;
    GatedAppend([Must(Discover(e)), When(IsStale(e), Build(e)), Must(DiscoverAtRoot(e))],
                if e.device then [Must(InstallDevice(e))] else DeploySteps(e));
  }

  lemma {:induction false} AllExtStepsGated(exts: seq<Ext>)
    ensures Gated(AllExtSteps(exts))
    ensures forall s | s in AllExtSteps(exts) :: !s.call.BuildLib? && !s.call.Reload? && Inner(s, s.call.ext)
    ensures forall e, s | e in exts && s in ExtSteps(e) :: s in AllExtSteps(exts)
    decreases |exts|
  {
    hide ExtSteps, Gated;
    if exts == [] {
      EmptyGated();
    } else {
      var n := |exts| - 1;
      AllExtStepsGated(exts[..n]);
      ExtStepsGated(exts[n]);
      GatedAppend(AllExtSteps(exts[..n]), ExtSteps(exts[n]));
      assert exts == exts[..n] + [exts[n]];
    }
  }

  lemma EmptyGated()
    ensures Gated([])
  {
  }

  lemma UngatedGated(steps: seq<Step>)
    requires forall s | s in steps :: !s.call.RunHook? && !Installs(s.call)
    ensures Gated(steps)
  {
    assert forall i | 0 <= i < |steps| :: steps[i] in steps;
  }

  lemma PlanGated(libs: seq<Lib>, exts: seq<Ext>)
    ensures Gated(Plan(libs, exts))
  {
    var build, deploy, reload := LibSteps(libs), AllExtSteps(exts), [Must(Reload(Names(exts)))];
    assert Plan(libs, exts) == if exts == [] then build else (build + deploy) + reload;
    assert Gated(build) by { UngatedGated(build); }
    assert Gated(deploy) by { AllExtStepsGated(exts); }
    assert Gated(reload) by { UngatedGated(reload); }
    hide *;
    GatedAppend(build, deploy);
    GatedAppend(build + deploy, reload);
  }

  /** Which step makes which kind of call: libraries first, the reload last. */
  lemma PlanShape(libs: seq<Lib>, exts: seq<Ext>, i: nat, c: Call)
    requires i < |Plan(libs, exts)| && Makes(Plan(libs, exts)[i], c)
    ensures c.BuildLib? <==> i < |libs|
    ensures c.Reload? <==> exts != [] && i == |Plan(libs, exts)| - 1
    ensures c.Reload? ==> c.names == Names(exts)
    ensures i < |libs| ==> Plan(libs, exts)[i] == Must(c) && c == BuildLib(libs[i])
    ensures !IsProbe(Plan(libs, exts)[i].call) && (Plan(libs, exts)[i].When? ==> IsProbe(Plan(libs, exts)[i].probe))
    ensures c.Reload? ==> Plan(libs, exts)[i] == Must(c)
  {
    AllExtStepsGated(exts);
    hide AllExtSteps, LibSteps, Gated;
    var k := i - |libs|;
    if i < |libs| {
      assert Plan(libs, exts)[i] == LibSteps(libs)[i];
    } else if k < |AllExtSteps(exts)| {
      assert Plan(libs, exts)[i] == AllExtSteps(exts)[k];
    } else {
      assert Plan(libs, exts)[i] == Must(Reload(Names(exts)));
    }
  }

  lemma PlanSound(libs: seq<Lib>, exts: seq<Ext>)
    ensures Sound(Plan(libs, exts))
  {
    hide Plan;
    forall s | s in Plan(libs, exts)
      ensures !IsProbe(s.call) && (s.When? ==> IsProbe(s.probe))
    {
      var i :| 0 <= i < |Plan(libs, exts)| && Plan(libs, exts)[i] == s;
      PlanShape(libs, exts, i, s.call);
    }
  }

  /** Library builds come first, in order and one after the other, and nothing else happens
      before all of them have gone well. */
  lemma LibrariesFirst(world: World, libs: seq<Lib>, exts: seq<Ext>, j: nat)
    requires j < |Run(world, Plan(libs, exts), []).trace|
    ensures var t := Run(world, Plan(libs, exts), []).trace;
            && (t[j].call.BuildLib? <==> j < |libs|)
            && (forall k | 0 <= k < j && k < |libs| :: t[k] == Event(BuildLib(libs[k]), true))
            && (j < |libs| ==> t[j].call == BuildLib(libs[j]))
  {
    var steps := Plan(libs, exts);
    hide *;
    var t := Run(world, steps, []).trace;
    var i := Locate(world, steps, [], j);
    PlanShape(libs, exts, i, t[j].call);
    LibrariesSoFar(world, libs, exts, i);
  }

  lemma LibrariesSoFar(world: World, libs: seq<Lib>, exts: seq<Ext>, i: nat)
    requires i <= |Plan(libs, exts)| && Run(world, Plan(libs, exts)[..i], []).ok
    ensures var t := Run(world, Plan(libs, exts)[..i], []).trace;
            && |t| >= (if i < |libs| then i else |libs|)
            && (i < |libs| ==> |t| == i)
            && forall k | 0 <= k < i && k < |libs| :: t[k] == Event(BuildLib(libs[k]), true)
  {
    var steps, build := Plan(libs, exts), LibSteps(libs);
    LibrariesLead(libs, exts);
    hide *;
    var n := if i < |libs| then i else |libs|;
    assert steps[..i][..n] == build[..n];
    RunSplit(world, steps[..i], n, []);
    LibrariesRun(world, libs, n);
    assert i < |libs| ==> steps[..i] == build[..n];
  }

  lemma LibrariesLead(libs: seq<Lib>, exts: seq<Ext>)
    ensures LibSteps(libs) <= Plan(libs, exts)
  {
  }

  lemma {:induction false} LibrariesRun(world: World, libs: seq<Lib>, n: nat)
    requires n <= |libs| && Run(world, LibSteps(libs)[..n], []).ok
    ensures var t := Run(world, LibSteps(libs)[..n], []).trace;
            |t| == n && forall k | 0 <= k < n :: t[k] == Event(BuildLib(libs[k]), true)
  {
    hide LibSteps;
    if n > 0 {
      assert LibSteps(libs)[..n][..n - 1] == LibSteps(libs)[..n - 1];
      LibrariesRun(world, libs, n - 1);
    }
  }

  /** The installed copy of an extension changes only after every one of its hooks has
      allowed it, a hook runs only after those before it have, and neither happens before
      the bundle is fresh and both build outputs are there. */
  lemma HooksGateCopies(world: World, libs: seq<Lib>, exts: seq<Ext>, j: nat)
    requires j < |Run(world, Plan(libs, exts), []).trace|
    ensures var t := Run(world, Plan(libs, exts), []).trace; var c := t[j].call;
            && (Installs(c) ==> Allowed(c.ext, t[..j]))
            && (c.RunHook? ==> forall h | 0 <= h < c.hook :: Event(RunHook(c.ext, h), true) in t[..j])
            && (c.RunHook? || Installs(c) ==>
                  && Prepared(c.ext, t[..j])
                  && Event(ManifestExists(c.ext), true) in t[..j] && Event(BundleExists(c.ext), true) in t[..j])
  {
    var steps := Plan(libs, exts);
    PlanGated(libs, exts);
    hide Plan, Run, Gate, Left, Prepared, Allowed;
    var t := Run(world, steps, []).trace;
    var i := Locate(world, steps, [], j);
    PlanShape(libs, exts, i, t[j].call);
    Finished(world, steps[..i], []);
    assert Gate(steps[i].call, steps[..i]);
    assert t[j].call == steps[i].call || IsProbe(t[j].call);
    GateKept(steps[i].call, steps[..i], Run(world, steps[..i], []).trace, t[..j]);
  }

  lemma GateKept(c: Call, pre: seq<Step>, early: seq<Event>, t: seq<Event>)
    requires Gate(c, pre) && early <= t && forall s | s in pre :: Left(s, early)
    ensures Installs(c) ==> Allowed(c.ext, t)
    ensures c.RunHook? ==> forall h | 0 <= h < c.hook :: Event(RunHook(c.ext, h), true) in t
    ensures c.RunHook? || Installs(c) ==>
              Prepared(c.ext, t) && Event(ManifestExists(c.ext), true) in t && Event(BundleExists(c.ext), true) in t
  {
    if c.RunHook? || Installs(c) {
      var e := c.ext;
      PreparationParts(e);
      hide Preparation;
      assert Left(When(IsStaleAtDeploy(e), BuildAtDeploy(e)), early);
      assert Left(Must(ManifestExists(e)), early) && Left(Must(BundleExists(e)), early);
      assert forall h | Must(RunHook(e, h)) in pre :: Left(Must(RunHook(e, h)), early);
    }
  }

  predicate Prepared(e: Ext, t: seq<Event>) {
    Event(IsStaleAtDeploy(e), false) in t || Event(BuildAtDeploy(e), true) in t
  }

  predicate Allowed(e: Ext, t: seq<Event>) {
    forall h | 0 <= h < e.hooks :: Event(RunHook(e, h), true) in t
  }

  /** Each file of the copy set is copied unless it has no source. */
  predicate Installed(e: Ext, t: seq<Event>) {
    && (forall f | 0 <= f < e.files :: Event(CopyFile(e, f), true) in t || Event(SourceExists(e, f), false) in t)
    && Event(CopyNative(e), true) in t
  }

  /** Everything one extension needs has been done. */
  predicate Deployed(e: Ext, t: seq<Event>) {
    && (Event(IsStale(e), false) in t || Event(Build(e), true) in t)
    && if e.device then Event(InstallDevice(e), true) in t else Prepared(e, t) && Allowed(e, t) && Installed(e, t)
  }

  predicate AllLeft(steps: seq<Step>, t: seq<Event>) {
    forall s | s in steps :: Left(s, t)
  }

  lemma LeftPart(a: seq<Step>, b: seq<Step>, t: seq<Event>)
    requires AllLeft(a, t) && forall s | s in b :: s in a
    ensures AllLeft(b, t)
  {
  }

  lemma PiecesLeft(e: Ext, t: seq<Event>)
    requires AllLeft(Preparation(e), t) && AllLeft(HookSteps(e, e.hooks), t) && AllLeft(Installation(e), t)
    ensures Prepared(e, t) && Allowed(e, t) && Installed(e, t)
  {
    assert Prepared(e, t) by {
      PreparationParts(e);
      hide Preparation;
      assert Left(When(IsStaleAtDeploy(e), BuildAtDeploy(e)), t);
    }
    assert Allowed(e, t) by {
      HooksPlanned(e, e.hooks);
      hide HookSteps;
      assert forall h | 0 <= h < e.hooks :: Left(Must(RunHook(e, h)), t);
    }
    assert Installed(e, t) by {
      InstallationShape(e);
      hide Installation;
      assert Left(Must(CopyNative(e)), t);
      assert forall f | 0 <= f < e.files :: Left(When(SourceExists(e, f), CopyFile(e, f)), t);
    }
  }

  lemma ExtStepsDeploy(e: Ext, t: seq<Event>)
    requires AllLeft(ExtSteps(e), t)
    ensures Deployed(e, t)
  {
    hide Preparation, HookSteps, Installation, DeploySteps, Prepared, Allowed, Installed, Gated, AllInner;
    assert ExtSteps(e)[1] == When(IsStale(e), Build(e));
    assert Left(ExtSteps(e)[1], t);
    if e.device {
      assert ExtSteps(e)[3] == Must(InstallDevice(e));
      assert Left(ExtSteps(e)[3], t);
    } else {
      DeployStepsGated(e);
      assert forall s | s in DeploySteps(e) :: s in ExtSteps(e);
      hide ExtSteps, AllLeft, Left;
      LeftPart(ExtSteps(e), Preparation(e), t);
      LeftPart(ExtSteps(e), HookSteps(e, e.hooks), t);
      LeftPart(ExtSteps(e), Installation(e), t);
      PiecesLeft(e, t);
    }
  }

  /** These are the names of the extensions, each once and in order. */
  predicate Naming(names: seq<string>, exts: seq<Ext>) {
    |names| == |exts| && forall i | 0 <= i < |exts| :: names[i] == exts[i].name
  }

  /** A reload of exactly these extensions, which was granted. */
  predicate Granted(last: Event, exts: seq<Ext>) { last.ok && last.call.Reload? && Naming(last.call.names, exts) }

  /** A reload is asked for at most once, as the last event, naming exactly the affected
      extensions in order, all of which have been deployed by then. */
  lemma ReloadOnceAfterDeploys(world: World, libs: seq<Lib>, exts: seq<Ext>, j: nat)
    requires j < |Run(world, Plan(libs, exts), []).trace| && Run(world, Plan(libs, exts), []).trace[j].call.Reload?
    ensures var t := Run(world, Plan(libs, exts), []).trace;
            && exts != [] && Naming(t[j].call.names, exts) && j == |t| - 1
            && (forall k | 0 <= k < j :: !t[k].call.Reload?)
            && (forall e | e in exts :: Deployed(e, t[..j]))
  {
    var steps := Plan(libs, exts);
    var t := Run(world, steps, []).trace;
    var i := Locate(world, steps, [], j);
    PlanShape(libs, exts, i, t[j].call);
    assert Run(world, steps, []) == Do(world, steps[i], Run(world, steps[..i], []).trace);
    var early := t[..j];
    assert exts != [] && i == |steps| - 1;
    assert steps[..i] == LibSteps(libs) + AllExtSteps(exts);
    Finished(world, steps[..i], []);
    hide *;
    forall e | e in exts
      ensures Deployed(e, early)
    {
      ExtLeft(libs, exts, e, early);
      ExtStepsDeploy(e, early);
    }
    forall k | 0 <= k < j
      ensures !t[k].call.Reload?
    {
      assert t[k] == early[k];
      var m := Locate(world, steps[..i], [], k);
      assert steps[..i][m] == steps[m];
      PlanShape(libs, exts, m, t[k].call);
    }
  }

  lemma ExtLeft(libs: seq<Lib>, exts: seq<Ext>, e: Ext, t: seq<Event>)
    requires e in exts && forall s | s in LibSteps(libs) + AllExtSteps(exts) :: Left(s, t)
    ensures AllLeft(ExtSteps(e), t)
  {
    hide AllExtSteps, ExtSteps, Left, Gated, Inner;
    AllExtStepsGated(exts);
  }

  /** A failed build, veto, copy or any other call ends the chain on the spot, without a
      reload unless the reload itself failed; a chain goes well exactly when nothing failed,
      and then it ends in a granted reload if any extension was affected. */
  lemma FailureEndsChain(world: World, libs: seq<Lib>, exts: seq<Ext>)
    ensures var o := Run(world, Plan(libs, exts), []);
            && (o.ok <==> forall j | 0 <= j < |o.trace| :: !Failure(o.trace[j]))
            && (forall j | 0 <= j < |o.trace| && Failure(o.trace[j]) ::
                  j == |o.trace| - 1 && forall k | 0 <= k < j :: !o.trace[k].call.Reload?)
            && (o.ok && exts != [] ==> o.trace != [] && Granted(o.trace[|o.trace| - 1], exts))
            && (exts == [] ==> |o.trace| <= |libs|)
  {
    hide *;
    var o := Run(world, Plan(libs, exts), []);
    PlanSound(libs, exts);
    FailureIsLast(world, Plan(libs, exts), []);
    if exts == [] { LibrariesOnly(world, libs); }
    forall k | 0 <= k < |o.trace| - 1
      ensures !o.trace[k].call.Reload?
    {
      if o.trace[k].call.Reload? { ReloadOnceAfterDeploys(world, libs, exts, k); }
    }
    if o.ok && exts != [] { GoodEndsGranted(world, libs, exts); }
  }

  lemma LibrariesOnly(world: World, libs: seq<Lib>)
    ensures |Run(world, Plan(libs, []), []).trace| <= |libs|
  {
    hide Run, Plan;
    if |Run(world, Plan(libs, []), []).trace| > |libs| {
      var t := Run(world, Plan(libs, []), []).trace;
      LibrariesFirst(world, libs, [], |libs|);
      var i := Locate(world, Plan(libs, []), [], |libs|);
      PlanShape(libs, [], i, t[|libs|].call);
      assert |Plan(libs, [])| == |libs| by { PlanSize(libs); }
    }
  }

  lemma PlanSize(libs: seq<Lib>)
    ensures |Plan(libs, [])| == |libs|
  {
  }

  lemma GoodEndsGranted(world: World, libs: seq<Lib>, exts: seq<Ext>)
    requires exts != [] && Run(world, Plan(libs, exts), []).ok
    ensures var t := Run(world, Plan(libs, exts), []).trace; t != [] && Granted(t[|t| - 1], exts)
  {
    var steps := Plan(libs, exts);
    assert steps != [] && steps[|steps| - 1] == Must(Reload(Names(exts)));
    assert Naming(Names(exts), exts);
    hide Run, Plan, Names, Naming;
    LastStepLast(world, steps);
  }

  lemma LastStepLast(world: World, steps: seq<Step>)
    requires steps != [] && steps[|steps| - 1].Must? && Run(world, steps, []).ok
    ensures var t := Run(world, steps, []).trace; t != [] && t[|t| - 1] == Event(steps[|steps| - 1].call, true)
  {
  }

  // --- one step after the other ----------------------------------------------------------------

  /** What must have been done right before a call, so that nothing is skipped and nothing comes
      too early. */
  predicate Needed(c: Call, s: Step) {
    match c
    case BuildLib(_) => false
    case Discover(_) => false
    case IsStale(e) => s == Must(Discover(e))
    case Build(e) => s == Must(Discover(e))
    case DiscoverAtRoot(e) => s == When(IsStale(e), Build(e))
    case ResolveExtension(e) => s == Must(DiscoverAtRoot(e))
    case ResolveUserLibrary(e) => s == Must(ResolveExtension(e))
    case IsStaleAtDeploy(e) => s == Must(ResolveUserLibrary(e))
    case BuildAtDeploy(e) => s == Must(ResolveUserLibrary(e))
    case ManifestExists(e) => s == When(IsStaleAtDeploy(e), BuildAtDeploy(e))
    case BundleExists(e) => s == Must(ManifestExists(e))
    case ReadManifest(e) => s == Must(BundleExists(e))
    case ResolveHooks(e) => s == Must(ReadManifest(e))
    case RunHook(e, h) =>
      s == Must(ResolveHooks(e)) || (s.Must? && s.call.RunHook? && s.call.ext == e && s.call.hook < h)
    case AuditNative(e) =>
      s == Must(ResolveHooks(e)) || (s.Must? && s.call.RunHook? && s.call.ext == e && s.call.hook < e.hooks)
    case MakeDestination(e) => s == Must(AuditNative(e))
    case MakeParent(e, f) => s == Must(MakeDestination(e)) || EarlierFile(e, f, s)
    case SourceExists(e, f) => s == Must(MakeParent(e, f))
    case CopyFile(e, f) => s == Must(MakeParent(e, f))
    case CopyNative(e) => s == Must(MakeDestination(e)) || EarlierFile(e, e.files, s)
    case InstallDevice(e) => s == Must(DiscoverAtRoot(e))
    case Reload(_) => false
  }

  predicate EarlierFile(e: Ext, f: nat, s: Step) {
    s.When? && s.call.CopyFile? && s.call.ext == e && s.call.file < f && s.probe == SourceExists(e, s.call.file)
  }

  ghost predicate Ready(c: Call, pre: seq<Step>) { forall s | Needed(c, s) :: s in pre }

  ghost predicate StepReady(s: Step, pre: seq<Step>) { Ready(s.call, pre) && (s.When? ==> Ready(s.probe, pre)) }

  /** After `done`, each of the steps finds done what it needs. */
  ghost predicate InOrder(done: seq<Step>, steps: seq<Step>) {
    forall i | 0 <= i < |steps| :: StepReady(steps[i], done + steps[..i])
  }

  lemma InOrderAppend(done: seq<Step>, a: seq<Step>, b: seq<Step>)
    requires InOrder(done, a) && InOrder(done + a, b)
    ensures InOrder(done, a + b)
  {
    hide StepReady;
    forall i | 0 <= i < |a + b|
      ensures StepReady((a + b)[i], done + (a + b)[..i])
    {
      if i < |a| {
        assert (a + b)[..i] == a[..i];
      } else {
        assert done + (a + b)[..i] == (done + a) + b[..i - |a|];
      }
    }
  }

  lemma InOrderOne(done: seq<Step>, a: seq<Step>, s: Step)
    requires InOrder(done, a) && StepReady(s, done + a)
    ensures InOrder(done, a + [s])
  {
    hide StepReady;
    assert done + a + [] == done + a && [s][..0] == [];
    InOrderAppend(done, a, [s]);
  }

  lemma StartInOrder(done: seq<Step>, e: Ext)
    ensures InOrder(done, [Must(Discover(e)), When(IsStale(e), Build(e)), Must(DiscoverAtRoot(e))])
  {
    var s0, s1, s2 := Must(Discover(e)), When(IsStale(e), Build(e)), Must(DiscoverAtRoot(e));
    assert StepReady(s0, done + []);
    assert StepReady(s1, done + [s0]);
    assert StepReady(s2, done + [s0, s1]);
    assert InOrder(done, []);
    hide StepReady, InOrder;
    InOrderOne(done, [], s0);
    assert [] + [s0] == [s0] && [s0] + [s1] == [s0, s1] && [s0, s1] + [s2] == [s0, s1, s2];
    InOrderOne(done, [s0], s1);
    InOrderOne(done, [s0, s1], s2);
  }

  lemma ReadyAfter(c: Call, before: Step, pre: seq<Step>)
    requires (forall s | Needed(c, s) :: s == before) && before in pre
    ensures Ready(c, pre)
  {
  }

  lemma PreparationInOrder(done: seq<Step>, e: Ext)
    requires Must(DiscoverAtRoot(e)) in done
    ensures InOrder(done, Preparation(e))
  {
    var p := Preparation(e);
    forall i | 0 <= i < |p|
      ensures StepReady(p[i], done + p[..i])
    {
      var before := if i == 0 then Must(DiscoverAtRoot(e)) else p[i - 1];
      assert i > 0 ==> (done + p[..i])[|done| + i - 1] == p[i - 1];
      assert before in done + p[..i];
      ReadyAfter(p[i].call, before, done + p[..i]);
      if p[i].When? { ReadyAfter(p[i].probe, before, done + p[..i]); }
    }
  }

  lemma {:induction false} HooksInOrder(done: seq<Step>, e: Ext, n: nat)
    requires Must(ResolveHooks(e)) in done
    ensures InOrder(done, HookSteps(e, n))
  {
    forall i | 0 <= i < n
      ensures StepReady(HookSteps(e, n)[i], done + HookSteps(e, n)[..i])
    {
      assert HookSteps(e, n)[..i] == HookSteps(e, i);
      HooksPlanned(e, i);
    }
  }

  lemma {:induction false} FilesInOrder(done: seq<Step>, e: Ext, n: nat)
    requires Must(MakeDestination(e)) in done
    ensures InOrder(done, FileSteps(e, n))
  {
    if n > 0 {
      var before, mkdir := FileSteps(e, n - 1), Must(MakeParent(e, n - 1));
      var copy := When(SourceExists(e, n - 1), CopyFile(e, n - 1));
      FilesInOrder(done, e, n - 1);
      FilesReady(done, e, n - 1);
      assert FileSteps(e, n) == (before + [mkdir]) + [copy];
      assert StepReady(mkdir, done + before);
      assert mkdir in done + (before + [mkdir]);
      assert StepReady(copy, done + (before + [mkdir]));
      hide StepReady, InOrder, FileSteps;
      InOrderOne(done, before, mkdir);
      InOrderOne(done, before + [mkdir], copy);
    }
  }

  lemma EarlierPlanned(e: Ext, n: nat, s: Step)
    requires EarlierFile(e, n, s)
    ensures s in FileSteps(e, n)
  {
    FilePlanned(e, n, s.call.file);
    assert s == When(SourceExists(e, s.call.file), CopyFile(e, s.call.file));
    hide FileSteps;
  }

  lemma NeededByFiles(e: Ext, n: nat, s: Step)
    ensures Needed(MakeParent(e, n), s) <==> s == Must(MakeDestination(e)) || EarlierFile(e, n, s)
    ensures Needed(CopyNative(e), s) <==> s == Must(MakeDestination(e)) || EarlierFile(e, e.files, s)
  {
    hide EarlierFile;
  }

  lemma FilesReady(done: seq<Step>, e: Ext, n: nat)
    requires Must(MakeDestination(e)) in done
    ensures Ready(MakeParent(e, n), done + FileSteps(e, n))
    ensures n == e.files ==> Ready(CopyNative(e), done + FileSteps(e, n))
  {
    hide FileSteps, EarlierFile, Needed;
    forall s | Needed(MakeParent(e, n), s) || (n == e.files && Needed(CopyNative(e), s))
      ensures s in done + FileSteps(e, n)
    {
      NeededByFiles(e, n, s);
      if EarlierFile(e, n, s) { EarlierPlanned(e, n, s); }
    }
  }

  lemma InstallationInOrder(done: seq<Step>, e: Ext)
    requires Must(ResolveHooks(e)) in done && forall h | 0 <= h < e.hooks :: Must(RunHook(e, h)) in done
    ensures InOrder(done, Installation(e))
  {
    var audit, mkdir, native := Must(AuditNative(e)), Must(MakeDestination(e)), Must(CopyNative(e));
    var files := FileSteps(e, e.files);
    assert Installation(e) == ([audit, mkdir] + files) + [native];
    assert StepReady(audit, done + []);
    assert audit in done + [audit];
    assert StepReady(mkdir, done + [audit]);
    assert mkdir in done + [audit, mkdir];
    FilesInOrder(done + [audit, mkdir], e, e.files);
    FilesReady(done + [audit, mkdir], e, e.files);
    assert (done + [audit, mkdir]) + files == done + ([audit, mkdir] + files);
    assert StepReady(native, done + ([audit, mkdir] + files));
    assert InOrder(done, []);
    hide StepReady, InOrder, FileSteps, Installation;
    assert [] + [audit] == [audit] && [audit] + [mkdir] == [audit, mkdir];
    InOrderOne(done, [], audit);
    InOrderOne(done, [audit], mkdir);
    InOrderAppend(done, [audit, mkdir], files);
    InOrderOne(done, [audit, mkdir] + files, native);
  }

  lemma DeployInOrder(done: seq<Step>, e: Ext)
    requires Must(DiscoverAtRoot(e)) in done
    ensures InOrder(done, DeploySteps(e))
  {
    var prep, hooks := Preparation(e), HookSteps(e, e.hooks);
    assert prep[6] == Must(ResolveHooks(e)) && Must(ResolveHooks(e)) in prep;
    assert DeploySteps(e) == (prep + hooks) + Installation(e);
    assert (done + prep) + hooks == done + (prep + hooks);
    hide InOrder, Preparation, HookSteps, Installation, DeploySteps;
    PreparationInOrder(done, e);
    HooksPlanned(e, e.hooks);
    HooksInOrder(done + prep, e, e.hooks);
    InOrderAppend(done, prep, hooks);
    InstallationInOrder(done + (prep + hooks), e);
    InOrderAppend(done, prep + hooks, Installation(e));
  }

  lemma ExtInOrder(done: seq<Step>, e: Ext)
    ensures InOrder(done, ExtSteps(e))
  {
    var start := [Must(Discover(e)), When(IsStale(e), Build(e)), Must(DiscoverAtRoot(e))];
    assert start[2] in start;
    StartInOrder(done, e);
    if e.device {
      assert StepReady(Must(InstallDevice(e)), done + start);
      hide InOrder;
      InOrderOne(done, start, Must(InstallDevice(e)));
    } else {
      hide InOrder, DeploySteps;
      DeployInOrder(done + start, e);
      InOrderAppend(done, start, DeploySteps(e));
    }
  }

  lemma {:induction false} AllExtsInOrder(done: seq<Step>, exts: seq<Ext>)
    ensures InOrder(done, AllExtSteps(exts))
    decreases |exts|
  {
    if exts != [] {
      hide InOrder, ExtSteps;
      AllExtsInOrder(done, exts[..|exts| - 1]);
      ExtInOrder(done + AllExtSteps(exts[..|exts| - 1]), exts[|exts| - 1]);
      InOrderAppend(done, AllExtSteps(exts[..|exts| - 1]), ExtSteps(exts[|exts| - 1]));
    }
  }

  lemma PlanInOrder(libs: seq<Lib>, exts: seq<Ext>)
    ensures InOrder([], Plan(libs, exts))
  {
    var build, deploy, reload := LibSteps(libs), AllExtSteps(exts), Must(Reload(Names(exts)));
    assert Plan(libs, exts) == if exts == [] then build else (build + deploy) + [reload];
    assert InOrder([], build);
    assert StepReady(reload, [] + (build + deploy));
    hide InOrder, LibSteps, AllExtSteps, StepReady, Plan;
    AllExtsInOrder([] + build, exts);
    InOrderAppend([], build, deploy);
    InOrderOne([], build + deploy, reload);
  }

  /** Whatever fails, every call of a chain comes after all that it needs, step by step; and a
      build or a copy is made right after the probe that asked for it. */
  lemma StepsInOrder(world: World, libs: seq<Lib>, exts: seq<Ext>, j: nat)
    requires j < |Run(world, Plan(libs, exts), []).trace|
    ensures var t := Run(world, Plan(libs, exts), []).trace; var c := t[j].call;
            && (forall s | Needed(c, s) :: Left(s, t[..j]))
            && (c.Build? ==> j > 0 && t[j - 1] == Event(IsStale(c.ext), true))
            && (c.BuildAtDeploy? ==> j > 0 && t[j - 1] == Event(IsStaleAtDeploy(c.ext), true))
            && (c.CopyFile? ==> j > 0 && t[j - 1] == Event(SourceExists(c.ext, c.file), true))
  {
    var steps := Plan(libs, exts);
    PlanInOrder(libs, exts);
    hide Plan, Run, Needed, Left;
    var t := Run(world, steps, []).trace;
    var i := Locate(world, steps, [], j);
    PlanShape(libs, exts, i, t[j].call);
    Finished(world, steps[..i], []);
    assert StepReady(steps[i], [] + steps[..i]);
    assert [] + steps[..i] == steps[..i];
    assert Ready(t[j].call, steps[..i]);
    var early := Run(world, steps[..i], []).trace;
    forall s | Needed(t[j].call, s)
      ensures Left(s, t[..j])
    {
      LeftLater(s, early, t[..j]);
    }
    WhenOf(libs, exts, i);
  }

  lemma LeftLater(s: Step, early: seq<Event>, t: seq<Event>)
    requires Left(s, early) && early <= t
    ensures Left(s, t)
  {
  }

  /** Which probe stands before which call. */
  predicate Paired(s: Step) {
    && (s.call.Build? ==> s == When(IsStale(s.call.ext), s.call))
    && (s.call.BuildAtDeploy? ==> s == When(IsStaleAtDeploy(s.call.ext), s.call))
    && (s.call.CopyFile? ==> s == When(SourceExists(s.call.ext, s.call.file), s.call))
  }

  lemma {:induction false} FilesPaired(e: Ext, n: nat)
    ensures forall s | s in FileSteps(e, n) :: Paired(s)
  {
    if n > 0 { FilesPaired(e, n - 1); }
  }

  lemma ExtPaired(e: Ext)
    ensures forall s | s in ExtSteps(e) :: Paired(s)
  {
    FilesPaired(e, e.files);
    assert forall s | s in Preparation(e) :: Paired(s);
    assert forall s | s in HookSteps(e, e.hooks) :: Paired(s);
    hide FileSteps, Preparation, HookSteps;
  }

  lemma {:induction false} AllPaired(exts: seq<Ext>)
    ensures forall s | s in AllExtSteps(exts) :: Paired(s)
    decreases |exts|
  {
    hide Paired, ExtSteps;
    if exts != [] {
      AllPaired(exts[..|exts| - 1]);
      ExtPaired(exts[|exts| - 1]);
    }
  }

  lemma WhenOf(libs: seq<Lib>, exts: seq<Ext>, i: nat)
    requires i < |Plan(libs, exts)|
    ensures Paired(Plan(libs, exts)[i])
  {
    AllPaired(exts);
    var k := i - |libs|;
    hide AllExtSteps, LibSteps;
    if 0 <= k < |AllExtSteps(exts)| { assert Plan(libs, exts)[i] == AllExtSteps(exts)[k]; }
  }
}
