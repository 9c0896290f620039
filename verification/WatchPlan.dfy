/** Which extensions and libraries a batch of changed paths touches. */
module WatchPlan {
  import opened Text
  import opened Registry

  /** A workspace library; its watched sources are the `src` directory of its root. */
  datatype Lib = Lib(name: string, root: Path, src: Path)

  datatype EntryPlan = EntryPlan(name: string, root: Path, kind: Option<Kind>, libs: seq<Lib>)

  /** Canonicalization, where it succeeds. */
  type Canon = Path -> Option<Path>

  const SOURCE_EXTS := ["ts", "tsx", "js", "jsx", "mjs", "cjs", "json", "css"]

  predicate IsSourceInput(path: Path) {
    && "dist" !in path && "node_modules" !in path
    && path != [] && path[|path| - 1] != "manifest.json"
    && exists i | 0 <= i < |SOURCE_EXTS| :: EndsWith(path[|path| - 1], "." + SOURCE_EXTS[i])
  }

  predicate PathUnder(canon: Canon, path: Path, base: Path) {
    base <= path || (canon(path).Some? && canon(base).Some? && canon(base).value <= canon(path).value)
  }

  predicate InLib(canon: Canon, path: Path, lib: Lib) {
    PathUnder(canon, path, lib.src) || PathUnder(canon, path, lib.root)
  }

  /** What a batch touches: the extensions to rebuild and redeploy, their registered kinds,
      and the libraries to rebuild first, by root. */
  datatype ChangeSet = ChangeSet(affected: map<string, Path>, kinds: map<string, Option<Kind>>, libs: map<Path, Lib>)

  const NOTHING := ChangeSet(map[], map[], map[])

  /** First `a`, then `b`: later entries win. */
  function Merge(a: ChangeSet, b: ChangeSet): ChangeSet {
    ChangeSet(a.affected + b.affected, a.kinds + b.kinds, a.libs + b.libs)
  }

  function Touched(e: EntryPlan, libs: map<Path, Lib>): ChangeSet {
    ChangeSet(map[e.name := e.root], map[e.name := e.kind], libs)
  }

  function OnLibs(canon: Canon, path: Path, e: EntryPlan, libs: seq<Lib>): ChangeSet {
    if libs == [] then NOTHING
    else
      var last := libs[|libs| - 1];
      Merge(OnLibs(canon, path, e, libs[..|libs| - 1]),
            if InLib(canon, path, last) then Touched(e, map[last.root := last]) else NOTHING)
  }

  function OnEntry(canon: Canon, path: Path, e: EntryPlan): ChangeSet {
    Merge(if PathUnder(canon, path, e.root) then Touched(e, map[]) else NOTHING, OnLibs(canon, path, e, e.libs))
  }

  function OnPath(canon: Canon, path: Path, plan: seq<EntryPlan>): ChangeSet {
    if plan == [] then NOTHING
    else Merge(OnPath(canon, path, plan[..|plan| - 1]), OnEntry(canon, path, plan[|plan| - 1]))
  }

  function Classified(canon: Canon, plan: seq<EntryPlan>, changed: seq<Path>): ChangeSet {
    if changed == [] then NOTHING
    else
      var last := changed[|changed| - 1];
      Merge(Classified(canon, plan, changed[..|changed| - 1]),
            if IsSourceInput(last) then OnPath(canon, last, plan) else NOTHING)
  }

  lemma OverlaysAssociate<K, V>(a: map<K, V>, b: map<K, V>, c: map<K, V>)
    ensures (a + b) + c == a + (b + c)
    ensures a + map[] == a == map[] + a
  {
    assert a + map[] == a == map[] + a;
  }

  lemma MergeAssociates(a: ChangeSet, b: ChangeSet, c: ChangeSet)
    ensures Merge(Merge(a, b), c) == Merge(a, Merge(b, c))
    ensures Merge(a, NOTHING) == a == Merge(NOTHING, a)
  {
    OverlaysAssociate(a.affected, b.affected, c.affected);
    OverlaysAssociate(a.kinds, b.kinds, c.kinds);
    OverlaysAssociate(a.libs, b.libs, c.libs);
  }

  lemma MergeFacts(a: ChangeSet, b: ChangeSet)
    ensures Merge(a, b).affected.Keys == a.affected.Keys + b.affected.Keys
    ensures Merge(a, b).kinds.Keys == a.kinds.Keys + b.kinds.Keys
    ensures Merge(a, b).libs.Keys == a.libs.Keys + b.libs.Keys
    ensures forall x | x in b.affected :: Merge(a, b).affected[x] == b.affected[x]
    ensures forall x | x in b.kinds :: Merge(a, b).kinds[x] == b.kinds[x]
    ensures forall x | x in a.affected && x !in b.affected :: Merge(a, b).affected[x] == a.affected[x]
    ensures forall x | x in a.kinds && x !in b.kinds :: Merge(a, b).kinds[x] == a.kinds[x]
  {
  }

  lemma InsertIsMerge(s: ChangeSet, e: EntryPlan, libs: map<Path, Lib>)
    ensures Merge(s, Touched(e, libs))
         == ChangeSet(s.affected[e.name := e.root], s.kinds[e.name := e.kind], s.libs + libs)
  {
    assert s.affected + map[e.name := e.root] == s.affected[e.name := e.root];
    assert s.kinds + map[e.name := e.kind] == s.kinds[e.name := e.kind];
  }

  /** One path against one entry, in place. */
  method MarkEntry(canon: Canon, path: Path, e: EntryPlan, start: ChangeSet) returns (cs: ChangeSet)
    ensures cs == Merge(start, OnEntry(canon, path, e))
  {
    hide Merge, PathUnder, InLib, Touched;
    cs := start;
    if PathUnder(canon, path, e.root) {
      InsertIsMerge(cs, e, map[]);
      cs := cs.(affected := cs.affected[e.name := e.root], kinds := cs.kinds[e.name := e.kind]);
      assert cs.libs + map[] == cs.libs;
    }
    ghost var own := if PathUnder(canon, path, e.root) then Touched(e, map[]) else NOTHING;
    MergeAssociates(start, own, NOTHING);
    MergeAssociates(Merge(start, own), NOTHING, NOTHING);
    assert e.libs[..0] == [];
    for k := 0 to |e.libs|
      invariant cs == Merge(Merge(start, own), OnLibs(canon, path, e, e.libs[..k]))
    {
      var lib := e.libs[k];
      assert e.libs[..k + 1][..k] == e.libs[..k];
      ghost var before := OnLibs(canon, path, e, e.libs[..k]);
      if InLib(canon, path, lib) {
        InsertIsMerge(cs, e, map[lib.root := lib]);
        MergeAssociates(Merge(start, own), before, Touched(e, map[lib.root := lib]));
        assert cs.libs + map[lib.root := lib] == cs.libs[lib.root := lib];
        cs := ChangeSet(cs.affected[e.name := e.root], cs.kinds[e.name := e.kind], cs.libs[lib.root := lib]);
      } else {
        MergeAssociates(before, NOTHING, NOTHING);
      }
    }
    assert e.libs[..|e.libs|] == e.libs;
    MergeAssociates(start, own, OnLibs(canon, path, e, e.libs));
  }

  method Classify(canon: Canon, plan: seq<EntryPlan>, changed: seq<Path>) returns (cs: ChangeSet)
    ensures cs == Classified(canon, plan, changed)
  {
    hide Merge, IsSourceInput, OnEntry;
    cs := NOTHING;
    for i := 0 to |changed|
      invariant cs == Classified(canon, plan, changed[..i])
    {
      assert changed[..i + 1][..i] == changed[..i];
      ghost var before := cs;
      MergeAssociates(before, NOTHING, NOTHING);
      if !IsSourceInput(changed[i]) {
        continue;
      }
      for j := 0 to |plan|
        invariant cs == Merge(before, OnPath(canon, changed[i], plan[..j]))
      {
        assert plan[..j + 1][..j] == plan[..j];
        MergeAssociates(before, OnPath(canon, changed[i], plan[..j]), OnEntry(canon, changed[i], plan[j]));
        cs := MarkEntry(canon, changed[i], plan[j], cs);
      }
      assert plan[..|plan|] == plan;
    }
    assert changed[..|changed|] == changed;
  }

  // --- what classification means ---------------------------------------------------------------

  /** Splitting a batch loses nothing: the whole change set of two batches together is that
      of the first with that of the second laid over it, names, roots, kinds and libraries. */
  lemma {:induction false} ClassifySplits(canon: Canon, plan: seq<EntryPlan>, a: seq<Path>, b: seq<Path>)
    ensures Classified(canon, plan, a + b) == Merge(Classified(canon, plan, a), Classified(canon, plan, b))
    ensures Classified(canon, plan, a + b).affected.Keys
         == Classified(canon, plan, a).affected.Keys + Classified(canon, plan, b).affected.Keys
    ensures Classified(canon, plan, a + b).libs.Keys
         == Classified(canon, plan, a).libs.Keys + Classified(canon, plan, b).libs.Keys
  {
    ClassifySplitsWhole(canon, plan, a, b);
    MergeFacts(Classified(canon, plan, a), Classified(canon, plan, b));
  }

  lemma {:induction false} ClassifySplitsWhole(canon: Canon, plan: seq<EntryPlan>, a: seq<Path>, b: seq<Path>)
    ensures Classified(canon, plan, a + b) == Merge(Classified(canon, plan, a), Classified(canon, plan, b))
    decreases |b|
  {
    hide Merge, OnPath, IsSourceInput;
    if b == [] {
      assert a + b == a;
      MergeAssociates(Classified(canon, plan, a), NOTHING, NOTHING);
    } else {
      var front, last := b[..|b| - 1], b[|b| - 1];
      assert (a + b)[..|a + b| - 1] == a + front && (a + b)[|a + b| - 1] == last;
      ClassifySplitsWhole(canon, plan, a, front);
      MergeAssociates(Classified(canon, plan, a), Classified(canon, plan, front),
                      if IsSourceInput(last) then OnPath(canon, last, plan) else NOTHING);
    }
  }

  /** Outputs and dependencies contribute nothing, wherever they stand in a batch. */
  lemma OutputsContributeNothing(canon: Canon, plan: seq<EntryPlan>, a: seq<Path>, path: Path, b: seq<Path>)
    requires "dist" in path || "node_modules" in path || (path != [] && path[|path| - 1] == "manifest.json")
    ensures Classified(canon, plan, a + [path] + b) == Classified(canon, plan, a + b)
  {
    assert !IsSourceInput(path);
    hide Merge, IsSourceInput;
    ClassifySplitsWhole(canon, plan, a + [path], b);
    ClassifySplitsWhole(canon, plan, a, [path]);
    ClassifySplitsWhole(canon, plan, a, b);
    assert [path][..0] == [];
    MergeAssociates(NOTHING, NOTHING, NOTHING);
    MergeAssociates(Classified(canon, plan, a), NOTHING, NOTHING);
  }

  predicate TouchesLib(canon: Canon, path: Path, e: EntryPlan, root: Path) {
    exists k | 0 <= k < |e.libs| :: InLib(canon, path, e.libs[k]) && e.libs[k].root == root
  }

  predicate Touches(canon: Canon, path: Path, e: EntryPlan) {
    PathUnder(canon, path, e.root) || exists k | 0 <= k < |e.libs| :: InLib(canon, path, e.libs[k])
  }

  /** Which entries a path affects, and with which root and kind. */
  ghost predicate Affects(cs: ChangeSet, e: EntryPlan, touched: bool) {
    && cs.affected == (if touched then map[e.name := e.root] else map[])
    && cs.kinds == (if touched then map[e.name := e.kind] else map[])
  }

  lemma AffectsEither(a: ChangeSet, b: ChangeSet, e: EntryPlan, ta: bool, tb: bool)
    requires Affects(a, e, ta) && Affects(b, e, tb)
    ensures Affects(Merge(a, b), e, ta || tb)
  {
  }

  /** Some of the first `n` libraries holds the path. */
  predicate SomeLib(canon: Canon, path: Path, e: EntryPlan, n: nat)
    requires n <= |e.libs|
  {
    exists k | 0 <= k < n :: InLib(canon, path, e.libs[k])
  }

  lemma SomeLibGrows(canon: Canon, path: Path, e: EntryPlan, n: nat)
    requires n < |e.libs|
    ensures SomeLib(canon, path, e, n + 1) <==> SomeLib(canon, path, e, n) || InLib(canon, path, e.libs[n])
    ensures !SomeLib(canon, path, e, 0)
  {
    hide InLib;
  }

  lemma OnLibsGrows(canon: Canon, path: Path, e: EntryPlan, n: nat)
    requires n < |e.libs|
    ensures var lib := e.libs[n];
            OnLibs(canon, path, e, e.libs[..n + 1])
            == Merge(OnLibs(canon, path, e, e.libs[..n]),
                     if InLib(canon, path, lib) then Touched(e, map[lib.root := lib]) else NOTHING)
  {
    hide InLib, Merge, Touched;
    assert e.libs[..n + 1][..n] == e.libs[..n];
  }

  lemma NothingAffects(e: EntryPlan, lib: Lib)
    ensures Affects(NOTHING, e, false) && Affects(Touched(e, map[lib.root := lib]), e, true)
  {
  }

  lemma OnNoLibs(canon: Canon, path: Path, e: EntryPlan)
    ensures Affects(OnLibs(canon, path, e, e.libs[..0]), e, SomeLib(canon, path, e, 0))
  {
  }

  lemma {:induction false} OnLibsAffected(canon: Canon, path: Path, e: EntryPlan, n: nat)
    requires n <= |e.libs|
    ensures Affects(OnLibs(canon, path, e, e.libs[..n]), e, SomeLib(canon, path, e, n))
  {
    hide *;
    if n == 0 {
      OnNoLibs(canon, path, e);
    } else {
      var lib := e.libs[n - 1];
      OnLibsAffected(canon, path, e, n - 1);
      OnLibsGrows(canon, path, e, n - 1);
      SomeLibGrows(canon, path, e, n - 1);
      NothingAffects(e, lib);
      AffectsEither(OnLibs(canon, path, e, e.libs[..n - 1]),
                    if InLib(canon, path, lib) then Touched(e, map[lib.root := lib]) else NOTHING,
                    e, SomeLib(canon, path, e, n - 1), InLib(canon, path, lib));
    }
  }

  lemma {:induction false} OnLibsQueued(canon: Canon, path: Path, e: EntryPlan, n: nat)
    requires n <= |e.libs|
    ensures forall r :: r in OnLibs(canon, path, e, e.libs[..n]).libs <==>
                        exists k | 0 <= k < n :: InLib(canon, path, e.libs[k]) && e.libs[k].root == r
  {
    hide InLib, Merge;
    if n > 0 {
      var last := e.libs[n - 1];
      OnLibsQueued(canon, path, e, n - 1);
      assert e.libs[..n][..n - 1] == e.libs[..n - 1];
      MergeFacts(OnLibs(canon, path, e, e.libs[..n - 1]),
                 if InLib(canon, path, last) then Touched(e, map[last.root := last]) else NOTHING);
    }
  }

  lemma OnEntryMeans(canon: Canon, path: Path, e: EntryPlan)
    ensures Affects(OnEntry(canon, path, e), e, Touches(canon, path, e))
    ensures forall r :: r in OnEntry(canon, path, e).libs <==> TouchesLib(canon, path, e, r)
  {
    hide InLib, PathUnder, OnLibs;
    assert SomeLib(canon, path, e, |e.libs|) <==> exists k | 0 <= k < |e.libs| :: InLib(canon, path, e.libs[k]);
    OnLibsAffected(canon, path, e, |e.libs|);
    OnLibsQueued(canon, path, e, |e.libs|);
    assert e.libs[..|e.libs|] == e.libs;
  }

  /** Entry `j` is a reason for affecting the extension named `n`. */
  predicate TouchesNamed(canon: Canon, path: Path, plan: seq<EntryPlan>, j: nat, n: string) {
    j < |plan| && Touches(canon, path, plan[j]) && plan[j].name == n
  }

  lemma {:induction false} OnPathAffected(canon: Canon, path: Path, plan: seq<EntryPlan>)
    ensures var cs := OnPath(canon, path, plan);
            && cs.affected.Keys == cs.kinds.Keys
            && (forall n :: n in cs.affected <==> exists j: nat :: TouchesNamed(canon, path, plan, j, n))
            && (forall n | n in cs.affected ::
                  exists j: nat ::
                    && TouchesNamed(canon, path, plan, j, n)
                    && plan[j].root == cs.affected[n] && plan[j].kind == cs.kinds[n])
    decreases |plan|
  {
    hide Touches, TouchesLib, OnEntry, Merge;
    if plan != [] {
      var m := |plan| - 1;
      var front, last := plan[..m], plan[m];
      var before := OnPath(canon, path, front);
      OnPathAffected(canon, path, front);
      OnEntryMeans(canon, path, last);
      MergeFacts(before, OnEntry(canon, path, last));
      assert forall j: nat, n | j < m ::
          TouchesNamed(canon, path, front, j, n) <==> TouchesNamed(canon, path, plan, j, n);
      forall n | n in OnPath(canon, path, plan).affected
        ensures exists j: nat ::
                  TouchesNamed(canon, path, plan, j, n) && plan[j].root == OnPath(canon, path, plan).affected[n]
                  && plan[j].kind == OnPath(canon, path, plan).kinds[n]
      {
        if n !in OnEntry(canon, path, last).affected {
          var j: nat :| TouchesNamed(canon, path, front, j, n)
                        && front[j].root == before.affected[n] && front[j].kind == before.kinds[n];
          assert TouchesNamed(canon, path, plan, j, n);
        } else {
          assert TouchesNamed(canon, path, plan, m, n);
        }
      }
      forall n, j: nat | TouchesNamed(canon, path, plan, j, n)
        ensures n in OnPath(canon, path, plan).affected
      {
        assert j < m ==> TouchesNamed(canon, path, front, j, n);
      }
    }
  }

  lemma {:induction false} OnPathQueued(canon: Canon, path: Path, plan: seq<EntryPlan>)
    ensures forall r :: r in OnPath(canon, path, plan).libs <==>
                        exists j | 0 <= j < |plan| :: TouchesLib(canon, path, plan[j], r)
    decreases |plan|
  {
    hide Touches, TouchesLib, OnEntry, Merge;
    if plan != [] {
      var m := |plan| - 1;
      OnPathQueued(canon, path, plan[..m]);
      OnEntryMeans(canon, path, plan[m]);
      MergeFacts(OnPath(canon, path, plan[..m]), OnEntry(canon, path, plan[m]));
      assert forall j | 0 <= j < m :: plan[..m][j] == plan[j];
    }
  }

  /** Exactly the extensions with a changed source under their root or under one of their
      libraries are affected. */
  lemma {:induction false} AffectedExactly(canon: Canon, plan: seq<EntryPlan>, changed: seq<Path>)
    ensures forall n :: n in Classified(canon, plan, changed).affected <==>
                        exists i, j: nat | 0 <= i < |changed| ::
                          IsSourceInput(changed[i]) && TouchesNamed(canon, changed[i], plan, j, n)
    decreases |changed|
  {
    hide TouchesNamed, IsSourceInput, OnPath, Merge;
    if changed != [] {
      var m := |changed| - 1;
      var before, here := Classified(canon, plan, changed[..m]), OnPath(canon, changed[m], plan);
      AffectedExactly(canon, plan, changed[..m]);
      OnPathAffected(canon, changed[m], plan);
      MergeFacts(before, here);
      MergeFacts(before, NOTHING);
      assert forall i | 0 <= i < m :: changed[..m][i] == changed[i];
    }
  }

  ghost predicate FromEntries(cs: ChangeSet, plan: seq<EntryPlan>) {
    && cs.affected.Keys == cs.kinds.Keys
    && forall n | n in cs.affected ::
         exists j: nat | j < |plan| :: plan[j] == EntryPlan(n, cs.affected[n], cs.kinds[n], plan[j].libs)
  }

  lemma MergeFromEntries(a: ChangeSet, b: ChangeSet, plan: seq<EntryPlan>)
    requires FromEntries(a, plan) && FromEntries(b, plan)
    ensures FromEntries(Merge(a, b), plan)
  {
    var m := Merge(a, b);
    MergeFacts(a, b);
    hide Merge;
    forall n | n in m.affected
      ensures exists j: nat | j < |plan| :: plan[j] == EntryPlan(n, m.affected[n], m.kinds[n], plan[j].libs)
    {
      if n in b.affected {
        assert m.affected[n] == b.affected[n] && m.kinds[n] == b.kinds[n];
      } else {
        assert m.affected[n] == a.affected[n] && m.kinds[n] == a.kinds[n];
      }
    }
  }

  /** Each affected extension carries the root and the kind of one entry of that name. */
  lemma {:induction false} AffectedAsRegistered(canon: Canon, plan: seq<EntryPlan>, changed: seq<Path>)
    ensures FromEntries(Classified(canon, plan, changed), plan)
    decreases |changed|
  {
    assert FromEntries(NOTHING, plan);
    if changed != [] {
      var m := |changed| - 1;
      AffectedAsRegistered(canon, plan, changed[..m]);
      OnPathFromEntries(canon, changed[m], plan);
      hide FromEntries, OnPath, Merge, IsSourceInput;
      MergeFromEntries(Classified(canon, plan, changed[..m]),
                       if IsSourceInput(changed[m]) then OnPath(canon, changed[m], plan) else NOTHING, plan);
    }
  }

  lemma OnPathFromEntries(canon: Canon, path: Path, plan: seq<EntryPlan>)
    ensures FromEntries(OnPath(canon, path, plan), plan)
  {
    hide Touches, OnPath;
    OnPathAffected(canon, path, plan);
  }

  /** Exactly the libraries with a changed source are queued for a rebuild. */
  lemma {:induction false} QueuedExactly(canon: Canon, plan: seq<EntryPlan>, changed: seq<Path>)
    ensures forall r :: r in Classified(canon, plan, changed).libs <==>
                        exists i, j | 0 <= i < |changed| && 0 <= j < |plan| ::
                          IsSourceInput(changed[i]) && TouchesLib(canon, changed[i], plan[j], r)
    decreases |changed|
  {
    hide TouchesLib, IsSourceInput, OnPath, Merge;
    if changed != [] {
      var m := |changed| - 1;
      var before, here := Classified(canon, plan, changed[..m]), OnPath(canon, changed[m], plan);
      QueuedExactly(canon, plan, changed[..m]);
      OnPathQueued(canon, changed[m], plan);
      MergeFacts(before, here);
      MergeFacts(before, NOTHING);
      assert forall i | 0 <= i < m :: changed[..m][i] == changed[i];
    }
  }

  /** The way library plans are built. */
  predicate WellFormed(plan: seq<EntryPlan>) {
    forall j, k | 0 <= j < |plan| && 0 <= k < |plan[j].libs| :: plan[j].libs[k].src == plan[j].libs[k].root + ["src"]
  }

  /** A queued library fans out: every extension that depends on it is affected. */
  lemma QueuedLibraryFansOut(canon: Canon, plan: seq<EntryPlan>, changed: seq<Path>, root: Path, j: nat, k: nat)
    requires WellFormed(plan) && root in Classified(canon, plan, changed).libs
    requires j < |plan| && k < |plan[j].libs| && plan[j].libs[k].root == root
    ensures plan[j].name in Classified(canon, plan, changed).affected
  {
    hide PathUnder, IsSourceInput, Classified;
    AffectedExactly(canon, plan, changed);
    QueuedExactly(canon, plan, changed);
    var i, m :| 0 <= i < |changed| && 0 <= m < |plan|
                && IsSourceInput(changed[i]) && TouchesLib(canon, changed[i], plan[m], root);
    var q :| 0 <= q < |plan[m].libs| && InLib(canon, changed[i], plan[m].libs[q]) && plan[m].libs[q].root == root;
    assert plan[m].libs[q].src == plan[j].libs[k].src;
    assert InLib(canon, changed[i], plan[j].libs[k]);
    assert TouchesNamed(canon, changed[i], plan, j, plan[j].name);
  }

  // --- which edits count, path by path ------------------------------------------------------------

  predicate DotFree(s: string) { forall i | 0 <= i < |s| :: s[i] != '.' }

  lemma LastDot(a: string, x: string, b: string, y: string)
    requires DotFree(x) && DotFree(y) && a + "." + x == b + "." + y
    ensures x == y
  {
    var s := a + "." + x;
    assert s == b + "." + y;
    assert s[|a|] == '.' && s[|b|] == '.';
    assert forall i | 0 <= i < |x| :: s[|a| + 1 + i] == x[i];
    assert forall i | 0 <= i < |y| :: s[|b| + 1 + i] == y[i];
    assert forall i | |a| < i < |s| :: s[i] != '.';
    assert forall i | |b| < i < |s| :: s[i] != '.';
    assert x == s[|a| + 1..] && y == s[|b| + 1..];
  }

  lemma EndsWithExactly(s: string, suffix: string)
    ensures EndsWith(s, suffix) <==> exists front :: s == front + suffix
  {
    if EndsWith(s, suffix) { assert s == s[..|s| - |suffix|] + suffix; }
    if front :| s == front + suffix { assert s[|s| - |suffix|..] == suffix; }
  }

  lemma EndsWithDotted(stem: string, ext: string, other: string)
    requires DotFree(ext) && DotFree(other)
    ensures EndsWith(stem + "." + ext, "." + other) <==> ext == other
  {
    hide EndsWith, DotFree;
    var s := stem + "." + ext;
    EndsWithExactly(s, "." + other);
    if EndsWith(s, "." + other) {
      var front :| s == front + ("." + other);
      assert s == front + "." + other;
      LastDot(stem, ext, front, other);
    }
    if ext == other { assert s == stem + ("." + other); }
  }

  lemma ListedExts(ext: string)
    ensures ext in ["ts", "tsx", "js", "jsx", "mjs", "cjs", "json", "css"]
       <==> exists i | 0 <= i < |SOURCE_EXTS| :: ext == SOURCE_EXTS[i]
    ensures forall i | 0 <= i < |SOURCE_EXTS| :: DotFree(SOURCE_EXTS[i])
  {
    assert SOURCE_EXTS == ["ts", "tsx", "js", "jsx", "mjs", "cjs", "json", "css"];
  }

  /** The last component decides by what follows its last dot, and every component by its name:
      exactly these files are inputs. */
  lemma InputExactly(dir: Path, stem: string, ext: string)
    requires DotFree(ext)
    ensures IsSourceInput(dir + [stem + "." + ext]) <==>
              && ext in ["ts", "tsx", "js", "jsx", "mjs", "cjs", "json", "css"]
              && "dist" !in dir && "node_modules" !in dir && stem + "." + ext != "manifest.json"
  {
    var file := stem + "." + ext;
    var path := dir + [file];
    assert path[|path| - 1] == file;
    assert file[|stem|] == '.' && DotFree("dist") && DotFree("node_modules");
    assert file != "dist" && file != "node_modules";
    ListedExts(ext);
    hide DotFree, EndsWith;
    forall i | 0 <= i < |SOURCE_EXTS|
      ensures EndsWith(file, "." + SOURCE_EXTS[i]) <==> ext == SOURCE_EXTS[i]
    {
      EndsWithDotted(stem, ext, SOURCE_EXTS[i]);
    }
  }

  lemma SuffixDot(s: string, ext: string)
    ensures EndsWith(s, "." + ext) ==> !DotFree(s)
  {
    var suffix := "." + ext;
    if EndsWith(s, suffix) {
      assert s[|s| - |suffix|] == s[|s| - |suffix|..|s|][0];
      assert suffix[0] == '.';
    }
  }

  /** A file without a dot is no input. */
  lemma DotlessIsNoInput(dir: Path, file: string)
    requires DotFree(file)
    ensures !IsSourceInput(dir + [file])
  {
    var path := dir + [file];
    assert path[|path| - 1] == file;
    forall i | 0 <= i < |SOURCE_EXTS| ensures !EndsWith(file, "." + SOURCE_EXTS[i]) { SuffixDot(file, SOURCE_EXTS[i]); }
    hide EndsWith, DotFree;
  }

  /** A path lies under a base when it goes on from it as it is spelled, or when both exist and
      their canonical forms do. */
  lemma UnderWhen(canon: Canon, path: Path, base: Path)
    ensures PathUnder(canon, path, base) <==>
              (exists rest :: path == base + rest)
              || (exists p, b, rest :: canon(path) == Some(p) && canon(base) == Some(b) && p == b + rest)
  {
    if base <= path { assert path == base + path[|base|..]; }
    if canon(path).Some? && canon(base).Some? && canon(base).value <= canon(path).value {
      assert canon(path).value == canon(base).value + canon(path).value[|canon(base).value|..];
    }
  }

  /** A source file that counts as an input. */
  predicate SourceFile(dir: Path, stem: string, ext: string) {
    && ext in ["ts", "tsx", "js", "jsx", "mjs", "cjs", "json", "css"] && DotFree(ext)
    && "dist" !in dir && "node_modules" !in dir && stem + "." + ext != "manifest.json"
  }

  /** Editing a source file of an extension affects it, in whatever batch the edit stands. */
  lemma EditsCount(canon: Canon, plan: seq<EntryPlan>, changed: seq<Path>, dir: Path, stem: string, ext: string, j: nat)
    requires dir + [stem + "." + ext] in changed && SourceFile(dir, stem, ext)
    requires j < |plan| && plan[j].root <= dir
    ensures plan[j].name in Classified(canon, plan, changed).affected
  {
    var path := dir + [stem + "." + ext];
    InputExactly(dir, stem, ext);
    assert plan[j].root <= path;
    assert TouchesNamed(canon, path, plan, j, plan[j].name);
    hide *;
    AffectedBy(canon, plan, changed, path, j, plan[j].name);
  }

  lemma AffectedBy(canon: Canon, plan: seq<EntryPlan>, changed: seq<Path>, path: Path, j: nat, name: string)
    requires path in changed && IsSourceInput(path) && TouchesNamed(canon, path, plan, j, name)
    ensures name in Classified(canon, plan, changed).affected
  {
    hide *;
    AffectedExactly(canon, plan, changed);
    var i :| 0 <= i < |changed| && changed[i] == path;
  }

  /** Editing one of a library queues the library and affects the extension. */
  lemma LibraryEditsCount(canon: Canon, plan: seq<EntryPlan>, changed: seq<Path>, dir: Path, stem: string, ext: string,
                          j: nat, k: nat)
    requires dir + [stem + "." + ext] in changed && SourceFile(dir, stem, ext)
    requires j < |plan| && k < |plan[j].libs| && (plan[j].libs[k].src <= dir || plan[j].libs[k].root <= dir)
    ensures plan[j].name in Classified(canon, plan, changed).affected
    ensures plan[j].libs[k].root in Classified(canon, plan, changed).libs
  {
    var path := dir + [stem + "." + ext];
    InputExactly(dir, stem, ext);
    assert dir <= path;
    assert InLib(canon, path, plan[j].libs[k]);
    assert TouchesNamed(canon, path, plan, j, plan[j].name);
    assert TouchesLib(canon, path, plan[j], plan[j].libs[k].root);
    hide *;
    AffectedBy(canon, plan, changed, path, j, plan[j].name);
    QueuedExactly(canon, plan, changed);
    var i :| 0 <= i < |changed| && changed[i] == path;
  }

  /** An edit under none of the roots and library trees of an extension, as they are spelled or
      canonically, does not affect it. */
  lemma EditsElsewhereDoNot(canon: Canon, plan: seq<EntryPlan>, path: Path, name: string)
    requires forall j | 0 <= j < |plan| && plan[j].name == name :: OutsideOf(canon, path, plan[j])
    ensures name !in Classified(canon, plan, [path]).affected
  {
    forall j: nat | j < |plan| && plan[j].name == name ensures !Touches(canon, path, plan[j]) {
      NotTouched(canon, path, plan[j]);
    }
    hide Touches, OutsideOf, Classified, IsSourceInput;
    AffectedExactly(canon, plan, [path]);
    assert forall i | 0 <= i < |[path]| :: [path][i] == path;
  }

  /** The path lies under none of the directories that the extension is built from. */
  predicate OutsideOf(canon: Canon, path: Path, e: EntryPlan) {
    && !PathUnder(canon, path, e.root)
    && forall k | 0 <= k < |e.libs| :: !PathUnder(canon, path, e.libs[k].src) && !PathUnder(canon, path, e.libs[k].root)
  }

  lemma NotTouched(canon: Canon, path: Path, e: EntryPlan)
    requires OutsideOf(canon, path, e)
    ensures !Touches(canon, path, e)
  {
    hide PathUnder;
  }
}
