/** The dev-host registry: unique names, recursive registration and its inverse. */
module Registry {
  import opened Text
  import opened SemVer

  type Path = seq<string>

  datatype Kind = Extension | Device | Workspace

  datatype Entry = Entry(name: string, path: Path, enabled: bool, kind: Option<Kind>)

  datatype Failure = NoManifest | NameCollision | NotFound

  datatype Result<T> = Ok(value: T) | Err(failure: Failure)

  /** What the registry asks of the file system. `canon` is canonicalization, and the path
      itself where that fails; `declared` is the kind a manifest declares; `minimum` is a
      readable and parseable minimum API version. */
  datatype Fs = Fs(canon: Path -> Path, isDir: Path -> bool, isFile: Path -> bool,
                   declared: Path -> Option<Kind>, minimum: Path -> Option<Version>, pathOf: string -> Path)

  const MANIFEST := "rackabel.toml"

  const DEV_VERBS := {
    "start", "stop", "status", "register", "unregister", "enable", "disable", "list", "ls", "watch", "reload", "logs",
    "test"
  }

  // --- names ------------------------------------------------------------------------------

  function Basename(p: Path): string {
    if p == [] || p[|p| - 1] == ".." then "extension" else p[|p| - 1]
  }

  predicate Free(name: string, taken: set<string>) { name !in taken && name !in DEV_VERBS }

  function Attempt(base: string, n: nat): string { base + "-" + Decimal(n) }

  /** The candidate with the name of the directory above in front. */
  function Prefixed(candidate: string, root: Path): string {
    var prefix := if root == [] then "" else Basename(root[..|root| - 1]);
    if prefix == "" then candidate else prefix + "-" + candidate
  }

  /** A name is free when no entry has it and it is no verb of `dev`. */
  lemma FreeExactly(name: string, taken: set<string>)
    ensures Free(name, taken) <==>
              name !in taken
              && name !in ["start", "stop", "status", "register", "unregister", "enable", "disable", "list", "ls",
                           "watch", "reload", "logs", "test"]
  {
  }

  lemma AttemptIsNoVerb(base: string, n: nat)
    ensures Attempt(base, n) !in DEV_VERBS
  {
    assert Attempt(base, n)[|base|] == '-';
    assert forall v | v in DEV_VERBS :: forall i | 0 <= i < |v| :: v[i] != '-';
  }

  lemma AttemptInjective(base: string, m: nat, n: nat)
    requires Attempt(base, m) == Attempt(base, n)
    ensures m == n
  {
    assert Attempt(base, m)[|base| + 1..] == Decimal(m) && Attempt(base, n)[|base| + 1..] == Decimal(n);
    DecimalInjective(m, n);
  }

  /** Distinct suffixes give distinct names, so only |taken| of them can be taken. */
  lemma {:induction false} Pigeonhole(base: string, n: nat, taken: set<string>)
    requires n >= 2 && forall k: nat | 2 <= k < n :: Attempt(base, k) in taken
    ensures n - 2 <= |taken|
  {
    hide Attempt;
    if n > 2 {
      var last := Attempt(base, n - 1);
      forall k: nat | 2 <= k < n - 1 ensures Attempt(base, k) in taken - {last} {
        if Attempt(base, k) == last { AttemptInjective(base, k, n - 1); }
      }
      Pigeonhole(base, n - 1, taken - {last});
    }
  }

  function FirstFree(base: string, n: nat, taken: set<string>): (r: nat)
    requires n >= 2 && forall k: nat | 2 <= k < n :: Attempt(base, k) in taken
    ensures n <= r <= |taken| + 2
    ensures Free(Attempt(base, r), taken)
    ensures forall k: nat | n <= k < r :: !Free(Attempt(base, k), taken)
    decreases |taken| + 2 - n
  {
    Pigeonhole(base, n, taken);
    AttemptIsNoVerb(base, n);
    if Free(Attempt(base, n), taken) then n
    else
      Pigeonhole(base, n + 1, taken);
      FirstFree(base, n + 1, taken)
  }

  function Disambiguated(candidate: string, root: Path, taken: set<string>): string {
    if Free(candidate, taken) then candidate
    else
      var base := Prefixed(candidate, root);
      if Free(base, taken) then base else Attempt(base, FirstFree(base, 2, taken))
  }

  /** Always a name that is neither taken nor a verb: the candidate when it is free, else
      the prefixed one when that is free, else the smallest free suffix, which is found
      within |taken| + 1 attempts. */
  lemma DisambiguatedIsFree(candidate: string, root: Path, taken: set<string>)
    ensures var r, base := Disambiguated(candidate, root, taken), Prefixed(candidate, root);
            && Free(r, taken)
            && (Free(candidate, taken) ==> r == candidate)
            && (!Free(candidate, taken) && Free(base, taken) ==> r == base)
            && (!Free(candidate, taken) && !Free(base, taken) ==>
                  exists n: nat :: 2 <= n <= |taken| + 2 && r == base + "-" + Decimal(n)
                                   && forall k: nat | 2 <= k < n :: !Free(base + "-" + Decimal(k), taken))
  {
    assert forall b, n :: Attempt(b, n) == b + "-" + Decimal(n);
    hide Attempt, Prefixed, Free;
    var base := Prefixed(candidate, root);
    if !Free(candidate, taken) && !Free(base, taken) {
      var n := FirstFree(base, 2, taken);
      assert 2 <= n <= |taken| + 2;
    }
  }

  method Disambiguate(candidate: string, root: Path, taken: set<string>) returns (r: string)
    ensures r == Disambiguated(candidate, root, taken)
    ensures Free(r, taken)
  {
    hide Free, Attempt, Prefixed;
    if Free(candidate, taken) {
      return candidate;
    }
    var base := Prefixed(candidate, root);
    if Free(base, taken) {
      return base;
    }
    var n := 2;
    while !Free(Attempt(base, n), taken)
      invariant 2 <= n <= FirstFree(base, 2, taken)
      decreases FirstFree(base, 2, taken) - n
    {
      n := n + 1;
    }
    return Attempt(base, n);
  }

  // --- one edit ---------------------------------------------------------------------------------

  /** A directory that anchors a project or that the user typed, or the manifest itself. */
  function ProjectDir(fs: Fs, path: Path, typed: bool): Option<Path> {
    if fs.isDir(path) && (fs.isFile(path + [MANIFEST]) || fs.isFile(path + ["package.json"]) || typed) then Some(path)
    else if fs.isFile(path) && path != [] && path[|path| - 1] == MANIFEST then Some(path[..|path| - 1])
    else None
  }

  function EntryKind(fs: Fs, root: Path, explicit: Option<Kind>): Option<Kind> {
    if explicit.Some? then explicit
    else if !fs.isFile(root + [MANIFEST]) || fs.declared(root) == Some(Workspace) then None
    else fs.declared(root)
  }

  function Taken(es: seq<Entry>): set<string> { set i | 0 <= i < |es| :: es[i].name }

  function ChosenName(es: seq<Entry>, root: Path, name: Option<string>): string {
    match name
    case Some(explicit) =>
      if !Free(explicit, Taken(es)) then Disambiguated(explicit, root, Taken(es)) else explicit
    case None => Disambiguated(Basename(root), root, Taken(es))
  }

  function Added(fs: Fs, es: seq<Entry>, path: Path, name: Option<string>, kind: Option<Kind>, disabled: bool)
    : (seq<Entry>, Result<string>)
  {
    match ProjectDir(fs, path, kind.Some?)
    case None => (es, Err(NoManifest))
    case Some(root) =>
      var chosen := ChosenName(es, root, name);
      (es + [Entry(chosen, root, !disabled, EntryKind(fs, root, kind))], Ok(chosen))
  }

  function AddedNamed(fs: Fs, es: seq<Entry>, path: Path, name: string, kind: Option<Kind>, disabled: bool)
    : (seq<Entry>, Result<string>)
  {
    match ProjectDir(fs, path, kind.Some?)
    case None => (es, Err(NoManifest))
    case Some(root) =>
      if name in Taken(es) then (es, Err(NameCollision))
      else (es + [Entry(name, root, !disabled, EntryKind(fs, root, kind))], Ok(name))
  }

  predicate HasPath(fs: Fs, es: seq<Entry>, target: Path) {
    exists i | 0 <= i < |es| :: fs.canon(es[i].path) == target
  }

  /** Register each member directory that is not there yet; the first failure ends it. */
  function AddedAll(fs: Fs, es: seq<Entry>, dirs: seq<Path>, disabled: bool): (seq<Entry>, Result<seq<string>>)
    decreases |dirs|
  {
    if dirs == [] then (es, Ok([]))
    else if HasPath(fs, es, fs.canon(dirs[0])) then AddedAll(fs, es, dirs[1..], disabled)
    else
      var (es1, r) := Added(fs, es, dirs[0], None, None, disabled);
      match r
      case Err(e) => (es1, Err(e))
      case Ok(name) =>
        var (es2, rest) := AddedAll(fs, es1, dirs[1..], disabled);
        (es2, match rest case Err(e) => Err(e) case Ok(names) => Ok([name] + names))
  }

  /** The result of a whole scan, when `added` precedes what the rest of it returns. */
  predicate Continues(added: seq<string>, rest: Result<seq<string>>, whole: Result<seq<string>>) {
    if rest.Ok? then whole.Ok? && whole.value == added + rest.value else whole == rest
  }

  function FirstIndex(es: seq<Entry>, p: Entry -> bool): (r: Option<nat>)
    ensures r.Some? ==> r.value < |es| && p(es[r.value]) && forall k | 0 <= k < r.value :: !p(es[k])
    ensures r.None? ==> forall k | 0 <= k < |es| :: !p(es[k])
  {
    if es == [] then None
    else if p(es[0]) then Some(0)
    else match FirstIndex(es[1..], p) case None => None case Some(i) => Some(i + 1)
  }

  /** A token is a name first, a path second. */
  function Lookup(fs: Fs, es: seq<Entry>, token: string): (r: Option<nat>)
    ensures r.Some? ==> r.value < |es|
  {
    var byName := FirstIndex(es, (e: Entry) => e.name == token);
    if byName.Some? then byName
    else
      var target := fs.canon(fs.pathOf(token));
      FirstIndex(es, (e: Entry) => fs.canon(e.path) == target)
  }

  predicate Under(fs: Fs, target: Path, e: Entry) { target <= fs.canon(e.path) }

  function Kept(fs: Fs, es: seq<Entry>, target: Path): seq<Entry> {
    if es == [] then [] else (if Under(fs, target, es[0]) then [] else [es[0]]) + Kept(fs, es[1..], target)
  }

  function RemovedNames(fs: Fs, es: seq<Entry>, target: Path): seq<string> {
    if es == [] then [] else (if Under(fs, target, es[0]) then [es[0].name] else []) + RemovedNames(fs, es[1..], target)
  }

  function Removed(fs: Fs, es: seq<Entry>, token: string, recursive: bool): (seq<Entry>, Result<seq<string>>) {
    if recursive then
      var target := fs.canon(fs.pathOf(token));
      var names := RemovedNames(fs, es, target);
      (Kept(fs, es, target), if names == [] then Err(NotFound) else Ok(names))
    else match Lookup(fs, es, token)
      case None => (es, Err(NotFound))
      case Some(i) => (es[..i] + es[i + 1..], Ok([es[i].name]))
  }

  function EnabledSet(fs: Fs, es: seq<Entry>, token: string, enabled: bool): (seq<Entry>, Result<Entry>) {
    match Lookup(fs, es, token)
    case None => (es, Err(NotFound))
    case Some(i) => (es[i := es[i].(enabled := enabled)], Ok(es[i].(enabled := enabled)))
  }

  // --- the registry in memory ----------------------------------------------------------------

  class Registry {
    var entries: seq<Entry>

    constructor (loaded: seq<Entry>)
      ensures entries == loaded
    {
      entries := loaded;
    }

    method Add(fs: Fs, path: Path, name: Option<string>, kind: Option<Kind>, disabled: bool) returns (r: Result<string>)
      modifies this
      ensures (entries, r) == Added(fs, old(entries), path, name, kind, disabled)
    {
      var dir := ProjectDir(fs, path, kind.Some?);
      if dir.None? {
        return Err(NoManifest);
      }
      var root, taken := dir.value, Taken(entries);
      var chosen;
      if name.Some? {
        if name.value in taken || name.value in DEV_VERBS {
          chosen := Disambiguate(name.value, root, taken);
        } else {
          chosen := name.value;
        }
      } else {
        chosen := Disambiguate(Basename(root), root, taken);
      }
      entries := entries + [Entry(chosen, root, !disabled, EntryKind(fs, root, kind))];
      return Ok(chosen);
    }

    method AddNamed(fs: Fs, path: Path, name: string, kind: Option<Kind>, disabled: bool) returns (r: Result<string>)
      modifies this
      ensures (entries, r) == AddedNamed(fs, old(entries), path, name, kind, disabled)
    {
      var dir := ProjectDir(fs, path, kind.Some?);
      if dir.None? {
        return Err(NoManifest);
      }
      if name in Taken(entries) {
        return Err(NameCollision);
      }
      entries := entries + [Entry(name, dir.value, !disabled, EntryKind(fs, dir.value, kind))];
      return Ok(name);
    }

    method AddRecursive(fs: Fs, dirs: seq<Path>, disabled: bool) returns (r: Result<seq<string>>)
      modifies this
      ensures (entries, r) == AddedAll(fs, old(entries), dirs, disabled)
    {
      hide Added, HasPath;
      var added := [];
      ghost var (all, result) := AddedAll(fs, entries, dirs, disabled);
      assert dirs[0..] == dirs;
      for i := 0 to |dirs|
        invariant var (es, rest) := AddedAll(fs, entries, dirs[i..], disabled);
                  es == all && Continues(added, rest, result)
      {
        assert dirs[i..][1..] == dirs[i + 1..];
        if HasPath(fs, entries, fs.canon(dirs[i])) {
          continue;
        }
        var name := Add(fs, dirs[i], None, None, disabled);
        if name.Err? {
          return Err(name.failure);
        }
        added := added + [name.value];
      }
      assert dirs[|dirs|..] == [] && added + [] == added;
      return Ok(added);
    }

    /** Keep the entries that are not under `target`. */
    method Retain(fs: Fs, target: Path) returns (removed: seq<string>)
      modifies this
      ensures entries == Kept(fs, old(entries), target)
      ensures removed == RemovedNames(fs, old(entries), target)
    {
      hide Under;
      var es, kept := entries, [];
      removed := [];
      for i := 0 to |es|
        invariant kept + Kept(fs, es[i..], target) == Kept(fs, es, target)
        invariant removed + RemovedNames(fs, es[i..], target) == RemovedNames(fs, es, target)
      {
        assert es[i..][1..] == es[i + 1..];
        if Under(fs, target, es[i]) {
          removed := removed + [es[i].name];
        } else {
          kept := kept + [es[i]];
        }
      }
      entries := kept;
    }

    method Remove(fs: Fs, token: string, recursive: bool) returns (r: Result<seq<string>>)
      modifies this
      ensures (entries, r) == Removed(fs, old(entries), token, recursive)
    {
      if recursive {
        var removed := Retain(fs, fs.canon(fs.pathOf(token)));
        return if removed == [] then Err(NotFound) else Ok(removed);
      }
      var idx := Lookup(fs, entries, token);
      if idx.None? {
        return Err(NotFound);
      }
      var gone := entries[idx.value].name;
      entries := entries[..idx.value] + entries[idx.value + 1..];
      return Ok([gone]);
    }

    method SetEnabled(fs: Fs, token: string, enabled: bool) returns (r: Result<Entry>)
      modifies this
      ensures (entries, r) == EnabledSet(fs, old(entries), token, enabled)
    {
      var idx := Lookup(fs, entries, token);
      if idx.None? {
        return Err(NotFound);
      }
      entries := entries[idx.value := entries[idx.value].(enabled := enabled)];
      return Ok(entries[idx.value]);
    }
  }

  // --- names stay unique over every sequence of edits --------------------------------------------

  predicate NamesDistinct(es: seq<Entry>) {
    forall i, j | 0 <= i < j < |es| :: es[i].name != es[j].name
  }

  datatype Edit =
    | Add(path: Path, name: Option<string>, kind: Option<Kind>, disabled: bool)
    | AddNamed(path: Path, forced: string, kind: Option<Kind>, disabled: bool)
    | AddRecursive(dirs: seq<Path>, disabled: bool)
    | Register(path: Path, name: Option<string>, kind: Option<Kind>, disabled: bool)
    | Remove(token: string, recursive: bool)
    | SetEnabled(token: string, enabled: bool)

  function Edited(fs: Fs, es: seq<Entry>, e: Edit): seq<Entry> {
    match e
    case Add(path, name, kind, disabled) => Added(fs, es, path, name, kind, disabled).0
    case AddNamed(path, name, kind, disabled) => AddedNamed(fs, es, path, name, kind, disabled).0
    case AddRecursive(dirs, disabled) => AddedAll(fs, es, dirs, disabled).0
    case Register(path, name, kind, disabled) => RegisteredPath(fs, es, path, name, kind, disabled).0
    case Remove(token, recursive) => Removed(fs, es, token, recursive).0
    case SetEnabled(token, enabled) => EnabledSet(fs, es, token, enabled).0
  }

  /** The file system may look different at each edit. */
  function EditedAll(es: seq<Entry>, edits: seq<(Fs, Edit)>): seq<Entry>
    decreases |edits|
  {
    if edits == [] then es else EditedAll(Edited(edits[0].0, es, edits[0].1), edits[1..])
  }

  lemma AddKeepsNames(fs: Fs, es: seq<Entry>, path: Path, name: Option<string>, kind: Option<Kind>, disabled: bool)
    requires NamesDistinct(es)
    ensures NamesDistinct(Added(fs, es, path, name, kind, disabled).0)
  {
    hide Disambiguated, ProjectDir, EntryKind;
    var dir := ProjectDir(fs, path, kind.Some?);
    if dir.Some? {
      DisambiguatedIsFree(Basename(dir.value), dir.value, Taken(es));
      if name.Some? { DisambiguatedIsFree(name.value, dir.value, Taken(es)); }
      assert ChosenName(es, dir.value, name) !in Taken(es);
    }
  }

  lemma {:induction false} AddAllKeepsNames(fs: Fs, es: seq<Entry>, dirs: seq<Path>, disabled: bool)
    requires NamesDistinct(es)
    ensures NamesDistinct(AddedAll(fs, es, dirs, disabled).0)
    decreases |dirs|
  {
    hide Added, NamesDistinct;
    if dirs != [] {
      AddKeepsNames(fs, es, dirs[0], None, None, disabled);
      AddAllKeepsNames(fs, es, dirs[1..], disabled);
      AddAllKeepsNames(fs, Added(fs, es, dirs[0], None, None, disabled).0, dirs[1..], disabled);
    }
  }

  lemma {:induction false} KeptFacts(fs: Fs, es: seq<Entry>, target: Path)
    ensures forall e | e in Kept(fs, es, target) :: e in es
    ensures NamesDistinct(es) ==> NamesDistinct(Kept(fs, es, target))
  {
    if es != [] {
      KeptFacts(fs, es[1..], target);
      assert NamesDistinct(es) ==> NamesDistinct(es[1..]) && forall e | e in es[1..] :: e.name != es[0].name;
    }
  }

  lemma NewNameDistinct(es: seq<Entry>, es': seq<Entry>)
    requires NamesDistinct(es)
    ensures |es'| == |es| + 1 && es'[..|es|] == es && es'[|es|].name !in Taken(es) ==> NamesDistinct(es')
  {
    if |es'| == |es| + 1 && es'[..|es|] == es {
      assert forall i | 0 <= i < |es| :: es'[i] == es[i];
    }
  }

  lemma RegisterKeepsNames(fs: Fs, es: seq<Entry>, path: Path, name: Option<string>, kind: Option<Kind>, disabled: bool)
    requires NamesDistinct(es)
    ensures NamesDistinct(RegisteredPath(fs, es, path, name, kind, disabled).0)
  {
    RegisterStoresForetold(fs, es, path, name, kind, disabled);
    NewNameDistinct(es, RegisteredPath(fs, es, path, name, kind, disabled).0);
  }

  lemma EditKeepsNames(fs: Fs, es: seq<Entry>, e: Edit)
    requires NamesDistinct(es)
    ensures NamesDistinct(Edited(fs, es, e))
  {
    hide Added, RegisteredPath, ProjectDir, EntryKind, Kept;
    match e
    case Add(path, name, kind, disabled) => AddKeepsNames(fs, es, path, name, kind, disabled);
    case AddNamed(_, _, _, _) =>
    case AddRecursive(dirs, disabled) => AddAllKeepsNames(fs, es, dirs, disabled);
    case Register(path, name, kind, disabled) => RegisterKeepsNames(fs, es, path, name, kind, disabled);
    case Remove(token, _) => KeptFacts(fs, es, fs.canon(fs.pathOf(token)));
    case SetEnabled(_, _) =>
  }

  /** After any sequence of edits no two entries share a name. */
  lemma {:induction false} NamesStayDistinct(es: seq<Entry>, edits: seq<(Fs, Edit)>)
    requires NamesDistinct(es)
    ensures NamesDistinct(EditedAll(es, edits))
    decreases |edits|
  {
    hide Edited, NamesDistinct;
    if edits != [] {
      EditKeepsNames(edits[0].0, es, edits[0].1);
      NamesStayDistinct(Edited(edits[0].0, es, edits[0].1), edits[1..]);
    }
  }

  // --- recursive registration and its inverse ------------------------------------------------------

  /** What the scan for members returns only: directories that bear a manifest. */
  predicate Registrable(fs: Fs, dir: Path) { fs.isDir(dir) && fs.isFile(dir + [MANIFEST]) }

  predicate AllRegistrable(fs: Fs, dirs: seq<Path>) { forall i | 0 <= i < |dirs| :: Registrable(fs, dirs[i]) }

  predicate PathsDistinct(fs: Fs, es: seq<Entry>) {
    forall i, j | 0 <= i < j < |es| :: fs.canon(es[i].path) != fs.canon(es[j].path)
  }

  /** No entry from `n` on shares its canonical path with an entry before it. */
  predicate NewPathsFresh(fs: Fs, es: seq<Entry>, n: nat) {
    forall i, j | 0 <= i < j < |es| && n <= j :: fs.canon(es[i].path) != fs.canon(es[j].path)
  }

  lemma AddedMember(fs: Fs, es: seq<Entry>, dir: Path, disabled: bool)
    requires Registrable(fs, dir)
    ensures var (es', r) := Added(fs, es, dir, None, None, disabled);
            r.Ok? && |es'| == |es| + 1 && es'[..|es|] == es && es'[|es|].path == dir
  {
    hide ChosenName;
  }

  /** What a recursive registration of registrable directories leaves: the old entries in
      front, then one new entry for each canonical path that was not there, whatever paths
      the old entries share. */
  lemma {:induction false} AddAllFacts(fs: Fs, es: seq<Entry>, dirs: seq<Path>, disabled: bool)
    requires AllRegistrable(fs, dirs)
    ensures var (es', r) := AddedAll(fs, es, dirs, disabled);
            && r.Ok? && |es| <= |es'| && es'[..|es|] == es && |r.value| == |es'| - |es|
            && (forall i | 0 <= i < |dirs| :: HasPath(fs, es', fs.canon(dirs[i])))
            && (forall k | |es| <= k < |es'| :: es'[k].path in dirs)
    decreases |dirs|
  {
    if dirs == [] {
    } else if HasPath(fs, es, fs.canon(dirs[0])) {
      hide Added, Registrable;
      RestRegistrable(fs, dirs);
      AddAllFacts(fs, es, dirs[1..], disabled);
      var es' := AddedAll(fs, es, dirs[1..], disabled).0;
      HasPathGrows(fs, es, es', fs.canon(dirs[0]));
      AllHavePath(fs, es', dirs);
    } else {
      RestRegistrable(fs, dirs);
      AddedMember(fs, es, dirs[0], disabled);
      hide Added, Registrable, HasPath;
      var es1 := Added(fs, es, dirs[0], None, None, disabled).0;
      AddAllFacts(fs, es1, dirs[1..], disabled);
      var es' := AddedAll(fs, es1, dirs[1..], disabled).0;
      assert es'[..|es|] == es'[..|es1|][..|es|] == es;
      assert es'[|es|] == es'[..|es1|][|es|];
      HasPathAt(fs, es', |es|);
      AllHavePath(fs, es', dirs);
    }
  }

  /** No added entry has the canonical path of another, old or new. */
  lemma {:induction false} AddAllFresh(fs: Fs, es: seq<Entry>, dirs: seq<Path>, disabled: bool)
    requires AllRegistrable(fs, dirs)
    ensures NewPathsFresh(fs, AddedAll(fs, es, dirs, disabled).0, |es|)
    decreases |dirs|
  {
    hide Added, Registrable, HasPath;
    if dirs != [] {
      RestRegistrable(fs, dirs);
      if HasPath(fs, es, fs.canon(dirs[0])) {
        AddAllFresh(fs, es, dirs[1..], disabled);
      } else {
        AddedMember(fs, es, dirs[0], disabled);
        var es1 := Added(fs, es, dirs[0], None, None, disabled).0;
        AddAllFresh(fs, es1, dirs[1..], disabled);
        AddAllFacts(fs, es1, dirs[1..], disabled);
        NewPathFresh(fs, es, es1, AddedAll(fs, es1, dirs[1..], disabled).0, fs.canon(dirs[0]));
      }
    }
  }

  lemma RestRegistrable(fs: Fs, dirs: seq<Path>)
    requires dirs != [] && AllRegistrable(fs, dirs)
    ensures Registrable(fs, dirs[0]) && AllRegistrable(fs, dirs[1..])
  {
  }

  lemma HasPathAt(fs: Fs, es: seq<Entry>, i: nat)
    requires i < |es|
    ensures HasPath(fs, es, fs.canon(es[i].path))
  {
  }

  lemma HasPathGrows(fs: Fs, es: seq<Entry>, es': seq<Entry>, target: Path)
    requires HasPath(fs, es, target) && |es| <= |es'| && es'[..|es|] == es
    ensures HasPath(fs, es', target)
  {
    var i :| 0 <= i < |es| && fs.canon(es[i].path) == target;
    assert es'[i] == es[i];
  }

  lemma AllHavePath(fs: Fs, es: seq<Entry>, dirs: seq<Path>)
    requires dirs != [] && HasPath(fs, es, fs.canon(dirs[0]))
    requires forall i | 0 <= i < |dirs[1..]| :: HasPath(fs, es, fs.canon(dirs[1..][i]))
    ensures forall i | 0 <= i < |dirs| :: HasPath(fs, es, fs.canon(dirs[i]))
  {
    forall i | 0 < i < |dirs| ensures HasPath(fs, es, fs.canon(dirs[i])) {
      assert dirs[i] == dirs[1..][i - 1];
    }
  }

  lemma NewPathFresh(fs: Fs, es: seq<Entry>, es1: seq<Entry>, es': seq<Entry>, target: Path)
    requires |es1| == |es| + 1 && es1[..|es|] == es && fs.canon(es1[|es|].path) == target
    requires !HasPath(fs, es, target)
    requires |es1| <= |es'| && es'[..|es1|] == es1 && NewPathsFresh(fs, es', |es1|)
    ensures NewPathsFresh(fs, es', |es|)
  {
    assert forall i | 0 <= i < |es1| :: es'[i] == es1[i];
    assert forall i | 0 <= i < |es| :: es1[i] == es[i];
  }

  /** Run again on an unchanged tree, it adds nothing; and it never adds two entries with
      one canonical path, nor one that is there already. */
  lemma AddRecursiveTwice(fs: Fs, es: seq<Entry>, dirs: seq<Path>, disabled: bool)
    requires AllRegistrable(fs, dirs)
    ensures var (once, r) := AddedAll(fs, es, dirs, disabled);
            r.Ok? && AddedAll(fs, once, dirs, disabled) == (once, Ok([]))
            && NewPathsFresh(fs, once, |es|) && (PathsDistinct(fs, es) ==> PathsDistinct(fs, once))
  {
    AddAllFacts(fs, es, dirs, disabled);
    AddAllFresh(fs, es, dirs, disabled);
    var once := AddedAll(fs, es, dirs, disabled).0;
    assert forall i | 0 <= i < |es| :: once[i] == es[i];
    AddsNothing(fs, once, dirs, disabled);
  }

  lemma {:induction false} AddsNothing(fs: Fs, es: seq<Entry>, dirs: seq<Path>, disabled: bool)
    requires forall i | 0 <= i < |dirs| :: HasPath(fs, es, fs.canon(dirs[i]))
    ensures AddedAll(fs, es, dirs, disabled) == (es, Ok([]))
    decreases |dirs|
  {
    hide HasPath, Added;
    if dirs != [] {
      assert forall i | 0 <= i < |dirs[1..]| :: dirs[1..][i] == dirs[i + 1];
      AddsNothing(fs, es, dirs[1..], disabled);
    }
  }

  lemma {:induction false} KeptOfSum(fs: Fs, a: seq<Entry>, b: seq<Entry>, target: Path)
    ensures Kept(fs, a + b, target) == Kept(fs, a, target) + Kept(fs, b, target)
  {
    hide Under;
    if a == [] {
      assert a + b == b;
    } else {
      assert (a + b)[1..] == a[1..] + b;
      KeptOfSum(fs, a[1..], b, target);
    }
  }

  lemma {:induction false} KeepsNone(fs: Fs, es: seq<Entry>, target: Path)
    requires forall i | 0 <= i < |es| :: Under(fs, target, es[i])
    ensures Kept(fs, es, target) == []
  {
    if es != [] { KeepsNone(fs, es[1..], target); }
  }

  /** Unregistering the tree that was just registered leaves exactly the original entries
      that are not under its root, in order. */
  lemma RemoveUndoesAddRecursive(fs: Fs, es: seq<Entry>, dirs: seq<Path>, disabled: bool, token: string)
    requires AllRegistrable(fs, dirs)
    requires forall d | d in dirs :: fs.canon(fs.pathOf(token)) <= fs.canon(d)
    ensures var target := fs.canon(fs.pathOf(token));
            Removed(fs, AddedAll(fs, es, dirs, disabled).0, token, true).0 == Kept(fs, es, target)
  {
    hide Kept, AddedAll;
    var target := fs.canon(fs.pathOf(token));
    var after := AddedAll(fs, es, dirs, disabled).0;
    AddAllFacts(fs, es, dirs, disabled);
    var added := after[|es|..];
    assert after == es + added;
    assert forall k | 0 <= k < |added| :: added[k] == after[|es| + k] && Under(fs, target, added[k]);
    KeptOfSum(fs, es, added, target);
    KeepsNone(fs, added, target);
  }

  /** The entries that stay are those not under the target, and the names given back are
      those of the others, both in order. */
  lemma {:induction false} RemovePartitions(fs: Fs, es: seq<Entry>, target: Path)
    ensures forall e :: e in Kept(fs, es, target) <==> e in es && !Under(fs, target, e)
    ensures |Kept(fs, es, target)| + |RemovedNames(fs, es, target)| == |es|
    ensures forall n :: n in RemovedNames(fs, es, target) <==>
                        exists i :: 0 <= i < |es| && Under(fs, target, es[i]) && es[i].name == n
  {
    hide Under;
    if es != [] {
      RemovePartitions(fs, es[1..], target);
      assert forall i | 0 <= i < |es[1..]| :: es[1..][i] == es[i + 1];
      assert es == [es[0]] + es[1..];
    }
  }

  // --- what a name would become ---------------------------------------------------------------------

  datatype NameOutcome = NameFree | CollidesEntry(resolved: string) | CollidesVerb(resolved: string)

  function OutcomeOf(es: seq<Entry>, candidate: string, root: Path): NameOutcome {
    if Free(candidate, Taken(es)) then NameFree
    else
      var resolved := Disambiguated(candidate, root, Taken(es));
      if candidate in Taken(es) then CollidesEntry(resolved) else CollidesVerb(resolved)
  }

  /** The classification foretells what adding under that name stores. */
  lemma OutcomeForetellsAdd(fs: Fs, es: seq<Entry>, path: Path, candidate: string, kind: Option<Kind>, disabled: bool)
    requires ProjectDir(fs, path, kind.Some?).Some?
    ensures var stored := Added(fs, es, path, Some(candidate), kind, disabled).1;
            match OutcomeOf(es, candidate, ProjectDir(fs, path, kind.Some?).value)
            case NameFree => stored == Ok(candidate)
            case CollidesEntry(resolved) => stored == Ok(resolved) && resolved != candidate
            case CollidesVerb(resolved) => stored == Ok(resolved) && resolved != candidate
  {
    hide Disambiguated, ProjectDir;
    DisambiguatedIsFree(candidate, ProjectDir(fs, path, kind.Some?).value, Taken(es));
  }

  // --- what an edit does, entry by entry --------------------------------------------------------------

  /** A directory is named after its last component, and collisions are resolved with the
      directory above. */
  lemma NamesOfDirectories(dir: Path, parent: string, name: string, candidate: string)
    requires name != ".." && parent != ".." && parent != ""
    ensures Basename(dir + [name]) == name
    ensures Prefixed(candidate, dir + [parent, name]) == parent + "-" + candidate
  {
    var root := dir + [parent, name];
    assert root[..|root| - 1] == dir + [parent];
  }

  /** A directory without a name of its own is called "extension". */
  lemma NamelessDirectories(dir: Path)
    ensures Basename([]) == "extension" && Basename(dir + [".."]) == "extension"
  {
  }

  /** What can be registered: a directory with a rackabel.toml or a package.json, or typed by
      the user, or the rackabel.toml itself, which stands for its directory. */
  lemma RegistrableExactly(fs: Fs, path: Path, typed: bool)
    requires fs.isDir(path) ==> !fs.isFile(path)
    ensures fs.isDir(path) ==>
              ProjectDir(fs, path, typed)
              == if fs.isFile(path + ["rackabel.toml"]) || fs.isFile(path + ["package.json"]) || typed then Some(path)
                 else None
    ensures fs.isFile(path) ==>
              (ProjectDir(fs, path, typed).Some? <==> exists dir :: path == dir + ["rackabel.toml"])
              && forall dir | path == dir + ["rackabel.toml"] :: ProjectDir(fs, path, typed) == Some(dir)
    ensures !fs.isDir(path) && !fs.isFile(path) ==> ProjectDir(fs, path, typed).None?
  {
    if fs.isFile(path) && path != [] {
      assert path == path[..|path| - 1] + [path[|path| - 1]];
    }
  }

  /** What adding stores: one entry at the end, at the project's directory, enabled unless asked
      otherwise, with the kind given or else the one its manifest declares, never a workspace. */
  lemma AddStores(fs: Fs, es: seq<Entry>, path: Path, name: Option<string>, kind: Option<Kind>, disabled: bool)
    ensures var root := ProjectDir(fs, path, kind.Some?);
            var (es', r) := Added(fs, es, path, name, kind, disabled);
            if root.None? then es' == es && r == Err(NoManifest)
            else
              && es' == es + [es'[|es|]] && r == Ok(es'[|es|].name) && es'[|es|].path == root.value
              && (es'[|es|].enabled <==> !disabled)
              && (name.Some? && Free(name.value, Taken(es)) ==> r.value == name.value)
              && (name.None? && Free(Basename(root.value), Taken(es)) ==> r.value == Basename(root.value))
              && KindStored(fs, root.value, kind, es'[|es|].kind)
  {
    hide Disambiguated, ProjectDir, Basename;
    var root := ProjectDir(fs, path, kind.Some?);
    if root.Some? {
      DisambiguatedIsFree(Basename(root.value), root.value, Taken(es));
    }
  }

  predicate KindStored(fs: Fs, root: Path, given: Option<Kind>, stored: Option<Kind>) {
    if given.Some? then stored == given
    else
      && (stored.Some? ==>
            fs.isFile(root + ["rackabel.toml"]) && fs.declared(root) == stored && stored != Some(Workspace))
      && (stored.None? ==> fs.isFile(root + ["rackabel.toml"]) ==> fs.declared(root) in {None, Some(Workspace)})
  }

  lemma AddNamedStores(fs: Fs, es: seq<Entry>, path: Path, name: string, kind: Option<Kind>, disabled: bool)
    ensures var root := ProjectDir(fs, path, kind.Some?);
            var (es', r) := AddedNamed(fs, es, path, name, kind, disabled);
            if root.None? then es' == es && r == Err(NoManifest)
            else if exists e | e in es :: e.name == name then es' == es && r == Err(NameCollision)
            else
              && es' == es + [es'[|es|]] && r == Ok(name) && es'[|es|].name == name && es'[|es|].path == root.value
              && (es'[|es|].enabled <==> !disabled) && KindStored(fs, root.value, kind, es'[|es|].kind)
  {
    hide ProjectDir;
    assert name in Taken(es) <==> exists e | e in es :: e.name == name;
  }

  /** Entry `i` is what a token stands for: the first of that name, or, with none of that name,
      the first at the path it spells. */
  predicate Found(fs: Fs, es: seq<Entry>, token: string, i: nat) {
    && i < |es|
    && if exists k | 0 <= k < |es| :: es[k].name == token
       then es[i].name == token && forall k | 0 <= k < i :: es[k].name != token
       else
         && fs.canon(es[i].path) == fs.canon(fs.pathOf(token))
         && forall k | 0 <= k < i :: fs.canon(es[k].path) != fs.canon(fs.pathOf(token))
  }

  lemma LookupExactly(fs: Fs, es: seq<Entry>, token: string)
    ensures Lookup(fs, es, token).Some? ==> Found(fs, es, token, Lookup(fs, es, token).value)
    ensures Lookup(fs, es, token).None? ==> forall i: nat :: !Found(fs, es, token, i)
  {
  }

  /** Enabling or disabling sets one flag, that of the entry found, and changes nothing else. */
  lemma SetEnabledExactly(fs: Fs, es: seq<Entry>, token: string, enabled: bool)
    ensures var (es', r) := EnabledSet(fs, es, token, enabled);
            && |es'| == |es|
            && (r.Err? ==> es' == es && r == Err(NotFound) && forall i: nat :: !Found(fs, es, token, i))
            && (r.Ok? ==> exists i: nat ::
                  && Found(fs, es, token, i) && es'[i] == r.value
                  && es'[i] == Entry(es[i].name, es[i].path, enabled, es[i].kind)
                  && forall k | 0 <= k < |es| && k != i :: es'[k] == es[k])
  {
    LookupExactly(fs, es, token);
    hide Lookup, Found;
    var found := Lookup(fs, es, token);
    if found.Some? {
      var es' := EnabledSet(fs, es, token, enabled).0;
      assert Found(fs, es, token, found.value) && es'[found.value].enabled == enabled;
    }
  }

  /** Removing without recursion takes out one entry, the one found, and keeps the others in
      order. */
  lemma RemoveOneExactly(fs: Fs, es: seq<Entry>, token: string)
    ensures var (es', r) := Removed(fs, es, token, false);
            && (r.Err? ==> es' == es && r == Err(NotFound) && forall i: nat :: !Found(fs, es, token, i))
            && (r.Ok? ==> exists i: nat ::
                  && Found(fs, es, token, i) && r.value == [es[i].name] && |es'| == |es| - 1
                  && (forall k | 0 <= k < i :: es'[k] == es[k]) && (forall k | i < k < |es| :: es'[k - 1] == es[k]))
  {
    LookupExactly(fs, es, token);
    hide Lookup, Found;
    var found := Lookup(fs, es, token);
    if found.Some? {
      var es' := Removed(fs, es, token, false).0;
      assert Found(fs, es, token, found.value) && |es'| == |es| - 1;
    }
  }

  // --- filters keep order -----------------------------------------------------------------------------

  predicate Rising(at: seq<nat>) { forall j, k | 0 <= j < k < |at| :: at[j] < at[k] }

  predicate StandAt(es: seq<Entry>, r: seq<Entry>, at: seq<nat>) {
    |at| == |r| && forall k | 0 <= k < |at| :: at[k] < |es| && r[k] == es[at[k]]
  }

  ghost predicate AreAll(es: seq<Entry>, at: seq<nat>, wanted: iset<Entry>) {
    forall i | 0 <= i < |es| :: es[i] in wanted <==> i in at
  }

  /** `r` is the wanted entries, each in its place: those at the rising positions `at`, which
      are the positions of all wanted ones. */
  ghost predicate Picks(es: seq<Entry>, r: seq<Entry>, at: seq<nat>, wanted: iset<Entry>) {
    StandAt(es, r, at) && Rising(at) && AreAll(es, at, wanted)
  }

  function Later(at: seq<nat>): (r: seq<nat>)
    ensures |r| == |at| && forall k | 0 <= k < |r| :: r[k] == at[k] + 1
  {
    seq(|at|, k requires 0 <= k < |at| => at[k] + 1)
  }

  lemma StandLater(e: Entry, rest: seq<Entry>, r: seq<Entry>, at: seq<nat>)
    requires StandAt(rest, r, at)
    ensures StandAt([e] + rest, r, Later(at)) && StandAt([e] + rest, [e] + r, [0] + Later(at))
  {
  }

  lemma RisingLater(at: seq<nat>)
    requires Rising(at)
    ensures Rising(Later(at)) && Rising([0] + Later(at))
  {
  }

  lemma AllLater(e: Entry, rest: seq<Entry>, at: seq<nat>, wanted: iset<Entry>)
    requires AreAll(rest, at, wanted)
    ensures AreAll([e] + rest, if e in wanted then [0] + Later(at) else Later(at), wanted)
  {
    var es, more := [e] + rest, if e in wanted then [0] + Later(at) else Later(at);
    forall i: nat | i < |es|
      ensures es[i] in wanted <==> i in more
    {
      LaterHas(at, i);
      if i > 0 { assert es[i] == rest[i - 1]; }
    }
  }

  lemma LaterHas(at: seq<nat>, i: nat)
    ensures i in Later(at) <==> i > 0 && i - 1 in at
    ensures i in [0] + Later(at) <==> i == 0 || i - 1 in at
  {
    if i > 0 && i - 1 in at {
      var k :| 0 <= k < |at| && at[k] == i - 1;
      assert Later(at)[k] == i;
    }
    if i in Later(at) {
      var k :| 0 <= k < |at| && Later(at)[k] == i;
      assert at[k] == i - 1;
    }
  }

  lemma PicksMore(e: Entry, rest: seq<Entry>, r: seq<Entry>, at: seq<nat>, wanted: iset<Entry>) returns (more: seq<nat>)
    requires Picks(rest, r, at, wanted)
    ensures Picks([e] + rest, (if e in wanted then [e] else []) + r, more, wanted)
  {
    more := if e in wanted then [0] + Later(at) else Later(at);
    hide StandAt, Rising, AreAll, Later;
    StandLater(e, rest, r, at);
    RisingLater(at);
    AllLater(e, rest, at, wanted);
    assert [] + r == r;
  }

  /** The entries whose canonical path does not continue the target's. */
  ghost function Outside(fs: Fs, target: Path): iset<Entry> {
    iset e: Entry | !exists rest :: fs.canon(e.path) == target + rest
  }

  lemma UnderExactly(fs: Fs, target: Path, e: Entry)
    ensures Under(fs, target, e) <==> e !in Outside(fs, target)
  {
    if Under(fs, target, e) { assert fs.canon(e.path) == target + fs.canon(e.path)[|target|..]; }
  }

  /** A recursive removal leaves the entries outside the target, each in its place. */
  lemma {:induction false} KeptPicks(fs: Fs, es: seq<Entry>, target: Path) returns (at: seq<nat>)
    ensures Picks(es, Kept(fs, es, target), at, Outside(fs, target))
  {
    hide Outside, Under, Picks;
    if es == [] {
      at := [];
      NothingPicked(Outside(fs, target));
    } else {
      at := KeptPicks(fs, es[1..], target);
      UnderExactly(fs, target, es[0]);
      at := PicksMore(es[0], es[1..], Kept(fs, es[1..], target), at, Outside(fs, target));
      assert [es[0]] + es[1..] == es;
    }
  }

  function Names(es: seq<Entry>): (r: seq<string>)
    ensures |r| == |es| && forall i | 0 <= i < |r| :: r[i] == es[i].name
  {
    if es == [] then [] else [es[0].name] + Names(es[1..])
  }

  lemma {:induction false} GonePicks(fs: Fs, es: seq<Entry>, target: Path) returns (gone: seq<Entry>, at: seq<nat>)
    ensures RemovedNames(fs, es, target) == Names(gone)
    ensures Picks(es, gone, at, iset e: Entry | e !in Outside(fs, target))
  {
    hide Outside, Under, Picks;
    var others := iset e: Entry | e !in Outside(fs, target);
    if es == [] {
      gone, at := [], [];
      NothingPicked(others);
    } else {
      gone, at := GonePicks(fs, es[1..], target);
      UnderExactly(fs, target, es[0]);
      at := PicksMore(es[0], es[1..], gone, at, others);
      assert [es[0]] + es[1..] == es && [] + gone == gone;
      if es[0] in others {
        assert ([es[0]] + gone)[1..] == gone;
        gone := [es[0]] + gone;
      }
    }
  }

  lemma NothingPicked(wanted: iset<Entry>)
    ensures Picks([], [], [], wanted)
  {
  }

  /** The entries that ask for nothing readable, or for this version of the host or an earlier one. */
  ghost function Loadable(fs: Fs, host: Version): iset<Entry> {
    iset e: Entry | fs.minimum(e.path).None? || fs.minimum(e.path).value == host || Less(fs.minimum(e.path).value, host)
  }

  /** The pre-filter keeps exactly those, each in its place. */
  lemma {:induction false} CompatiblePicks(fs: Fs, es: seq<Entry>, host: Version) returns (at: seq<nat>)
    ensures Picks(es, Compatible(fs, es, host), at, Loadable(fs, host))
  {
    hide Picks, Less;
    if es == [] {
      at := [];
      NothingPicked(Loadable(fs, host));
    } else {
      at := CompatiblePicks(fs, es[1..], host);
      if fs.minimum(es[0].path).Some? { Trichotomy(fs.minimum(es[0].path).value, host); }
      assert TooNew(fs, es[0], host) <==> es[0] !in Loadable(fs, host);
      at := PicksMore(es[0], es[1..], Compatible(fs, es[1..], host), at, Loadable(fs, host));
      assert [es[0]] + es[1..] == es;
    }
  }

  /** And skips exactly the others, each in its place. */
  lemma {:induction false} IncompatiblePicks(fs: Fs, es: seq<Entry>, host: Version) returns (at: seq<nat>)
    ensures Picks(es, Incompatible(fs, es, host), at, iset e: Entry | e !in Loadable(fs, host))
  {
    hide Picks, Less;
    var others := iset e: Entry | e !in Loadable(fs, host);
    if es == [] {
      at := [];
      NothingPicked(others);
    } else {
      at := IncompatiblePicks(fs, es[1..], host);
      if fs.minimum(es[0].path).Some? { Trichotomy(fs.minimum(es[0].path).value, host); }
      assert TooNew(fs, es[0], host) <==> es[0] in others;
      at := PicksMore(es[0], es[1..], Incompatible(fs, es[1..], host), at, others);
      assert [es[0]] + es[1..] == es;
    }
  }

  /** A recursive removal is an error exactly when nothing lies under the target, and else gives
      back the names of what it took out, in order. */
  lemma RemoveAllExactly(fs: Fs, es: seq<Entry>, token: string)
    returns (gone: seq<Entry>, outAt: seq<nat>, keptAt: seq<nat>)
    ensures var target := fs.canon(fs.pathOf(token)); var (es', r) := Removed(fs, es, token, true);
            && Picks(es, es', keptAt, Outside(fs, target))
            && Picks(es, gone, outAt, iset e: Entry | e !in Outside(fs, target))
            && r == (if gone == [] then Err(NotFound) else Ok(Names(gone)))
            && (gone == [] <==> forall e | e in es :: e in Outside(fs, target))
  {
    var target := fs.canon(fs.pathOf(token));
    keptAt := KeptPicks(fs, es, target);
    gone, outAt := GonePicks(fs, es, target);
    NonePicked(es, gone, outAt, Outside(fs, target));
    hide Outside, Kept, Picks, Names, RemovedNames;
  }

  lemma NonePicked(es: seq<Entry>, r: seq<Entry>, at: seq<nat>, wanted: iset<Entry>)
    requires Picks(es, r, at, iset e: Entry | e !in wanted)
    ensures r == [] <==> forall e | e in es :: e in wanted
  {
    if r != [] {
      assert at[0] in at && es[at[0]] !in wanted;
    }
    if e :| e in es && e !in wanted {
      var i :| 0 <= i < |es| && es[i] == e;
      assert i in at;
    }
  }

  /** A recursive registration gives back the names it stored, in order, and appends them. */
  lemma {:induction false} AddAllReturns(fs: Fs, es: seq<Entry>, dirs: seq<Path>, disabled: bool)
    ensures var (es', r) := AddedAll(fs, es, dirs, disabled);
            es <= es' && (r.Ok? ==> r.value == Names(es'[|es|..]))
            && forall k | |es| <= k < |es'| :: es'[k].enabled != disabled
    decreases |dirs|
  {
    hide Added, HasPath;
    if dirs == [] {
      assert es[|es|..] == [];
    } else if HasPath(fs, es, fs.canon(dirs[0])) {
      AddAllReturns(fs, es, dirs[1..], disabled);
    } else {
      var (es1, r) := Added(fs, es, dirs[0], None, None, disabled);
      AddStores(fs, es, dirs[0], None, None, disabled);
      if r.Ok? {
        AddAllReturns(fs, es1, dirs[1..], disabled);
        var es' := AddedAll(fs, es1, dirs[1..], disabled).0;
        assert es'[|es|..] == [es1[|es|]] + es'[|es1|..];
      }
    }
  }

  /** The first member that is no project ends it, with the members before it stored. */
  lemma {:induction false} AddAllStops(fs: Fs, es: seq<Entry>, before: seq<Path>, dir: Path, rest: seq<Path>,
                                       disabled: bool)
    requires AddedAll(fs, es, before, disabled).1.Ok?
    requires ProjectDir(fs, dir, false).None? && !HasPath(fs, AddedAll(fs, es, before, disabled).0, fs.canon(dir))
    ensures AddedAll(fs, es, before + [dir] + rest, disabled) == (AddedAll(fs, es, before, disabled).0, Err(NoManifest))
    decreases |before|
  {
    hide HasPath, ProjectDir, ChosenName;
    var dirs := before + [dir] + rest;
    if before == [] {
      assert dirs[0] == dir;
    } else {
      assert dirs[0] == before[0] && dirs[1..] == before[1..] + [dir] + rest;
      if HasPath(fs, es, fs.canon(before[0])) {
        AddAllStops(fs, es, before[1..], dir, rest, disabled);
      } else {
        AddAllStops(fs, Added(fs, es, before[0], None, None, disabled).0, before[1..], dir, rest, disabled);
      }
    }
  }

  // --- the register verb -------------------------------------------------------------------------------

  /** What the verb makes of one path: nothing when that path is registered already, a
      refusal when an explicit name is taken, and else one entry, under the explicit name
      even when that is a verb, or under the name foretold for the directory's own. */
  function RegisteredPath(fs: Fs, es: seq<Entry>, path: Path, name: Option<string>, kind: Option<Kind>, disabled: bool)
    : (seq<Entry>, Result<Option<string>>)
  {
    if HasPath(fs, es, fs.canon(path)) then (es, Ok(None))
    else if name.Some? && OutcomeOf(es, name.value, path).CollidesEntry? then (es, Err(NameCollision))
    else
      var candidate := if name.Some? then name.value else Basename(path);
      var outcome := OutcomeOf(es, candidate, path);
      var chosen := if name.Some? || outcome.NameFree? then candidate else outcome.resolved;
      var (es', r) := AddedNamed(fs, es, path, chosen, kind, disabled);
      (es', match r case Ok(stored) => Ok(Some(stored)) case Err(f) => Err(f))
  }

  method RegisterPath(reg: Registry, fs: Fs, path: Path, name: Option<string>, kind: Option<Kind>, disabled: bool)
    returns (r: Result<Option<string>>)
    modifies reg
    ensures (reg.entries, r) == RegisteredPath(fs, old(reg.entries), path, name, kind, disabled)
  {
    hide OutcomeOf, HasPath, Basename;
    if HasPath(fs, reg.entries, fs.canon(path)) {
      return Ok(None);
    }
    var chosen;
    if name.Some? {
      var outcome := OutcomeOf(reg.entries, name.value, path);
      if outcome.CollidesEntry? {
        return Err(NameCollision);
      }
      chosen := name.value;
    } else {
      var outcome := OutcomeOf(reg.entries, Basename(path), path);
      chosen := if outcome.NameFree? then Basename(path) else outcome.resolved;
    }
    var stored := reg.AddNamed(fs, path, chosen, kind, disabled);
    return match stored case Ok(n) => Ok(Some(n)) case Err(f) => Err(f);
  }

  /** The verb refuses a name exactly when it was given explicitly and is taken; whatever it
      stores is a new name, the explicit one as it stands, and without one a name that is no
      verb and that adding the directory would choose too. */
  lemma RegisterStoresForetold(fs: Fs, es: seq<Entry>, path: Path, name: Option<string>, kind: Option<Kind>,
                               disabled: bool)
    ensures var (es', r) := RegisteredPath(fs, es, path, name, kind, disabled);
            && (r == Err(NameCollision) <==> !HasPath(fs, es, fs.canon(path)) && name.Some? && name.value in Taken(es))
            && (r.Ok? && r.value.Some? ==>
                  && r.value.value !in Taken(es) && es' == es + [es'[|es|]] && es'[|es|].name == r.value.value
                  && (name.Some? ==> r.value == name)
                  && (name.None? ==> Free(r.value.value, Taken(es)))
                  && (name.None? && ProjectDir(fs, path, kind.Some?) == Some(path) ==>
                        es' == Added(fs, es, path, None, kind, disabled).0))
  {
    hide Disambiguated, HasPath, Basename;
    DisambiguatedIsFree(Basename(path), path, Taken(es));
  }

  /** Registering a path again does nothing exactly when the directory it stands for has the
      path's own canonical form. A path to the manifest itself is registered again, unless its
      name was given: that is taken by then, and refused. */
  lemma RegisterAgainExactly(fs: Fs, es: seq<Entry>, path: Path, name: Option<string>, kind: Option<Kind>,
                             disabled: bool)
    requires !HasPath(fs, es, fs.canon(path)) && ProjectDir(fs, path, kind.Some?).Some?
    requires name.Some? ==> name.value !in Taken(es)
    ensures var once := RegisteredPath(fs, es, path, name, kind, disabled).0;
            var again := RegisteredPath(fs, once, path, name, kind, disabled);
            && |once| == |es| + 1
            && if fs.canon(ProjectDir(fs, path, kind.Some?).value) == fs.canon(path) then again == (once, Ok(None))
               else if name.Some? then again == (once, Err(NameCollision))
               else |again.0| == |once| + 1 && again.0[..|once|] == once
  {
    var once := RegisteredPath(fs, es, path, name, kind, disabled).0;
    RegisterStoresForetold(fs, es, path, name, kind, disabled);
    RegisterStoresForetold(fs, once, path, name, kind, disabled);
    assert once[..|es|] == es;
    assert forall i | 0 <= i < |es| :: once[i] == es[i];
    hide Disambiguated, Basename, ProjectDir;
    HasPathAt(fs, once, |es|);
  }

  // --- the pre-filter ----------------------------------------------------------------------------------

  /** The host is too old for the entry. */
  predicate TooNew(fs: Fs, e: Entry, host: Version) {
    fs.minimum(e.path).Some? && Less(host, fs.minimum(e.path).value)
  }

  function Compatible(fs: Fs, es: seq<Entry>, host: Version): seq<Entry> {
    if es == [] then [] else (if TooNew(fs, es[0], host) then [] else [es[0]]) + Compatible(fs, es[1..], host)
  }

  function Incompatible(fs: Fs, es: seq<Entry>, host: Version): seq<Entry> {
    if es == [] then [] else (if TooNew(fs, es[0], host) then [es[0]] else []) + Incompatible(fs, es[1..], host)
  }

  method Prefilter(fs: Fs, es: seq<Entry>, host: Version) returns (kept: seq<Entry>, skipped: seq<Entry>)
    ensures kept == Compatible(fs, es, host) && skipped == Incompatible(fs, es, host)
    ensures forall e :: e in kept <==> e in es && !TooNew(fs, e, host)
    ensures forall e :: e in skipped <==> e in es && TooNew(fs, e, host)
    ensures |kept| + |skipped| == |es|
  {
    hide TooNew, Compatible, Incompatible;
    kept, skipped := [], [];
    assert es[0..] == es;
    for i := 0 to |es|
      invariant kept + Compatible(fs, es[i..], host) == Compatible(fs, es, host)
      invariant skipped + Incompatible(fs, es[i..], host) == Incompatible(fs, es, host)
    {
      PrefilterStep(fs, es[i..], host);
      assert es[i..][1..] == es[i + 1..];
      if TooNew(fs, es[i], host) {
        skipped := skipped + [es[i]];
      } else {
        kept := kept + [es[i]];
      }
    }
    PrefilterPartitions(fs, es, host);
    PrefilterPartitions(fs, es[|es|..], host);
  }

  lemma PrefilterStep(fs: Fs, es: seq<Entry>, host: Version)
    requires es != []
    ensures Compatible(fs, es, host)
         == (if TooNew(fs, es[0], host) then [] else [es[0]]) + Compatible(fs, es[1..], host)
    ensures Incompatible(fs, es, host)
         == (if TooNew(fs, es[0], host) then [es[0]] else []) + Incompatible(fs, es[1..], host)
  {
  }

  lemma {:induction false} PrefilterPartitions(fs: Fs, es: seq<Entry>, host: Version)
    ensures forall e :: e in Compatible(fs, es, host) <==> e in es && !TooNew(fs, e, host)
    ensures forall e :: e in Incompatible(fs, es, host) <==> e in es && TooNew(fs, e, host)
    ensures |Compatible(fs, es, host)| + |Incompatible(fs, es, host)| == |es|
  {
    hide TooNew;
    if es != [] {
      PrefilterPartitions(fs, es[1..], host);
      assert es == [es[0]] + es[1..];
    }
  }

  /** An entry is kept exactly when it asks for nothing readable, or for this version of the
      host or an earlier one. */
  lemma KeptExactly(fs: Fs, es: seq<Entry>, host: Version, e: Entry)
    ensures e in Compatible(fs, es, host) <==>
              && e in es
              && (fs.minimum(e.path).None? || fs.minimum(e.path).value == host || Less(fs.minimum(e.path).value, host))
  {
    PrefilterPartitions(fs, es, host);
    if fs.minimum(e.path).Some? {
      Trichotomy(fs.minimum(e.path).value, host);
    }
  }

  /** A later host keeps whatever an earlier one kept. */
  lemma LaterHostKeepsMore(fs: Fs, es: seq<Entry>, host: Version, later: Version)
    requires Less(host, later)
    ensures forall e | e in Compatible(fs, es, host) :: e in Compatible(fs, es, later)
  {
    hide Less;
    forall e | e in Compatible(fs, es, host)
      ensures e in Compatible(fs, es, later)
    {
      KeptExactly(fs, es, host, e);
      KeptExactly(fs, es, later, e);
      if fs.minimum(e.path).Some? && Less(fs.minimum(e.path).value, host) {
        Transitive(fs.minimum(e.path).value, host, later);
      }
    }
  }
}
