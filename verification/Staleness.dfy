/** Whether a bundle is stale, asked twice: by the watch chain, which walks `src` by recursive
    listings that follow links, and by deploy, which walks it without following any. */
module Staleness {
  import opened Text

  /** A directory entry; a time may be unreadable, a directory may refuse to be listed. */
  datatype Node =
    | File(mtime: Option<int>)
    | Special(mtime: Option<int>)
    | Dir(entries: seq<Node>)
    | Locked
    | Link(target: Option<Node>)

  /** What both tests look at. `src` is nothing when missing; where it is itself a link to a
      directory, both walks start from that directory. */
  datatype Project = Project(bundle: bool, manifest: bool, bundleTime: Option<int>, tomlTime: Option<int>,
                             src: Option<Node>)

  // --- the files of a tree, by the paths that lead to them -------------------------------------

  /** What a link finally stands for. */
  function Resolve(n: Node): (r: Node)
    ensures !r.Link? || r.target.None?
    ensures r == n || r < n
  {
    match n
    case Link(Some(t)) => Resolve(t)
    case _ => n
  }

  /** The node at a path of entry numbers, through links or not. */
  function At(n: Node, path: seq<nat>, follow: bool): Option<Node>
    decreases |path|
  {
    var here := if follow then Resolve(n) else n;
    if path == [] then Some(here)
    else if here.Dir? && path[0] < |here.entries| then At(here.entries[path[0]], path[1..], follow)
    else None
  }

  /** A regular file of the tree, reached through no link, has this time. */
  ghost predicate HasFile(n: Node, m: int) {
    exists path :: At(n, path, false) == Some(File(Some(m)))
  }

  /** A file or special node below, reached through links or not, has this time. */
  ghost predicate Reaches(n: Node, m: int) {
    exists path :: At(n, path, true) == Some(File(Some(m))) || At(n, path, true) == Some(Special(Some(m)))
  }

  predicate Plain(n: Node) {
    match n
    case Dir(entries) => forall k | 0 <= k < |entries| :: Plain(entries[k])
    case File(_) => true
    case Locked => true
    case _ => false
  }

  /** `newest` is the greatest of the times reached from one of the nodes. */
  ghost predicate NewestReached(newest: Option<int>, nodes: seq<Node>) {
    && (newest.Some? ==> exists i | 0 <= i < |nodes| :: Reaches(nodes[i], newest.value))
    && forall i, m | 0 <= i < |nodes| && Reaches(nodes[i], m) :: newest.Some? && m <= newest.value
  }

  /** `newest` is the greatest of the files' times. */
  ghost predicate NewestFile(newest: Option<int>, n: Node) {
    && (newest.Some? ==> HasFile(n, newest.value))
    && forall m | HasFile(n, m) :: newest.Some? && m <= newest.value
  }

  // --- the two walks ---------------------------------------------------------------------------

  function Later(newest: Option<int>, m: Option<int>): Option<int> {
    match m
    case None => newest
    case Some(v) => if newest.Some? && newest.value >= v then newest else m
  }

  /** One entry of the watch chain's walk. */
  method WatchEntry(n: Node) returns (newest: Option<int>)
    ensures NewestReached(newest, [n])
    decreases n, 1
  {
    var r := Resolve(n);
    assert Resolve(r) == r;
    assert forall path :: At(n, path, true) == At(r, path, true);
    forall m ensures Reaches(n, m) <==> Reaches(r, m) {}
    if r.Dir? {
      newest := WatchDir(r);
      forall m ensures Reaches(r, m) <==> exists i | 0 <= i < |r.entries| :: Reaches(r.entries[i], m) {
        ReachesBelow(r, m);
      }
    } else {
      newest := if r.File? || r.Special? then r.mtime else None;
      assert At(r, [], true) == Some(r);
      forall m ensures Reaches(r, m) <==> newest == Some(m) {}
    }
    assert newest.Some? ==> Reaches([n][0], newest.value);
  }

  /** A directory's entries, one after the other; a directory among them is walked in turn. */
  method WatchDir(dir: Node) returns (newest: Option<int>)
    requires dir.Dir?
    ensures NewestReached(newest, dir.entries)
    decreases dir, 0
  {
    newest := None;
    for k := 0 to |dir.entries|
      invariant NewestReached(newest, dir.entries[..k])
    {
      ghost var before := newest;
      var m := WatchEntry(dir.entries[k]);
      newest := Later(newest, m);
      assert [dir.entries[k]][0] == dir.entries[k];
      assert dir.entries[..k + 1] == dir.entries[..k] + [dir.entries[k]];
      LaterIsNewest(before, dir.entries[..k], m, [dir.entries[k]]);
    }
    assert dir.entries[..|dir.entries|] == dir.entries;
  }

  lemma LaterIsNewest(a: Option<int>, left: seq<Node>, b: Option<int>, right: seq<Node>)
    requires NewestReached(a, left) && NewestReached(b, right)
    ensures NewestReached(Later(a, b), left + right)
  {
    hide Reaches;
    var nodes, newest := left + right, Later(a, b);
    if newest.Some? {
      if newest == a {
        var i :| 0 <= i < |left| && Reaches(left[i], a.value);
        assert nodes[i] == left[i];
      } else {
        var i :| 0 <= i < |right| && Reaches(right[i], b.value);
        assert nodes[|left| + i] == right[i];
      }
    }
  }

  lemma ReachesBelow(dir: Node, m: int)
    requires dir.Dir?
    ensures Reaches(dir, m) <==> exists i | 0 <= i < |dir.entries| :: Reaches(dir.entries[i], m)
  {
    if Reaches(dir, m) {
      var path :| At(dir, path, true) == Some(File(Some(m))) || At(dir, path, true) == Some(Special(Some(m)));
      assert At(dir, path, true) == At(dir.entries[path[0]], path[1..], true);
    }
    forall i | 0 <= i < |dir.entries| && Reaches(dir.entries[i], m)
      ensures Reaches(dir, m)
    {
      var path :| At(dir.entries[i], path, true) == Some(File(Some(m)))
                  || At(dir.entries[i], path, true) == Some(Special(Some(m)));
      assert ([i] + path)[1..] == path;
      assert At(dir, [i] + path, true) == At(dir.entries[i], path, true);
    }
  }

  /** The nodes of a tree as a walk that follows no link meets them, parents first. */
  function Walk(n: Node): (r: seq<Node>)
    ensures r != [] && r[0] == n
  {
    [n] + if n.Dir? then WalkAll(n.entries) else []
  }

  function WalkAll(entries: seq<Node>): seq<Node> {
    if entries == [] then [] else Walk(entries[0]) + WalkAll(entries[1..])
  }

  method DeployNewest(src: Node) returns (newest: Option<int>)
    ensures NewestFile(newest, src)
  {
    newest := None;
    var walk := Walk(src);
    for k := 0 to |walk|
      invariant newest.Some? ==> File(newest) in walk[..k]
      invariant forall m {:trigger Some(m)} | File(Some(m)) in walk[..k] :: newest.Some? && m <= newest.value
    {
      assert walk[..k + 1] == walk[..k] + [walk[k]];
      if walk[k].File? {
        newest := Later(newest, walk[k].mtime);
      }
    }
    assert walk[..|walk|] == walk;
    forall m ensures HasFile(src, m) <==> File(Some(m)) in walk { WalkMeetsFiles(src, m); }
  }

  lemma {:induction false} WalkMeetsFiles(n: Node, m: int)
    ensures HasFile(n, m) <==> File(Some(m)) in Walk(n)
    decreases n, 1
  {
    if n.Dir? {
      WalkAllMeetsFiles(n.entries, m);
      HasFileBelow(n, m);
    } else {
      assert At(n, [], false) == Some(n);
    }
  }

  lemma {:induction false} WalkAllMeetsFiles(entries: seq<Node>, m: int)
    ensures (exists i | 0 <= i < |entries| :: HasFile(entries[i], m)) <==> File(Some(m)) in WalkAll(entries)
    decreases entries, 0
  {
    if entries != [] {
      WalkMeetsFiles(entries[0], m);
      WalkAllMeetsFiles(entries[1..], m);
      assert forall i | 0 < i < |entries| :: entries[i] == entries[1..][i - 1];
    }
  }

  lemma HasFileBelow(dir: Node, m: int)
    requires dir.Dir?
    ensures HasFile(dir, m) <==> exists i | 0 <= i < |dir.entries| :: HasFile(dir.entries[i], m)
  {
    if HasFile(dir, m) {
      var path :| At(dir, path, false) == Some(File(Some(m)));
      assert At(dir, path, false) == At(dir.entries[path[0]], path[1..], false);
    }
    forall i | 0 <= i < |dir.entries| && HasFile(dir.entries[i], m)
      ensures HasFile(dir, m)
    {
      var path :| At(dir.entries[i], path, false) == Some(File(Some(m)));
      assert ([i] + path)[1..] == path;
      assert At(dir, [i] + path, false) == At(dir.entries[i], path, false);
    }
  }

  // --- the two tests ---------------------------------------------------------------------------

  /** Some output is missing or unreadable, or the manifest source is newer than the bundle. */
  ghost predicate StaleRegardless(p: Project) {
    !p.bundle || !p.manifest || p.bundleTime.None? || (p.tomlTime.Some? && p.tomlTime.value > p.bundleTime.value)
  }

  ghost predicate NewerReached(p: Project)
    requires p.bundleTime.Some?
  {
    p.src.Some? && p.src.value.Dir? && exists m :: Reaches(p.src.value, m) && m > p.bundleTime.value
  }

  ghost predicate NewerFile(p: Project)
    requires p.bundleTime.Some?
  {
    p.src.Some? && exists m :: HasFile(p.src.value, m) && m > p.bundleTime.value
  }

  /** The watch chain's test; a source that is no directory cannot be listed. */
  method BundleIsStale(p: Project) returns (stale: bool)
    ensures stale <==>
              !p.bundle || !p.manifest || p.bundleTime.None?
              || (p.tomlTime.Some? && p.tomlTime.value > p.bundleTime.value) || NewerReached(p)
    ensures stale <==> StaleRegardless(p) || NewerReached(p)
  {
    if !p.bundle || !p.manifest {
      return true;
    }
    if p.bundleTime.None? {
      return true;
    }
    if p.tomlTime.Some? && p.tomlTime.value > p.bundleTime.value {
      return true;
    }
    if p.src.None? || !p.src.value.Dir? {
      return false;
    }
    var newest := WatchDir(p.src.value);
    forall m
      ensures Reaches(p.src.value, m)
         <==> exists i | 0 <= i < |p.src.value.entries| :: Reaches(p.src.value.entries[i], m)
    {
      ReachesBelow(p.src.value, m);
    }
    assert newest.Some? ==> Reaches(p.src.value, newest.value);
    stale := newest.Some? && newest.value > p.bundleTime.value;
  }

  method SourcesNewerThan(p: Project) returns (newer: bool)
    ensures newer <==> p.bundleTime.None? || (p.tomlTime.Some? && p.tomlTime.value > p.bundleTime.value) || NewerFile(p)
  {
    if p.bundleTime.None? {
      return true;
    }
    if p.tomlTime.Some? && p.tomlTime.value > p.bundleTime.value {
      return true;
    }
    if p.src.None? {
      return false;
    }
    var newest := DeployNewest(p.src.value);
    newer := newest.Some? && newest.value > p.bundleTime.value;
  }

  /** Deploy's test: rebuild unless fresh. */
  method RebuildsIfStale(p: Project) returns (rebuild: bool)
    ensures rebuild <==>
              !p.bundle || !p.manifest || p.bundleTime.None?
              || (p.tomlTime.Some? && p.tomlTime.value > p.bundleTime.value) || NewerFile(p)
    ensures rebuild <==> StaleRegardless(p) || NewerFile(p)
  {
    var newer := false;
    if p.bundle && p.manifest {
      newer := SourcesNewerThan(p);
    }
    var upToDate := p.bundle && p.manifest && !newer;
    rebuild := !upToDate;
  }

  // --- they agree ------------------------------------------------------------------------------

  lemma {:induction false} PlainAlike(n: Node, path: seq<nat>)
    requires Plain(n)
    ensures At(n, path, true) == At(n, path, false)
    ensures At(n, path, true).Some? ==> !At(n, path, true).value.Special?
    decreases |path|
  {
    if path != [] && n.Dir? && path[0] < |n.entries| {
      PlainAlike(n.entries[path[0]], path[1..]);
    }
  }

  /** On a tree without links and special nodes both tests say the same: stale exactly when
      an output is missing or unreadable, or the manifest source or a source file is newer. */
  lemma TestsAgree(p: Project)
    requires p.src.Some? ==> Plain(p.src.value) && !p.src.value.File?
    ensures StaleRegardless(p) || NewerReached(p) <==> StaleRegardless(p) || NewerFile(p)
  {
    if p.src.Some? {
      var src := p.src.value;
      forall path ensures At(src, path, true) == At(src, path, false) { PlainAlike(src, path); }
      forall path ensures At(src, path, true).Some? ==> !At(src, path, true).value.Special? { PlainAlike(src, path); }
      forall m ensures HasFile(src, m) <==> Reaches(src, m) {}
    }
  }

  // --- where they differ -----------------------------------------------------------------------

  /** Something below has this time that a walk following no link overlooks: a special node,
      or a file whose path leads through a link. */
  ghost predicate Overlooked(n: Node, m: int) {
    exists path :: At(n, path, true) == Some(Special(Some(m)))
                   || (At(n, path, true) == Some(File(Some(m))) && ThroughLink(n, path))
  }

  /** Some step of the path, or its end, is a link. */
  predicate ThroughLink(n: Node, path: seq<nat>)
    decreases |path|
  {
    n.Link? || (path != [] && n.Dir? && path[0] < |n.entries| && ThroughLink(n.entries[path[0]], path[1..]))
  }

  lemma {:induction false} PlainPath(n: Node, path: seq<nat>)
    ensures !ThroughLink(n, path) ==> At(n, path, true) == At(n, path, false)
    ensures At(n, path, false).Some? && At(n, path, false).value.File? ==> !ThroughLink(n, path)
    decreases |path|
  {
    if path != [] && n.Dir? && path[0] < |n.entries| {
      PlainPath(n.entries[path[0]], path[1..]);
    }
  }

  /** What is reached is what the plain walk counts and what it overlooks. */
  lemma ReachedOrOverlooked(n: Node, m: int)
    ensures Reaches(n, m) <==> HasFile(n, m) || Overlooked(n, m)
  {
    forall path
      ensures !ThroughLink(n, path) ==> At(n, path, true) == At(n, path, false)
      ensures At(n, path, false) == Some(File(Some(m))) ==> !ThroughLink(n, path)
    {
      PlainPath(n, path);
    }
  }

  /** The tree alone decides whether the tests can differ: a directory's overlooked times
      must not exceed every file's, and a source that is a file must have no readable time. */
  ghost predicate Covered(src: Node) {
    if src.Dir? then forall m | Overlooked(src, m) :: exists k :: HasFile(src, k) && m <= k
    else !(src.File? && src.mtime.Some?)
  }

  ghost predicate Agree(p: Project) {
    StaleRegardless(p) || NewerReached(p) <==> StaleRegardless(p) || NewerFile(p)
  }

  /** Whatever tree `src` is, the tests agree about every project with that source if and only
      if the tree is covered. */
  lemma TestsAgreeExactly(src: Node)
    ensures (forall p: Project | p.src == Some(src) :: Agree(p)) <==> Covered(src)
  {
    forall m ensures Reaches(src, m) <==> HasFile(src, m) || Overlooked(src, m) { ReachedOrOverlooked(src, m); }
    if !src.Dir? {
      assert At(src, [], false) == Some(src);
      forall m ensures HasFile(src, m) <==> src == File(Some(m)) {}
    }
    hide Reaches, HasFile, Overlooked;
    if !Covered(src) {
      var m;
      if src.Dir? {
        m :| Overlooked(src, m) && forall k | HasFile(src, k) :: !(m <= k);
      } else {
        m := src.mtime.value;
      }
      var p := Project(true, true, Some(m - 1), None, Some(src));
      assert src.Dir? ==> NewerReached(p) && !NewerFile(p);
      assert !src.Dir? ==> NewerFile(p) && !NewerReached(p);
      assert !Agree(p);
    }
  }

  /** About one project they differ if and only if nothing else makes it stale and either `src`
      is itself a newer file, which only deploy counts, or everything newer below it is
      overlooked by deploy. */
  lemma TestsDifferExactly(p: Project)
    ensures !Agree(p) <==>
            !StaleRegardless(p) && p.src.Some?
            && ((exists m :: p.src.value == File(Some(m)) && m > p.bundleTime.value)
                || (p.src.value.Dir?
                    && (exists m :: Overlooked(p.src.value, m) && m > p.bundleTime.value)
                    && (forall m | HasFile(p.src.value, m) :: m <= p.bundleTime.value)))
  {
    if p.src.Some? {
      var src := p.src.value;
      forall m ensures Reaches(src, m) <==> HasFile(src, m) || Overlooked(src, m) { ReachedOrOverlooked(src, m); }
      if !src.Dir? {
        assert At(src, [], false) == Some(src);
        forall m ensures HasFile(src, m) <==> src == File(Some(m)) {}
      }
    }
  }

  /** A newer file behind a link: the watch chain rebuilds, deploy does not. */
  lemma LinkedSourceIsMissed()
    ensures var p := Project(true, true, Some(10), None, Some(Dir([Link(Some(File(Some(11))))])));
            !StaleRegardless(p) && NewerReached(p) && !NewerFile(p)
  {
    var src := Dir([Link(Some(File(Some(11))))]);
    assert At(src, [0], true) == Some(File(Some(11)));
    assert Reaches(src, 11);
    forall path, m ensures At(src, path, false) != Some(File(Some(m)))
    {
      if path != [] && path[0] == 0 {
        assert At(src, path, false) == At(Link(Some(File(Some(11)))), path[1..], false);
      }
    }
  }
}
