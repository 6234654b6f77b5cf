/** get.go: the `get` subcommand. It loads a request snapshot, keeps the
    dependencies no layer already satisfies (minus the excluded ones), merges
    them into the top layer, fetches each into `<root>/src/<package>`, and
    saves the top layer. */
module Get {
  import opened Wrappers
  import opened Seqs
  import opened Paths
  import opened Effects
  import opened Configs
  import Vcs

  /** The outside world as get.go sees it: the command host, the VCS queries
      `exists` and `checkout` (by binary and directory; not part of this
      model), `os.MkdirAll`, and reading and writing snapshot files. */
  datatype World = World(
    host: Vcs.Host,
    hasRepo: (string, string) -> bool,
    checkout: (string, string, string) -> bool,
    mkdirAll: string -> bool,
    save: string -> bool,
    load: string -> LoadOutcome)

  /** The `--exclude` flag: unset, a pattern that does not compile, or a
      compiled pattern's match predicate on package names. */
  datatype Exclude = NoExclude | BadPattern | Pattern(matches: string -> bool)

  predicate Excluded(exclude: Exclude, d: Dependency) {
    exclude.Pattern? && exclude.matches(d.package)
  }

  // ---------------------------------------------------------------------------
  // Choosing what to fetch
  // ---------------------------------------------------------------------------

  /** The request's dependencies that no layer contains, in request order. */
  function Missing(h: Hierarchy, deps: seq<Dependency>): (r: seq<Dependency>)
    ensures forall d :: d in r <==> d in deps && !HierarchyContains(h, d)
    ensures forall d :: multiset(r)[d] == if HierarchyContains(h, d) then 0 else multiset(deps)[d]
    ensures IsSubsequence(r, deps)
  {
    Filter(deps, (d: Dependency) => !HierarchyContains(h, d))
  }

  /** The exclusion step: an unset flag keeps everything, a bad pattern is an
      error, a pattern drops exactly the matching packages and keeps order. */
  function ApplyExclude(missing: seq<Dependency>, exclude: Exclude): (r: Result<seq<Dependency>, Error>)
    ensures r.Err? <==> exclude.BadPattern?
    ensures r.Err? ==> r.error == BadExcludePattern
    ensures exclude.NoExclude? ==> r == Ok(missing)
    ensures r.Ok? ==> IsSubsequence(r.value, missing)
    ensures r.Ok? ==> forall d :: d in r.value <==> d in missing && !Excluded(exclude, d)
    ensures r.Ok? ==> forall d :: multiset(r.value)[d] == if Excluded(exclude, d) then 0 else multiset(missing)[d]
  {
    match exclude
    case NoExclude =>
      SubsequenceRefl(missing);
      Ok(missing)
    case BadPattern => Err(BadExcludePattern)
    case Pattern(matches) => Ok(Filter(missing, (d: Dependency) => !matches(d.package)))
  }

  /** The request snapshot's name and the dependencies to fetch. */
  datatype Request = Request(name: string, wanted: seq<Dependency>)

  /** The first half of `runGet`: load the file named by the first argument,
      compute the missing set, and apply the exclusion. */
  function Plan(h: Hierarchy, args: seq<string>, exclude: Exclude, w: World): (r: Result<Request, Error>)
    ensures |args| == 0 ==> r == Err(MissingConfigArgument)
    ensures |args| > 0 && w.load(args[0]).LoadFailed? ==> r == Err(LoadError(args[0], w.load(args[0]).kind))
    ensures |args| > 0 && w.load(args[0]).Loaded? ==>
              var request := w.load(args[0]);
              && (r.Err? <==> exclude.BadPattern?)
              && (r.Ok? ==> r.value.name == request.name)
              && (r.Ok? ==> IsSubsequence(r.value.wanted, request.deps))
              && (r.Ok? ==> forall d :: d in r.value.wanted <==>
                               d in request.deps && !HierarchyContains(h, d) && !Excluded(exclude, d))
              && (r.Ok? ==> forall d :: multiset(r.value.wanted)[d] ==
                               if HierarchyContains(h, d) || Excluded(exclude, d) then 0
                               else multiset(request.deps)[d])
  {
    if |args| == 0 then Err(MissingConfigArgument)
    else
      match Load(args[0], w.load(args[0]))
      case Err(e) => Err(e)
      case Ok(local) =>
        var missing := Missing(h, local.deps);
        match ApplyExclude(missing, exclude)
        case Err(e) => Err(e)
        case Ok(wanted) =>
          SubsequenceTrans(wanted, missing, local.deps);
          Ok(Request(local.name, wanted))
  }

  // ---------------------------------------------------------------------------
  // Fetching
  // ---------------------------------------------------------------------------

  /** Where a dependency is materialised: `<root>/src/<package>`. */
  function DepDir(root: string, d: Dependency): string {
    Join(Join(root, "src"), d.package)
  }

  /** One iteration of `download`: an existing checkout is reset to the
      requested version; otherwise the parent directory is created and, only
      if that worked, the repository is cloned. */
  function Fetch(w: World, root: string, d: Dependency): (r: Effect)
    ensures forall c :: c in r.trace ==> !c.Save?
    ensures var dst := DepDir(root, d); var v := Vcs.VcsByUrl(d.url);
      w.hasRepo(v.cmd, dst) ==>
        && r.trace == [Checkout(v.cmd, dst, d.version)]
        && (r.err.None? <==> w.checkout(v.cmd, dst, d.version))
    ensures var dst := DepDir(root, d); var v := Vcs.VcsByUrl(d.url);
      !w.hasRepo(v.cmd, dst) && !w.mkdirAll(Dir(dst)) ==>
        r == Effect([MkdirAll(Dir(dst))], Some(MkdirFailed(Dir(dst))))
    ensures var dst := DepDir(root, d); var v := Vcs.VcsByUrl(d.url);
      !w.hasRepo(v.cmd, dst) && w.mkdirAll(Dir(dst)) ==>
        var create := Vcs.Create(v, w.host, dst, d.url, d.version);
        r.trace == [MkdirAll(Dir(dst))] + create.trace && r.err == create.err
  {
    var dst := DepDir(root, d);
    var v := Vcs.VcsByUrl(d.url);
    if w.hasRepo(v.cmd, dst) then
      Effect([Checkout(v.cmd, dst, d.version)],
             if w.checkout(v.cmd, dst, d.version) then None else Some(CheckoutFailed(dst, d.version)))
    else if !w.mkdirAll(Dir(dst)) then
      Effect([MkdirAll(Dir(dst))], Some(MkdirFailed(Dir(dst))))
    else
      Then(Effect([MkdirAll(Dir(dst))], None), Vcs.Create(v, w.host, dst, d.url, d.version))
  }

  /** The fetch of every dependency of `deps`, in order. */
  function Fetches(w: World, root: string, deps: seq<Dependency>): (r: seq<Effect>)
    ensures |r| == |deps|
    ensures forall i :: 0 <= i < |deps| ==> r[i] == Fetch(w, root, deps[i])
  {
    seq(|deps|, i requires 0 <= i < |deps| => Fetch(w, root, deps[i]))
  }

  /** Dependency `k` is the first whose fetch fails. */
  ghost predicate FailsFirstAt(w: World, root: string, deps: seq<Dependency>, k: int) {
    && 0 <= k < |deps|
    && Fetch(w, root, deps[k]).err.Some?
    && forall i :: 0 <= i < k ==> Fetch(w, root, deps[i]).err.None?
  }

  /** `download`: fetches the dependencies in order and stops at the first
      error, which it returns; later dependencies are never touched, and it
      never saves a snapshot. */
  function Download(w: World, root: string, deps: seq<Dependency>): (r: Effect)
    ensures forall c :: c in r.trace ==> !c.Save?
    ensures r.err.None? <==> forall i :: 0 <= i < |deps| ==> Fetch(w, root, deps[i]).err.None?
    ensures r.err.None? ==> r.trace == Calls(Fetches(w, root, deps))
    ensures r.err.Some? ==> exists k :: FailsFirstAt(w, root, deps, k)
                                        && r.err == Fetch(w, root, deps[k]).err
                                        && r.trace == Calls(Fetches(w, root, deps)[..k + 1])
  {
    SequencedFetches(w, root, deps);
    Sequence(Fetches(w, root, deps))
  }

  lemma SequencedFetches(w: World, root: string, deps: seq<Dependency>)
    ensures var r := Sequence(Fetches(w, root, deps));
            && (forall c :: c in r.trace ==> !c.Save?)
            && (r.err.Some? ==> exists k :: FailsFirstAt(w, root, deps, k)
                                            && r.err == Fetch(w, root, deps[k]).err
                                            && r.trace == Calls(Fetches(w, root, deps)[..k + 1]))
  {
    var steps := Fetches(w, root, deps);
    var r := Sequence(steps);
    forall c | c in r.trace ensures !c.Save? {
      if r.err.None? {
        CallsFromSteps(steps, c);
      } else {
        var k :| FirstFailure(steps, k) && r.trace == Calls(steps[..k + 1]);
        CallsFromSteps(steps[..k + 1], c);
        var i :| 0 <= i < k + 1 && c in steps[..k + 1][i].trace;
        assert steps[..k + 1][i] == steps[i];
      }
    }
    if r.err.Some? {
      var k :| FirstFailure(steps, k) && r.err == steps[k].err && r.trace == Calls(steps[..k + 1]);
      assert FailsFirstAt(w, root, deps, k);
    }
  }

  // ---------------------------------------------------------------------------
  // runGet
  // ---------------------------------------------------------------------------

  /** The hierarchy afterwards, the calls issued and the fatal error, if any. */
  datatype GetOutcome = GetOutcome(h: Hierarchy, trace: seq<Call>, err: Option<Error>)

  /** The second half of `runGet`: with nothing to fetch nothing happens;
      otherwise the top layer is updated first, a conflict stops everything,
      the dependencies are fetched under the top layer's directory, and the
      top layer is saved only if every fetch succeeded. */
  function Commit(h: Hierarchy, name: string, wanted: seq<Dependency>, w: World): (r: GetOutcome)
    requires |h.configs| > 0
    ensures |r.h.configs| == |h.configs| && r.h.configs[1..] == h.configs[1..]
    ensures |wanted| == 0 ==> r == GetOutcome(h, [], None)
    ensures |wanted| > 0 ==> r.h.configs[0] == Update(h.configs[0], name, wanted).cfg
    ensures |wanted| > 0 && Update(h.configs[0], name, wanted).conflict.Some? ==>
              r.trace == [] && r.err == Update(h.configs[0], name, wanted).conflict
    ensures |wanted| > 0 && Update(h.configs[0], name, wanted).conflict.None? ==>
              var top := h.configs[0];
              var fetched := Download(w, Dir(top.file), wanted);
              && fetched.trace <= r.trace
              && (fetched.err.Some? ==> r.trace == fetched.trace && r.err == fetched.err)
              && (fetched.err.None? ==> r.trace == fetched.trace + [Save(top.file)]
                                        && (r.err.None? <==> w.save(top.file)))
    ensures Save(h.configs[0].file) in r.trace <==>
              && |wanted| > 0
              && Update(h.configs[0], name, wanted).conflict.None?
              && Download(w, Dir(h.configs[0].file), wanted).err.None?
  {
    if |wanted| == 0 then GetOutcome(h, [], None)
    else
      var top := h.configs[0];
      var u := Update(top, name, wanted);
      var h' := Hierarchy([u.cfg] + h.configs[1..]);
      if u.conflict.Some? then GetOutcome(h', [], u.conflict)
      else
        var fetched := Download(w, Dir(top.file), wanted);
        if fetched.err.Some? then GetOutcome(h', fetched.trace, fetched.err)
        else
          GetOutcome(h', fetched.trace + [Save(top.file)],
                     if w.save(top.file) then None else Some(SaveFailed(top.file)))
  }

  /** `runGet`. The caller guarantees a top layer. */
  function RunGet(h: Hierarchy, args: seq<string>, exclude: Exclude, w: World): (r: GetOutcome)
    requires |h.configs| > 0
    ensures |r.h.configs| == |h.configs|
    ensures Plan(h, args, exclude, w).Err? ==>
              r == GetOutcome(h, [], Some(Plan(h, args, exclude, w).error))
    ensures Plan(h, args, exclude, w).Ok? ==>
              var req := Plan(h, args, exclude, w).value;
              r == Commit(h, req.name, req.wanted, w)
  {
    match Plan(h, args, exclude, w)
    case Err(e) => GetOutcome(h, [], Some(e))
    case Ok(req) => Commit(h, req.name, req.wanted, w)
  }

  /** After a successful `get`, every dependency the request declares is
      satisfied by some layer, unless the exclusion dropped it. */
  lemma GetSatisfiesRequest(h: Hierarchy, args: seq<string>, exclude: Exclude, w: World, d: Dependency)
    requires |h.configs| > 0
    requires |args| > 0 && w.load(args[0]).Loaded? && d in w.load(args[0]).deps
    requires !Excluded(exclude, d)
    ensures RunGet(h, args, exclude, w).err.None? ==> HierarchyContains(RunGet(h, args, exclude, w).h, d)
  {
    if RunGet(h, args, exclude, w).err.None? {
      var req := Plan(h, args, exclude, w).value;
      CommitSatisfies(h, req.name, req.wanted, w, d);
    }
  }

  /** A commit that succeeds leaves every dependency it was asked for, and
      every one some layer already had, contained in the hierarchy. */
  lemma CommitSatisfies(h: Hierarchy, name: string, wanted: seq<Dependency>, w: World, d: Dependency)
    requires |h.configs| > 0
    requires Commit(h, name, wanted, w).err.None?
    requires HierarchyContains(h, d) || d in wanted
    ensures HierarchyContains(Commit(h, name, wanted, w).h, d)
  {
    var r := Commit(h, name, wanted, w);
    if HierarchyContains(h, d) {
      var i :| 0 <= i < |h.configs| && Contains(h.configs[i], d);
      if i == 0 && |wanted| > 0 {
        UpdateKeepsContents(h.configs[0], name, wanted);
        assert Contains(r.h.configs[0], d);
      } else if i > 0 {
        assert r.h.configs[i] == r.h.configs[1..][i - 1] == h.configs[1..][i - 1] == h.configs[i];
      }
    } else {
      var u := Update(h.configs[0], name, wanted);
      UpdateContainsRequested(h.configs[0], name, wanted);
      var j :| 0 <= j < |wanted| && wanted[j] == d;
      assert Contains(u.cfg, wanted[j]);
    }
  }


  // ---------------------------------------------------------------------------
  // Two concrete runs
  // ---------------------------------------------------------------------------

  /** The example: layer `app` at revision 3 pins libA@v1. */
  const LibA := Dependency("libA", "v1", "https://x/libA")
  const LibB := Dependency("libB", "v2", "https://x/libB")
  const AppLayer := Config("app", 3, [LibA], map["libA" := LibA], "/ws/.gover.yaml")

  /** A request for libA@v1 and libB@v2 leaves only libB to fetch. */
  lemma ScenarioMissing()
    ensures Missing(Hierarchy([AppLayer]), [LibA, LibB]) == [LibB]
  {
    var h := Hierarchy([AppLayer]);
    assert HierarchyContains(h, LibA) by { assert Contains(h.configs[0], LibA); }
    assert !HierarchyContains(h, LibB) by { assert !Contains(h.configs[0], LibB); }
    var missing := Missing(h, [LibA, LibB]);
    assert multiset(missing) == multiset{LibB} by {
      assert multiset(missing)[LibB] == 1;
      assert multiset(missing)[LibA] == 0;
    }
    assert |missing| == 1;
    assert LibB in missing;
  }

  /** Merging libB into the layer bumps it to revision 4 with both
      dependencies, libA first. */
  lemma ScenarioUpdate()
    ensures var u := Update(AppLayer, "", [LibB]);
            u.conflict.None? && u.cfg.version == 4 && u.cfg.deps == [LibA, LibB]
  {
    assert Compatible(AppLayer.index, [LibB]) by {
      assert Agrees(AppLayer.index, [], LibB);
    }
    var u := Update(AppLayer, "", [LibB]);
    assert u.cfg.deps == [LibA] + Novel(AppLayer.index.Keys, [LibB]);
  }

  /** The whole example: only libB is fetched, and on success the layer is at
      revision 4 with two dependencies. */
  lemma ScenarioFetchesOnlyMissing()
    ensures var u := Update(AppLayer, "", Missing(Hierarchy([AppLayer]), [LibA, LibB]));
            u.conflict.None? && u.cfg.version == 4 && u.cfg.deps == [LibA, LibB]
  {
    ScenarioMissing();
    ScenarioUpdate();
  }

  /** A request for libA@v2 against the layer that pins libA@v1 is refused
      with a conflict naming both versions, and nothing is fetched or saved,
      whatever the outside world would have done. */
  lemma ScenarioConflictWritesNothing(w: World)
    ensures var r := Commit(Hierarchy([AppLayer]), "", [LibA.(version := "v2")], w);
            r.err == Some(Conflict("libA", "v1", "v2")) && r.trace == []
  {
    var libA2 := LibA.(version := "v2");
    var u := Update(AppLayer, "", [libA2]);
    UpdateReportsFirstConflict(AppLayer, "", [libA2]);
    assert IsFirstConflict(AppLayer.index, [libA2], 0);
    var k :| StoppedAt(AppLayer, [libA2], u, k);
  }
}
