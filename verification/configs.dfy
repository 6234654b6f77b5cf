/** The layered snapshot model of config.go: a snapshot file per GOPATH
    entry (`Config`) and the ordered hierarchy of them (`Hierarchy`), whose
    first layer is the writable top. */
module Configs {
  import opened Wrappers
  import opened Seqs
  import opened Effects

  /** One declared dependency: a package path, the ref to fetch, and its source. */
  datatype Dependency = Dependency(package: string, version: string, url: string)

  /** A snapshot. `version` is its revision counter; `index` maps a package to
      its dependency record and is derived from `deps`; `file` is where the
      snapshot was loaded from and is saved to. */
  datatype Config = Config(
    name: string,
    version: int,
    deps: seq<Dependency>,
    index: map<string, Dependency>,
    file: string)

  /** What reading and decoding a snapshot file produced. */
  datatype LoadOutcome =
    | Loaded(name: string, version: int, deps: seq<Dependency>)
    | LoadFailed(kind: LoadErrorKind)

  // ---------------------------------------------------------------------------
  // The index
  // ---------------------------------------------------------------------------

  function Keyed(deps: seq<Dependency>): (ps: seq<(string, Dependency)>)
    ensures |ps| == |deps|
    ensures forall i :: 0 <= i < |deps| ==> ps[i] == (deps[i].package, deps[i])
  {
    seq(|deps|, i requires 0 <= i < |deps| => (deps[i].package, deps[i]))
  }

  /** The index `rebuildIndex` derives from a dependency list. */
  function IndexOf(deps: seq<Dependency>): map<string, Dependency> {
    LastWins(Keyed(deps))
  }

  /** No later entry of `deps` declares the package of entry `i`. */
  ghost predicate IsLastFor(deps: seq<Dependency>, i: nat)
    requires i < |deps|
  {
    forall j :: i < j < |deps| ==> deps[j].package != deps[i].package
  }

  /** The index agrees with the dependency list. */
  ghost predicate Consistent(c: Config) {
    c.index == IndexOf(c.deps)
  }

  /** The index holds exactly the declared packages, each under its last
      declaration. */
  lemma IndexOfSpec(deps: seq<Dependency>)
    ensures forall p :: p in IndexOf(deps) <==> exists i :: 0 <= i < |deps| && deps[i].package == p
    ensures forall i :: 0 <= i < |deps| && IsLastFor(deps, i) ==>
              deps[i].package in IndexOf(deps) && IndexOf(deps)[deps[i].package] == deps[i]
  {
    var ps := Keyed(deps);
    forall i | 0 <= i < |deps| && IsLastFor(deps, i)
      ensures deps[i].package in IndexOf(deps) && IndexOf(deps)[deps[i].package] == deps[i]
    {
      LastWinsValue(ps, i);
    }
  }

  lemma IndexOfSnoc(deps: seq<Dependency>, d: Dependency)
    ensures IndexOf(deps + [d]) == IndexOf(deps)[d.package := d]
  {
    assert Keyed(deps + [d]) == Keyed(deps) + [(d.package, d)];
    LastWinsSnoc(Keyed(deps), d.package, d);
  }

  /** `config.rebuildIndex`: one pass over the dependencies, a later entry
      overwriting an earlier one for the same package. */
  method RebuildIndex(deps: seq<Dependency>) returns (index: map<string, Dependency>)
    ensures forall p :: p in index <==> exists i :: 0 <= i < |deps| && deps[i].package == p
    ensures forall i :: 0 <= i < |deps| && IsLastFor(deps, i) ==>
              deps[i].package in index && index[deps[i].package] == deps[i]
    ensures index == IndexOf(deps)
  {
    index := map[];
    for i := 0 to |deps|
      invariant index == IndexOf(deps[..i])
    {
      assert deps[..i + 1] == deps[..i] + [deps[i]];
      IndexOfSnoc(deps[..i], deps[i]);
      index := index[deps[i].package := deps[i]];
    }
    assert deps[..|deps|] == deps;
    IndexOfSpec(deps);
  }

  /** `config.Load`: a decoded file becomes a snapshot bound to `file` with its
      index rebuilt; any read or decoding failure is returned. */
  function Load(file: string, outcome: LoadOutcome): (r: Result<Config, Error>)
    ensures r.Err? <==> outcome.LoadFailed?
    ensures r.Err? ==> r.error == LoadError(file, outcome.kind)
    ensures r.Ok? ==>
              && r.value.name == outcome.name
              && r.value.version == outcome.version
              && r.value.deps == outcome.deps
              && r.value.file == file
              && Consistent(r.value)
    ensures r.Ok? ==> forall p :: p in r.value.index <==>
              exists i :: 0 <= i < |outcome.deps| && outcome.deps[i].package == p
    ensures r.Ok? ==> forall i :: 0 <= i < |outcome.deps| && IsLastFor(outcome.deps, i) ==>
              r.value.index[outcome.deps[i].package] == outcome.deps[i]
  {
    match outcome
    case LoadFailed(kind) => Err(LoadError(file, kind))
    case Loaded(name, version, deps) =>
      IndexOfSpec(deps);
      Ok(Config(name, version, deps, IndexOf(deps), file))
  }

  // ---------------------------------------------------------------------------
  // Containment
  // ---------------------------------------------------------------------------

  /** `config.Contains`: the package is indexed with the same version; the
      URL is never compared. */
  predicate Contains(c: Config, d: Dependency) {
    d.package in c.index && c.index[d.package].version == d.version
  }

  /** The position of the last declaration of package `p`. */
  function LastDeclaration(deps: seq<Dependency>, p: string): (i: nat)
    requires exists i :: 0 <= i < |deps| && deps[i].package == p
    ensures i < |deps| && deps[i].package == p && IsLastFor(deps, i)
  {
    var n := |deps| - 1;
    if deps[n].package == p then n
    else
      var k :| 0 <= k < |deps| && deps[k].package == p;
      assert deps[..n][k] == deps[k];
      var i := LastDeclaration(deps[..n], p);
      assert deps[..n][i] == deps[i];
      i
  }

  /** For a consistent snapshot, containing a dependency means that the last
      declaration of its package carries its version. */
  lemma ContainsDeclared(c: Config, d: Dependency)
    requires Consistent(c)
    ensures Contains(c, d) <==>
              exists i :: 0 <= i < |c.deps| && IsLastFor(c.deps, i)
                          && c.deps[i].package == d.package && c.deps[i].version == d.version
  {
    IndexOfSpec(c.deps);
    if Contains(c, d) {
      var i := LastDeclaration(c.deps, d.package);
      assert c.index[d.package] == c.deps[i];
    }
  }

  // ---------------------------------------------------------------------------
  // Update
  // ---------------------------------------------------------------------------

  /** The snapshot after an `Update` call and the conflict it stopped at, if any. */
  datatype Merge = Merge(cfg: Config, conflict: Option<Error>)

  /** The index after `Update` has accepted `d`: a known package is left alone. */
  function Step(index: map<string, Dependency>, d: Dependency): map<string, Dependency> {
    if d.package in index then index else index[d.package := d]
  }

  /** `d` may follow `earlier` in one `Update` call on a snapshot indexed by
      `index`: neither the index nor an earlier candidate gives its package a
      different version. */
  ghost predicate Agrees(index: map<string, Dependency>, earlier: seq<Dependency>, d: Dependency) {
    && (d.package in index ==> index[d.package].version == d.version)
    && (forall i :: 0 <= i < |earlier| && earlier[i].package == d.package ==> earlier[i].version == d.version)
  }

  /** No candidate of `deps` conflicts with the index or an earlier candidate. */
  ghost predicate Compatible(index: map<string, Dependency>, deps: seq<Dependency>) {
    forall j :: 0 <= j < |deps| ==> Agrees(index, deps[..j], deps[j])
  }

  /** Candidate `k` is the first one that conflicts. */
  ghost predicate IsFirstConflict(index: map<string, Dependency>, deps: seq<Dependency>, k: int) {
    0 <= k < |deps| && Compatible(index, deps[..k]) && !Agrees(index, deps[..k], deps[k])
  }

  /** The candidates `Update` appends: those whose package is neither in
      `known` nor taken by an earlier candidate, in input order. */
  function Novel(known: set<string>, deps: seq<Dependency>): seq<Dependency>
    decreases |deps|
  {
    if |deps| == 0 then []
    else if deps[0].package in known then Novel(known, deps[1..])
    else [deps[0]] + Novel(known + {deps[0].package}, deps[1..])
  }

  /** The snapshot after one candidate that does not conflict with it. */
  function MergeStep(c: Config, d: Dependency): (c': Config)
    requires d.package in c.index ==> c.index[d.package].version == d.version
    ensures c'.index == Step(c.index, d) && c'.index.Keys == c.index.Keys + {d.package}
    ensures c'.deps == c.deps + Novel(c.index.Keys, [d])
    ensures Contains(c', d)
  {
    if d.package in c.index then c
    else c.(index := c.index[d.package := d], deps := c.deps + [d])
  }

  /** The loop of `Update`: candidates are merged one at a time, a known
      package with the same version is skipped, and the first package known
      under another version stops the loop with what was merged so far. */
  function MergeDeps(c: Config, deps: seq<Dependency>): (r: Merge)
    ensures r.cfg.name == c.name && r.cfg.version == c.version && r.cfg.file == c.file
    ensures c.deps <= r.cfg.deps
    decreases |deps|
  {
    if |deps| == 0 then Merge(c, None)
    else
      var d := deps[0];
      if d.package in c.index && c.index[d.package].version != d.version then
        Merge(c, Some(Conflict(d.package, c.index[d.package].version, d.version)))
      else
        var c' := MergeStep(c, d);
        var r := MergeDeps(c', deps[1..]);
        assert c.deps <= c'.deps <= r.cfg.deps;
        r
  }

  /** Merging never drops or changes a contained dependency. */
  lemma {:induction false} MergeKeepsContained(c: Config, deps: seq<Dependency>, x: Dependency)
    requires Contains(c, x)
    ensures Contains(MergeDeps(c, deps).cfg, x)
    decreases |deps|
  {
    if |deps| > 0 {
      var d := deps[0];
      if !(d.package in c.index && c.index[d.package].version != d.version) {
        MergeKeepsContained(MergeStep(c, d), deps[1..], x);
      }
    }
  }

  lemma MergeKeepsAllContained(c: Config, deps: seq<Dependency>)
    ensures forall x :: Contains(c, x) ==> Contains(MergeDeps(c, deps).cfg, x)
  {
    forall x | Contains(c, x) ensures Contains(MergeDeps(c, deps).cfg, x) {
      MergeKeepsContained(c, deps, x);
    }
  }

  /** Merging keeps the index consistent with the dependency list. */
  lemma {:induction false} MergeKeepsConsistent(c: Config, deps: seq<Dependency>)
    ensures Consistent(c) ==> Consistent(MergeDeps(c, deps).cfg)
    decreases |deps|
  {
    if |deps| > 0 && Consistent(c) {
      var d := deps[0];
      if !(d.package in c.index && c.index[d.package].version != d.version) {
        IndexOfSnoc(c.deps, d);
        MergeKeepsConsistent(MergeStep(c, d), deps[1..]);
      }
    }
  }

  lemma AgreesShift(index: map<string, Dependency>, d0: Dependency, earlier: seq<Dependency>, d: Dependency)
    requires Agrees(index, [], d0)
    ensures Agrees(index, [d0] + earlier, d) <==> Agrees(Step(index, d0), earlier, d)
  {
    var all := [d0] + earlier;
    assert all[0] == d0;
    assert forall i :: 0 <= i < |earlier| ==> all[i + 1] == earlier[i];
    if Agrees(Step(index, d0), earlier, d) {
      forall i | 0 <= i < |all| && all[i].package == d.package
        ensures all[i].version == d.version
      {
        if i > 0 {
          assert all[i] == earlier[i - 1];
        }
      }
    }
  }

  lemma CompatibleCons(index: map<string, Dependency>, deps: seq<Dependency>)
    requires |deps| > 0
    ensures Compatible(index, deps) <==>
              Agrees(index, [], deps[0]) && Compatible(Step(index, deps[0]), deps[1..])
  {
    var d0, rest := deps[0], deps[1..];
    assert deps[..0] == [];
    if Agrees(index, [], d0) {
      forall j | 0 <= j < |rest|
        ensures Agrees(index, deps[..j + 1], deps[j + 1]) <==> Agrees(Step(index, d0), rest[..j], rest[j])
      {
        assert deps[..j + 1] == [d0] + rest[..j];
        AgreesShift(index, d0, rest[..j], rest[j]);
      }
      if Compatible(Step(index, d0), rest) {
        forall j | 0 <= j < |deps|
          ensures Agrees(index, deps[..j], deps[j])
        {
          if j > 0 {
            assert Agrees(Step(index, d0), rest[..j - 1], rest[j - 1]);
          }
        }
      }
      if Compatible(index, deps) {
        forall j | 0 <= j < |rest|
          ensures Agrees(Step(index, d0), rest[..j], rest[j])
        {
          assert Agrees(index, deps[..j + 1], deps[j + 1]);
        }
      }
    }
  }

  lemma FirstConflictShift(index: map<string, Dependency>, deps: seq<Dependency>, k: nat)
    requires |deps| > 0 && Agrees(index, [], deps[0])
    requires IsFirstConflict(Step(index, deps[0]), deps[1..], k)
    ensures IsFirstConflict(index, deps, k + 1)
  {
    var d, rest := deps[0], deps[1..];
    var pre := deps[..k + 1];
    assert pre[0] == d && pre[1..] == rest[..k];
    CompatibleCons(index, pre);
    assert pre == [d] + rest[..k];
    AgreesShift(index, d, rest[..k], rest[k]);
  }

  /** The merge loop finishes without a conflict exactly when the candidates
      are compatible with the snapshot and with each other. */
  lemma {:induction false} MergeSucceedsIff(c: Config, deps: seq<Dependency>)
    ensures MergeDeps(c, deps).conflict.None? <==> Compatible(c.index, deps)
    decreases |deps|
  {
    if |deps| > 0 {
      var d := deps[0];
      CompatibleCons(c.index, deps);
      assert deps[..0] == [];
      if !(d.package in c.index && c.index[d.package].version != d.version) {
        MergeSucceedsIff(MergeStep(c, d), deps[1..]);
      }
    }
  }

  /** A conflict-free merge appends exactly the novel candidates, in order,
      and afterwards every candidate is contained. */
  lemma {:induction false} MergeAppendsNovel(c: Config, deps: seq<Dependency>)
    ensures var r := MergeDeps(c, deps);
      r.conflict.None? ==>
        && r.cfg.deps == c.deps + Novel(c.index.Keys, deps)
        && forall i :: 0 <= i < |deps| ==> Contains(r.cfg, deps[i])
    decreases |deps|
  {
    var r := MergeDeps(c, deps);
    if |deps| > 0 && r.conflict.None? {
      var d, rest := deps[0], deps[1..];
      var c' := MergeStep(c, d);
      assert r == MergeDeps(c', rest);
      MergeAppendsNovel(c', rest);
      MergeKeepsContained(c', rest, d);
      assert Novel(c.index.Keys, deps) == Novel(c.index.Keys, [d]) + Novel(c'.index.Keys, rest);
      assert r.cfg.deps == c.deps + (Novel(c.index.Keys, [d]) + Novel(c'.index.Keys, rest));
      forall i | 0 <= i < |deps| ensures Contains(r.cfg, deps[i]) {
        if i > 0 { assert deps[i] == rest[i - 1]; }
      }
    }
  }

  /** `r` stopped at candidate `k`, the first conflicting one: it reports
      the package, the version already indexed and the requested version,
      and everything before `k` is merged. */
  ghost predicate StoppedAt(c: Config, deps: seq<Dependency>, r: Merge, k: int) {
    && IsFirstConflict(c.index, deps, k)
    && deps[k].package in r.cfg.index
    && r.cfg.index[deps[k].package].version != deps[k].version
    && r.conflict == Some(Conflict(deps[k].package, r.cfg.index[deps[k].package].version, deps[k].version))
    && r.cfg.deps == c.deps + Novel(c.index.Keys, deps[..k])
    && (forall i :: 0 <= i < k ==> Contains(r.cfg, deps[i]))
  }

  /** A merge that stops reports its first conflicting candidate and keeps
      everything before it merged. */
  lemma {:induction false} MergeReportsFirstConflict(c: Config, deps: seq<Dependency>)
    ensures MergeDeps(c, deps).conflict.Some? ==> exists k :: StoppedAt(c, deps, MergeDeps(c, deps), k)
    decreases |deps|
  {
    var r := MergeDeps(c, deps);
    if |deps| > 0 && r.conflict.Some? {
      var d, rest := deps[0], deps[1..];
      if d.package in c.index && c.index[d.package].version != d.version {
        assert deps[..0] == [];
        assert StoppedAt(c, deps, r, 0);
      } else {
        var c' := MergeStep(c, d);
        assert r == MergeDeps(c', rest);
        MergeReportsFirstConflict(c', rest);
        var k' :| StoppedAt(c', rest, r, k');
        MergeKeepsContained(c', rest, d);
        ConflictShift(c, c', deps, r, k');
      }
    }
  }

  lemma NovelCons(known: set<string>, d: Dependency, s: seq<Dependency>)
    ensures Novel(known, [d] + s) == Novel(known, [d]) + Novel(known + {d.package}, s)
  {
    assert ([d] + s)[1..] == s;
    assert [d][1..] == [];
    if d.package in known {
      assert known + {d.package} == known;
    }
  }

  lemma ConflictShift(c: Config, c': Config, deps: seq<Dependency>, r: Merge, k': nat)
    requires |deps| > 0 && Agrees(c.index, [], deps[0])
    requires c'.index == Step(c.index, deps[0]) && c'.index.Keys == c.index.Keys + {deps[0].package}
    requires c'.deps == c.deps + Novel(c.index.Keys, [deps[0]])
    requires Contains(r.cfg, deps[0])
    requires StoppedAt(c', deps[1..], r, k')
    ensures StoppedAt(c, deps, r, k' + 1)
  {
    var d, rest := deps[0], deps[1..];
    var k := k' + 1;
    FirstConflictShift(c.index, deps, k');
    assert deps[k] == rest[k'];
    assert deps[..k] == [d] + rest[..k'];
    NovelCons(c.index.Keys, d, rest[..k']);
    assert deps == [d] + rest;
    ContainedCons(r.cfg, d, rest, k');
  }

  lemma ContainedCons(cfg: Config, d: Dependency, rest: seq<Dependency>, n: nat)
    requires n <= |rest| && Contains(cfg, d)
    requires forall i :: 0 <= i < n ==> Contains(cfg, rest[i])
    ensures forall i :: 0 <= i < n + 1 ==> Contains(cfg, ([d] + rest)[i])
  {
    forall i | 0 <= i < n + 1 ensures Contains(cfg, ([d] + rest)[i]) {
      if i > 0 {
        assert ([d] + rest)[i] == rest[i - 1];
      }
    }
  }

  /** `config.Update`. A conflict-free call appends the novel candidates,
      keeps every earlier record, bumps the revision by one (even when
      nothing was added) and fills in an empty name. A conflicting call
      leaves the name and revision alone; what it reports and keeps is
      `UpdateReportsFirstConflict`. */
  function Update(c: Config, name: string, deps: seq<Dependency>): (r: Merge)
    ensures r.cfg.file == c.file
    ensures c.deps <= r.cfg.deps
    ensures r.conflict.None? <==> Compatible(c.index, deps)
    ensures r.conflict.None? ==>
              && r.cfg.version == c.version + 1
              && r.cfg.name == (if c.name == "" then name else c.name)
              && r.cfg.deps == c.deps + Novel(c.index.Keys, deps)
    ensures r.conflict.Some? ==> r.cfg.version == c.version && r.cfg.name == c.name
  {
    var m := MergeDeps(c, deps);
    MergeSucceedsIff(c, deps);
    MergeAppendsNovel(c, deps);
    if m.conflict.Some? then m
    else
      Merge(m.cfg.(name := if m.cfg.name == "" then name else m.cfg.name,
                   version := m.cfg.version + 1), None)
  }

  /** `Update` never drops or changes what the snapshot already contained,
      and keeps its index in step with its records. */
  lemma UpdateKeepsContents(c: Config, name: string, deps: seq<Dependency>)
    ensures var r := Update(c, name, deps);
            && (Consistent(c) ==> Consistent(r.cfg))
            && forall d :: Contains(c, d) ==> Contains(r.cfg, d)
  {
    MergeKeepsConsistent(c, deps);
    MergeKeepsAllContained(c, deps);
  }

  /** After a conflict-free `Update` the snapshot contains every candidate. */
  lemma UpdateContainsRequested(c: Config, name: string, deps: seq<Dependency>)
    ensures var r := Update(c, name, deps);
            r.conflict.None? ==> forall i :: 0 <= i < |deps| ==> Contains(r.cfg, deps[i])
  {
    MergeAppendsNovel(c, deps);
  }

  /** A conflicting `Update` reports the first conflicting candidate, with the
      version already held and the version requested, and keeps every
      candidate before it merged. */
  lemma UpdateReportsFirstConflict(c: Config, name: string, deps: seq<Dependency>)
    ensures var r := Update(c, name, deps);
            r.conflict.Some? ==> exists k :: StoppedAt(c, deps, r, k)
  {
    MergeReportsFirstConflict(c, deps);
  }

  lemma {:induction false} MergeKnownIsNoop(c: Config, deps: seq<Dependency>)
    requires forall i :: 0 <= i < |deps| ==> Contains(c, deps[i])
    ensures MergeDeps(c, deps) == Merge(c, None)
  {
    if |deps| > 0 {
      assert Contains(c, deps[0]);
      assert forall i :: 0 <= i < |deps[1..]| ==> deps[1..][i] == deps[i + 1];
      MergeKnownIsNoop(c, deps[1..]);
    }
  }

  /** Re-merging dependencies that are all already contained adds nothing and
      changes no record, yet still bumps the revision. */
  lemma UpdateKnownIsNoop(c: Config, name: string, deps: seq<Dependency>)
    requires forall i :: 0 <= i < |deps| ==> Contains(c, deps[i])
    ensures var r := Update(c, name, deps);
      && r.conflict.None?
      && r.cfg.deps == c.deps
      && r.cfg.index == c.index
      && r.cfg.version == c.version + 1
  {
    MergeKnownIsNoop(c, deps);
  }

  /** No two records declare the same package. */
  ghost predicate UniquePackages(deps: seq<Dependency>) {
    forall i, j :: 0 <= i < j < |deps| ==> deps[i].package != deps[j].package
  }

  /** The appended candidates are new to `known` and to each other. */
  lemma {:induction false} NovelIsFresh(known: set<string>, deps: seq<Dependency>)
    ensures forall i :: 0 <= i < |Novel(known, deps)| ==> Novel(known, deps)[i].package !in known
    ensures UniquePackages(Novel(known, deps))
    decreases |deps|
  {
    if |deps| > 0 {
      var d, rest := deps[0], deps[1..];
      if d.package in known {
        NovelIsFresh(known, rest);
      } else {
        NovelIsFresh(known + {d.package}, rest);
        var tail := Novel(known + {d.package}, rest);
        assert Novel(known, deps) == [d] + tail;
        assert forall i :: 0 < i < |[d] + tail| ==> ([d] + tail)[i] == tail[i - 1];
      }
    }
  }

  lemma UniqueConcat(a: seq<Dependency>, b: seq<Dependency>)
    requires UniquePackages(a) && UniquePackages(b)
    requires forall i, j :: 0 <= i < |a| && 0 <= j < |b| ==> a[i].package != b[j].package
    ensures UniquePackages(a + b)
  {
    forall i, j | 0 <= i < j < |a + b| ensures (a + b)[i].package != (a + b)[j].package {
      if j >= |a| && i >= |a| {
        assert (a + b)[i] == b[i - |a|] && (a + b)[j] == b[j - |a|];
      }
    }
  }

  /** Starting from a snapshot without duplicate packages, `Update` — even a
      conflicting one — never introduces a duplicate: a known package is
      skipped or reported, never appended twice. */
  lemma UpdateKeepsPackagesUnique(c: Config, name: string, deps: seq<Dependency>)
    requires Consistent(c) && UniquePackages(c.deps)
    ensures UniquePackages(Update(c, name, deps).cfg.deps)
  {
    var r := Update(c, name, deps);
    UpdateReportsFirstConflict(c, name, deps);
    IndexOfSpec(c.deps);
    var added: seq<Dependency>;
    if r.conflict.None? {
      added := Novel(c.index.Keys, deps);
      NovelIsFresh(c.index.Keys, deps);
    } else {
      var k :| StoppedAt(c, deps, r, k);
      added := Novel(c.index.Keys, deps[..k]);
      NovelIsFresh(c.index.Keys, deps[..k]);
    }
    assert r.cfg.deps == c.deps + added;
    UniqueConcat(c.deps, added);
  }

  // ---------------------------------------------------------------------------
  // The hierarchy
  // ---------------------------------------------------------------------------

  /** The snapshots along GOPATH; the first is the writable top. */
  datatype Hierarchy = Hierarchy(configs: seq<Config>)

  /** `configsHierarchy.Top`. */
  function Top(h: Hierarchy): (r: Option<Config>)
    ensures r.None? <==> |h.configs| == 0
    ensures r.Some? ==> r.value == h.configs[0]
  {
    if |h.configs| > 0 then Some(h.configs[0]) else None
  }

  /** The layer appended for a first file that could not be loaded. */
  function EmptyLayer(file: string): Config {
    Config("", 0, [], map[], file)
  }

  /** The hierarchy after `Append` and the error it returned. */
  datatype Appended = Appended(h: Hierarchy, err: Option<Error>)

  /** `configsHierarchy.Append`: a permission failure, or any failure once a
      layer exists, is returned and nothing is appended; otherwise one layer
      bound to `file` is appended — the loaded snapshot, or an empty one if
      the first file could not be loaded. */
  function Append(h: Hierarchy, file: string, outcome: LoadOutcome): (r: Appended)
    ensures r.err.Some? <==> outcome.LoadFailed? && (outcome.kind == Permission || |h.configs| > 0)
    ensures r.err.Some? ==> r.h == h && r.err.value == LoadError(file, outcome.kind)
    ensures r.err.None? ==> |r.h.configs| == |h.configs| + 1 && h.configs <= r.h.configs
    ensures r.err.None? ==> r.h.configs[|h.configs|].file == file && Consistent(r.h.configs[|h.configs|])
    ensures r.err.None? && outcome.Loaded? ==>
              var layer := r.h.configs[|h.configs|];
              layer.name == outcome.name && layer.version == outcome.version && layer.deps == outcome.deps
    ensures r.err.None? && outcome.LoadFailed? ==> |h.configs| == 0 && r.h.configs == [EmptyLayer(file)]
    ensures |h.configs| > 0 ==> Top(r.h) == Top(h)
  {
    match Load(file, outcome)
    case Err(e) =>
      if outcome.kind == Permission || |h.configs| > 0 then Appended(h, Some(e))
      else Appended(Hierarchy(h.configs + [EmptyLayer(file)]), None)
    case Ok(cfg) => Appended(Hierarchy(h.configs + [cfg]), None)
  }

  /** `configsHierarchy.Contains`: some layer contains the dependency. */
  function HierarchyContains(h: Hierarchy, d: Dependency): (b: bool)
    ensures b <==> exists i :: 0 <= i < |h.configs| && Contains(h.configs[i], d)
    decreases |h.configs|
  {
    if |h.configs| == 0 then false
    else Contains(h.configs[0], d) || HierarchyContains(Hierarchy(h.configs[1..]), d)
  }
}
