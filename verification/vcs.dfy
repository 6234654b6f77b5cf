/** vcs.go: how a version control tool is driven through command templates.
    Running a process is left to the `Host` oracle; what the model keeps is
    which commands are run, where, with which arguments, and in what order. */
module Vcs {
  import opened Wrappers
  import opened Seqs
  import opened Text
  import opened Effects

  /** `vcsCmd`: a tool's display name, its binary, and the templates for a
      fresh clone, for fetching updates and for checking out a commit. */
  datatype VcsCmd = VcsCmd(
    name: string,
    cmd: string,
    createCmd: string,
    downloadCmd: string,
    checkoutCmd: string)

  const Git: VcsCmd := VcsCmd("Git", "git", "clone {repo} {dir} -b {branch}", "fetch", "checkout {commit}")

  /** `vcsList`: the registered tools. */
  const Registered: seq<VcsCmd> := [Git]

  /** The reserved prefix that marks a version as an exact commit. */
  const ShaPrefix: string := "sha:"

  /** The parts of the outside world a command run depends on: the `expand`
      substitution of vcs.go:111 (not part of this model), whether the binary
      is on PATH (`exec.LookPath`), and whether running `bin args` in `dir`
      exits successfully. */
  datatype Host = Host(
    expand: (map<string, string>, string) -> string,
    lookPath: string -> bool,
    exec: (string, string, seq<string>) -> bool)

  /** `vcsByCmd`: the first registered tool whose binary is `cmd`. */
  function VcsByCmd(cmd: string): (r: Option<VcsCmd>)
    ensures r.Some? ==> r.value in Registered && r.value.cmd == cmd
    ensures r.None? <==> forall i :: 0 <= i < |Registered| ==> Registered[i].cmd != cmd
    ensures r == if cmd == "git" then Some(Git) else None
  {
    match FirstIndex(Registered, (v: VcsCmd) => v.cmd == cmd)
    case None => None
    case Some(i) => Some(Registered[i])
  }

  /** `getVcsByUrl`: every URL is served by Git, a registered tool. */
  function VcsByUrl(url: string): (r: VcsCmd)
    ensures r == Git
    ensures r in Registered && VcsByCmd(r.cmd) == Some(r)
  {
    Git
  }

  // ---------------------------------------------------------------------------
  // Rendering a command line
  // ---------------------------------------------------------------------------

  /** The `keyval` list read as (key, value) pairs. */
  function Pairs(keyval: seq<string>): (ps: seq<(string, string)>)
    requires |keyval| % 2 == 0
    ensures |ps| * 2 == |keyval|
  {
    if |keyval| == 0 then [] else [(keyval[0], keyval[1])] + Pairs(keyval[2..])
  }

  /** The substitution map `run1` builds from its key/value arguments. */
  function KeyValMap(keyval: seq<string>): map<string, string>
    requires |keyval| % 2 == 0
  {
    LastWins(Pairs(keyval))
  }

  lemma {:induction false} PairsSnoc(keyval: seq<string>, k: string, v: string)
    requires |keyval| % 2 == 0
    ensures Pairs(keyval + [k, v]) == Pairs(keyval) + [(k, v)]
  {
    if |keyval| == 0 {
      assert keyval + [k, v] == [k, v];
    } else {
      assert (keyval + [k, v])[2..] == keyval[2..] + [k, v];
      PairsSnoc(keyval[2..], k, v);
    }
  }

  /** A later pair overrides an earlier one with the same key, and only that key. */
  lemma KeyValLaterWins(keyval: seq<string>, k: string, v: string)
    requires |keyval| % 2 == 0
    ensures KeyValMap(keyval + [k, v]) == KeyValMap(keyval)[k := v]
  {
    PairsSnoc(keyval, k, v);
    LastWinsSnoc(Pairs(keyval), k, v);
  }

  /** The argument vector for `cmdline`: the template is split into fields
      first and each field is expanded on its own, so a substituted value
      never adds or merges arguments. */
  function Render(expand: (map<string, string>, string) -> string, m: map<string, string>, cmdline: string): (args: seq<string>)
    ensures |args| == |Fields(cmdline)|
    ensures forall i :: 0 <= i < |args| ==> args[i] == expand(m, Fields(cmdline)[i])
  {
    var fields := Fields(cmdline);
    seq(|fields|, i requires 0 <= i < |fields| => expand(m, fields[i]))
  }

  /** `vcsCmd.run1`: a missing binary is reported before anything runs;
      otherwise the rendered command runs once in `dir`. */
  function Run1(v: VcsCmd, host: Host, dir: string, cmdline: string, keyval: seq<string>): (r: Effect)
    requires |keyval| % 2 == 0
    ensures forall c :: c in r.trace ==> c.Exec?
    ensures !host.lookPath(v.cmd) ==> r.trace == [] && r.err == Some(ToolMissing(v.cmd))
    ensures host.lookPath(v.cmd) ==>
              && r.trace == [Exec(dir, v.cmd, Render(host.expand, KeyValMap(keyval), cmdline))]
              && (r.err.None? <==> host.exec(dir, v.cmd, r.trace[0].args))
  {
    var args := Render(host.expand, KeyValMap(keyval), cmdline);
    if !host.lookPath(v.cmd) then Effect([], Some(ToolMissing(v.cmd)))
    else if host.exec(dir, v.cmd, args) then Effect([Exec(dir, v.cmd, args)], None)
    else Effect([Exec(dir, v.cmd, args)], Some(CommandFailed(dir, v.cmd, args)))
  }

  // ---------------------------------------------------------------------------
  // Operations
  // ---------------------------------------------------------------------------

  /** The branch to clone and the commit to check out for a version: a
      `sha:` version names a commit on `master`, anything else a branch. */
  function SplitRef(version: string): (r: (string, string))
    ensures ShaPrefix <= version ==> r.0 == "master" && version == ShaPrefix + r.1
    ensures !(ShaPrefix <= version) ==> r.0 == version && r.1 == ""
  {
    if ShaPrefix <= version then ("master", version[|ShaPrefix|..]) else (version, "")
  }

  /** The arguments of the clone step of `create`. */
  function CloneArgs(v: VcsCmd, host: Host, dir: string, repo: string, version: string): seq<string> {
    Render(host.expand, KeyValMap(["dir", dir, "repo", repo, "branch", SplitRef(version).0]), v.createCmd)
  }

  /** The arguments of the checkout step of `create`. */
  function CommitArgs(v: VcsCmd, host: Host, version: string): seq<string> {
    Render(host.expand, KeyValMap(["commit", SplitRef(version).1]), v.checkoutCmd)
  }

  /** `vcsCmd.create`: clone in ".", then, only if that worked and the
      version named a commit, check the commit out inside the clone. */
  function Create(v: VcsCmd, host: Host, dir: string, repo: string, version: string): (r: Effect)
    ensures forall c :: c in r.trace ==> c.Exec?
    ensures !host.lookPath(v.cmd) ==> r == Effect([], Some(ToolMissing(v.cmd)))
    ensures host.lookPath(v.cmd) ==> 1 <= |r.trace| <= 2
                                     && r.trace[0] == Exec(".", v.cmd, CloneArgs(v, host, dir, repo, version))
    ensures host.lookPath(v.cmd) && !host.exec(".", v.cmd, CloneArgs(v, host, dir, repo, version)) ==>
              r.trace == [r.trace[0]] && r.err == Some(CommandFailed(".", v.cmd, CloneArgs(v, host, dir, repo, version)))
    ensures |r.trace| == 2 <==>
              host.lookPath(v.cmd) && host.exec(".", v.cmd, CloneArgs(v, host, dir, repo, version))
              && SplitRef(version).1 != ""
    ensures |r.trace| == 2 ==> r.trace[1] == Exec(dir, v.cmd, CommitArgs(v, host, version))
    ensures r.err.None? <==>
              && host.lookPath(v.cmd)
              && host.exec(".", v.cmd, CloneArgs(v, host, dir, repo, version))
              && (SplitRef(version).1 == "" || host.exec(dir, v.cmd, CommitArgs(v, host, version)))
  {
    var ref := SplitRef(version);
    var clone := Run1(v, host, ".", v.createCmd, ["dir", dir, "repo", repo, "branch", ref.0]);
    if clone.err.Some? || ref.1 == "" then clone
    else Then(clone, Run1(v, host, dir, v.checkoutCmd, ["commit", ref.1]))
  }

  /** `vcsCmd.download`: the fetch template run in `dir` with no substitutions. */
  function Download(v: VcsCmd, host: Host, dir: string): (r: Effect)
    ensures |r.trace| <= 1
    ensures forall c :: c in r.trace ==> c == Exec(dir, v.cmd, Render(host.expand, map[], v.downloadCmd))
    ensures r.err.None? ==> |r.trace| == 1
    ensures host.lookPath(v.cmd) ==> |r.trace| == 1
    ensures r.err.None? <==>
              host.lookPath(v.cmd) && host.exec(dir, v.cmd, Render(host.expand, map[], v.downloadCmd))
    ensures !host.lookPath(v.cmd) ==> r.err == Some(ToolMissing(v.cmd))
  {
    Run1(v, host, dir, v.downloadCmd, [])
  }

  // ---------------------------------------------------------------------------
  // Git's templates
  // ---------------------------------------------------------------------------

  /** An `expand` that replaces a whole `{key}` token by the key's value and
      leaves brace-free tokens alone — the job vcs.go:111 gives it. */
  ghost predicate SubstitutesTokens(expand: (map<string, string>, string) -> string, m: map<string, string>) {
    && (forall k :: k in m ==> expand(m, Placeholder(k)) == m[k])
    && (forall t :: '{' !in t ==> expand(m, t) == t)
  }

  /** The token `{key}` that `expand` replaces by the value of `key`. */
  function Placeholder(key: string): string {
    "{" + key + "}"
  }

  lemma ClonePlaceholders()
    ensures Placeholder("repo") == CloneTokens[1]
    ensures Placeholder("dir") == CloneTokens[2]
    ensures Placeholder("branch") == CloneTokens[4]
    ensures '{' !in CloneTokens[0] && '{' !in CloneTokens[3]
  {
  }

  const CloneTokens: seq<string> := ["clone", "{repo}", "{dir}", "-b", "{branch}"]

  lemma JoinFive(a: string, b: string, c: string, d: string, e: string)
    ensures JoinSpace([a, b, c, d, e]) == a + " " + b + " " + c + " " + d + " " + e
  {
    var ws := [a, b, c, d, e];
    assert ws[1..] == [b, c, d, e] && ws[1..][1..] == [c, d, e];
    assert ws[1..][1..][1..] == [d, e] && ws[1..][1..][1..][1..] == [e];
    JoinTwo(d, e);
    assert JoinSpace([c, d, e]) == c + " " + (d + " " + e);
    assert JoinSpace([b, c, d, e]) == b + " " + (c + " " + (d + " " + e));
    assert JoinSpace(ws) == a + " " + (b + " " + (c + " " + (d + " " + e)));
  }

  lemma JoinTwo(a: string, b: string)
    ensures JoinSpace([a, b]) == a + " " + b
  {
    assert [a, b][1..] == [b];
  }

  lemma CloneTokensJoin()
    ensures JoinSpace(CloneTokens) == Git.createCmd
  {
    JoinFive("clone", "{repo}", "{dir}", "-b", "{branch}");
  }

  lemma CloneTokensAreWords()
    ensures forall i :: 0 <= i < |CloneTokens| ==> IsWord(CloneTokens[i])
  {
    assert IsWord("clone");
    assert IsWord("{repo}");
    assert IsWord("{dir}");
    assert IsWord("-b");
    assert IsWord("{branch}");
  }

  /** Git's clone template splits into the five expected tokens. */
  lemma GitCreateFields()
    ensures Fields(Git.createCmd) == CloneTokens
  {
    CloneTokensJoin();
    CloneTokensAreWords();
    FieldsOfJoin(CloneTokens);
  }

  /** Git's fetch template is the single token `fetch`. */
  lemma GitFetchFields()
    ensures Fields(Git.downloadCmd) == ["fetch"]
  {
    assert IsWord("fetch");
    FieldsOfJoin(["fetch"]);
  }

  /** Git's checkout template splits into `checkout` and `{commit}`. */
  lemma GitCheckoutFields()
    ensures Fields(Git.checkoutCmd) == ["checkout", "{commit}"]
  {
    var words := ["checkout", "{commit}"];
    JoinTwo(words[0], words[1]);
    assert JoinSpace(words) == Git.checkoutCmd;
    assert IsWord(words[0]) && IsWord(words[1]);
    FieldsOfJoin(words);
  }

  /** With Git, the clone step runs `git clone <repo> <dir> -b <branch>` with
      exactly five arguments, whatever white space the values contain; a
      `sha:` version clones `master`. */
  lemma GitCloneArgs(host: Host, dir: string, repo: string, version: string)
    requires SubstitutesTokens(host.expand, KeyValMap(["dir", dir, "repo", repo, "branch", SplitRef(version).0]))
    ensures CloneArgs(Git, host, dir, repo, version) == ["clone", repo, dir, "-b", SplitRef(version).0]
  {
    var branch := SplitRef(version).0;
    var m := KeyValMap(["dir", dir, "repo", repo, "branch", branch]);
    CloneArgsShape(host, dir, repo, version);
    CloneKeyValMap(dir, repo, branch);
    ExpandCloneTokens(host.expand, m, dir, repo, branch);
  }

  lemma CloneArgsShape(host: Host, dir: string, repo: string, version: string)
    ensures var m := KeyValMap(["dir", dir, "repo", repo, "branch", SplitRef(version).0]);
      CloneArgs(Git, host, dir, repo, version) == seq(5, i requires 0 <= i < 5 => host.expand(m, CloneTokens[i]))
  {
    GitCreateFields();
  }

  lemma ExpandCloneTokens(expand: (map<string, string>, string) -> string, m: map<string, string>,
                          dir: string, repo: string, branch: string)
    requires m == map["dir" := dir, "repo" := repo, "branch" := branch]
    requires SubstitutesTokens(expand, m)
    ensures seq(5, i requires 0 <= i < 5 => expand(m, CloneTokens[i])) == ["clone", repo, dir, "-b", branch]
  {
    ClonePlaceholders();
    assert expand(m, Placeholder("repo")) == repo;
    assert expand(m, Placeholder("dir")) == dir;
    assert expand(m, Placeholder("branch")) == branch;
    assert expand(m, CloneTokens[0]) == CloneTokens[0];
    assert expand(m, CloneTokens[3]) == CloneTokens[3];
  }

  /** The substitution map of the clone step holds exactly its three keys. */
  lemma CloneKeyValMap(dir: string, repo: string, branch: string)
    ensures KeyValMap(["dir", dir, "repo", repo, "branch", branch]) == map["dir" := dir, "repo" := repo, "branch" := branch]
  {
    KeyValLaterWins([], "dir", dir);
    KeyValLaterWins(["dir", dir], "repo", repo);
    KeyValLaterWins(["dir", dir, "repo", repo], "branch", branch);
    assert [] + ["dir", dir] == ["dir", dir];
    assert ["dir", dir] + ["repo", repo] == ["dir", dir, "repo", repo];
    assert ["dir", dir, "repo", repo] + ["branch", branch] == ["dir", dir, "repo", repo, "branch", branch];
  }
}
