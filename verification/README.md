# gover (gods) — a Dafny model of the dependency-snapshot core

`gover` records the third-party Go packages a workspace depends on in
snapshot files named `.gover.yaml`, one per GOPATH entry. Each snapshot holds
a name, a revision counter and a list of `(package, version, url)`
dependencies. The entries form a hierarchy: the first readable entry is the
*top* layer, and the later entries are read-only context. `gover get <file>`
reads a requested snapshot and selects the dependencies no layer already
holds at the same version. It drops those matching `--exclude`, merges the
rest into the top layer, clones or checks out each one under
`<top-dir>/src/<package>` with Git, and saves the top snapshot.

The model is purely functional Dafny. Every side effect becomes an entry in a
trace of calls (`Effects.Call`: Exec, Checkout, MkdirAll, Save). Every failure
becomes an `Effects.Error` value. The outside world is passed in as
function-typed parameters: `Vcs.Host` for variable expansion, `LookPath` and
process exit status, and `Get.World` for repository existence, checkout,
directory creation, saving and snapshot loading.

| file | module | models |
|---|---|---|
| wrappers.dfy | Wrappers | `Option`, `Result` |
| seqs.dfy | Seqs | subsequences, order-preserving filter, last-wins maps, first match |
| text.dfy | Text | `strings.Fields` and `strings.Join(…, " ")`, with Go's `unicode.IsSpace` |
| paths.dfy | Paths | `path.Join` and `path.Dir` |
| effects.dfy | Effects | errors, call traces, stop-at-first-error sequencing |
| configs.dfy | Configs | config.go: snapshot layers, index, `Update`, hierarchy |
| vcs.dfy | Vcs | `vcsByCmd`, `getVcsByUrl`, `create`, `download`, `run1` |
| get.dfy | Get | get.go: `runGet` and `download` |
| cli.dfy | Cli | main.go: command names, GOPATH entry checks, layer loading, dispatch |

### Behaviour worth knowing

- **Loading a secondary layer.** `Append` returns the load error whenever a
  layer already exists, including for a missing file. A missing secondary
  snapshot is therefore skipped and never appended as an empty layer
  (config.go:45-47). See `Configs.Append`.
- **Revision counter.** `Update` increments the revision on every successful
  call, even when nothing new is added (config.go:122). See
  `Configs.UpdateKnownIsNoop`.
- **Conflicts.** On a conflict, `Update` has already applied the earlier
  dependencies to the top layer in memory (config.go:107-118).
  `Configs.UpdateReportsFirstConflict` describes this partial merge. `get`
  then stops before any download or save (get.go:63-64).
- **Which entry is the top.** A permission failure on a GOPATH entry is only
  a warning (main.go:106-107). The next readable entry then becomes the top
  layer, and `get` downloads into it. The top is the first accepted entry
  whose snapshot is not permission-denied, which need not be the first GOPATH
  entry. `Cli.TopIsFirstReadable` and `Cli.LayersFromEntries` state this.
- **Existing directories.** `download` treats an existing repository
  directory as managed. It checks out the requested version there and never
  clones over it (get.go:81-83).

## Model

| member | source | states |
|---|---|---|
| Configs.RebuildIndex | config.go:126-132 | the index's keys are exactly the declared packages, and each key maps to the last declaration of that package (loop invariant: index of the prefix read so far) |
| Configs.IndexOfSpec | config.go:126-132 | the index built from a dependency list has a key exactly for each declared package, and that key holds the package's last declaration |
| Configs.Load | config.go:67-78 | a failed read returns the error for that file; a successful one keeps name, revision and dependencies, records the file, and rebuilds a consistent index |
| Configs.ContainsDeclared | config.go:99-102 | in a consistent layer, `Contains` holds iff the package's last declaration has the requested version |
| Configs.MergeStep | config.go:108-117 | one merge step on a non-conflicting dependency adds its package to the index, appends it only if the package was unknown, and leaves the layer containing it |
| Configs.MergeSucceedsIff | config.go:107-118 | the merge loop ends without conflict iff every dependency agrees in version with the index and with the earlier requested dependencies of the same package |
| Configs.MergeAppendsNovel | config.go:107-118 | a successful merge appends exactly the first request of each previously unknown package, in order, and the layer then contains every requested dependency |
| Configs.MergeReportsFirstConflict | config.go:108-115 | a conflict names the first disagreeing dependency, with the version already held and the version requested, after every earlier dependency was merged |
| Configs.MergeKeepsContained | config.go:107-118 | merging never removes or changes a dependency the layer already contained |
| Configs.MergeKeepsConsistent | config.go:116-117 | merging keeps the index equal to the index rebuilt from the dependency list |
| Configs.Update | config.go:106-124 | success iff every candidate agrees with the index and with earlier candidates; on success the revision goes up by one, an empty name is filled in, and exactly the novel dependencies are appended; on conflict the revision and name stay; the file and all earlier records are kept |
| Configs.UpdateKeepsContents | config.go:107-118 | `Update` never drops or changes a dependency the layer contained, and keeps the index equal to the one rebuilt from the records |
| Configs.UpdateContainsRequested | config.go:107-118 | after a conflict-free `Update` the layer contains every candidate at its requested version |
| Configs.UpdateReportsFirstConflict | config.go:108-115 | a conflicting `Update` reports the first disagreeing candidate, with the version already held and the version requested, and keeps every earlier candidate merged |
| Configs.UpdateKnownIsNoop | config.go:107-123 | updating with dependencies the layer already contains changes neither the list nor the index, yet still bumps the revision |
| Configs.UpdateKeepsPackagesUnique | config.go:107-118 | if no package is declared twice before `Update`, none is declared twice after it |
| Configs.Top | config.go:34-39 | the top is the first layer, and there is none iff the hierarchy is empty |
| Configs.Append | config.go:42-54 | error iff the load fails with a permission error or a layer already exists, and then the hierarchy is unchanged; otherwise exactly one layer is appended for that file (an empty one if the first load failed), and an existing top never changes |
| Configs.HierarchyContains | config.go:57-64 | the hierarchy contains a dependency iff some layer contains it at that version |
| Vcs.VcsByCmd | vcs.go:32-39 | returns the registered system whose binary is the given name, and nothing iff no registered system uses that name (only `git` is registered) |
| Vcs.VcsByUrl | vcs.go:51-54 | every URL maps to Git, which is registered and found again by its binary name |
| Vcs.KeyValLaterWins | vcs.go:105-108 | in the key/value map, a later pair overrides an earlier one with the same key |
| Vcs.Render | vcs.go:109-112 | the argument list has one entry per white-space-separated field of the template, each field expanded on its own |
| Vcs.Run1 | vcs.go:104-136 | a missing binary fails without running anything; otherwise exactly one process runs in the given directory with the rendered arguments, and the call succeeds iff that process succeeds |
| Vcs.SplitRef | vcs.go:59-65 | a `sha:` version means branch `master` with the rest as the commit; any other version is the branch, with no commit |
| Vcs.Create | vcs.go:58-73 | clone first in `.`; if the clone fails, stop with its error; check out in the new directory only when a commit was given; success iff every issued step succeeds |
| Vcs.Download | vcs.go:76-78 | the call fails iff the binary is missing or the fetch template, run in the given directory with no substitutions, fails; a missing binary runs nothing and reports the missing tool; otherwise exactly that one process runs |
| Vcs.GitCreateFields | vcs.go:46 | Git's clone template splits into the five arguments `clone {repo} {dir} -b {branch}` |
| Vcs.GitFetchFields | vcs.go:47 | Git's update template is the single argument `fetch` |
| Vcs.GitCheckoutFields | vcs.go:48 | Git's checkout template splits into `checkout {commit}` |
| Vcs.GitCloneArgs | vcs.go:66 | with placeholders substituted, the clone arguments are `clone <repo> <dir> -b <branch>`, so a value containing spaces stays one argument |
| Text.FieldsOfJoin | vcs.go:109 | splitting a space-joined list of non-empty, space-free words gives the words back |
| Paths.DirOfJoin | get.go:68 | the directory of `dir/elem` is `dir` for a single path element |
| Effects.Sequence | get.go:78-94 | running steps in order succeeds iff every step succeeds; otherwise it stops at the first failing step, returning its error and the calls up to and including that step |
| Get.Missing | get.go:39-44 | the missing list keeps, in order and with multiplicity, exactly the requested dependencies no layer holds at that version |
| Get.ApplyExclude | get.go:45-57 | no pattern keeps the list; an invalid pattern is an error; a valid one keeps, in order, exactly the dependencies whose package does not match |
| Get.Plan | get.go:31-57 | no argument and an unreadable request are errors, and so is a bad exclusion pattern; otherwise the wanted list is the ordered sub-list of requested dependencies that are neither held nor excluded, each kept as many times as it was requested |
| Get.Fetch | get.go:79-89 | an existing repository is only checked out; otherwise the parent directory is created and, if that succeeds, the repository is cloned at `<root>/src/<package>`; nothing is saved |
| Get.Download | get.go:76-95 | dependencies are fetched in order and success iff every fetch succeeds; otherwise it stops at the first failing one with its error; nothing is saved |
| Get.Commit | get.go:58-73 | nothing wanted means nothing changes; otherwise the top is updated first; a conflict issues no call; downloads go into the top snapshot's directory; the save happens iff the update and every download succeeded; later layers never change |
| Get.RunGet | get.go:30-74 | a planning error leaves the hierarchy untouched with no calls; otherwise it commits the planned request |
| Get.GetSatisfiesRequest | get.go:39-73 | after a successful `get`, every requested, non-excluded dependency is held by the hierarchy at its requested version |
| Get.CommitSatisfies | get.go:62-73 | a successful commit keeps everything held before and adds every wanted dependency |
| Get.ScenarioFetchesOnlyMissing | get.go:39-65 | requesting `libA@v1, libB@v2` when the top holds `libA@v1` adds only `libB`, giving revision 4 and dependencies `[libA, libB]` |
| Get.ScenarioConflictWritesNothing | get.go:62-65 | requesting `libA@v2` when the top holds `libA@v1` reports the conflict with both versions and issues no call |
| Cli.Name | main.go:52-59 | the name is the prefix of the usage line up to, and excluding, the first space (the whole line if there is none) |
| Cli.NameUnique | main.go:52-59 | that prefix is the only string with those properties |
| Cli.CommandNames | main.go:69-72 | the two commands are named `get` and `list` |
| Cli.Dispatch | main.go:114-126 | returns the first command in table order whose name matches, and nothing iff none matches |
| Cli.DispatchCommands | main.go:114-128 | `get` selects the get command, `list` the list command, and every other word is unknown |
| Cli.CheckEntry | main.go:99-104 | an entry starting with `~` is rejected as a shell metacharacter; one starting with `./` or `../` is rejected as relative; every other entry is accepted |
| Cli.AcceptedPaths | main.go:105 | the snapshot file of each entry before the first rejected one is `<entry>/.gover.yaml` |
| Cli.DownloadRootIsEntry | main.go:105 | the directory of an entry's snapshot file is that entry, so `get` downloads under the GOPATH entry it read the top from |
| Cli.LoadLayers | main.go:98-109 | loading keeps the layers already present and never changes an existing top; it is fatal iff some entry is rejected, with the first rejected entry's error; warnings are only load errors other than "does not exist" (which errors exactly: `Cli.WarningsBelowTop`, `Cli.WarningsFromEntries`) |
| Cli.AddedFiles | main.go:98-109 | below an existing top, the added layers' files are exactly the accepted entries' snapshot paths whose load succeeds, in GOPATH order |
| Cli.AddedHold | config.go:42-54 | below an existing top, every added layer carries the name, revision and dependencies loaded from its file |
| Cli.WarningsBelowTop | main.go:105-108 | below an existing top, the warnings are exactly the load errors of the accepted entries other than "does not exist", in order |
| Cli.LayersFromEntries | main.go:98-109 | starting from nothing with entry `i` the first readable one, the top is bound to entry `i` (its snapshot, or an empty layer when that file is missing or malformed), and the layers below are exactly the later accepted entries whose snapshot loads, in order, with their loaded contents |
| Cli.WarningsFromEntries | main.go:98-109 | starting from nothing with entry `i` the first readable one, the warnings are the load errors other than "does not exist" of every accepted entry except `i`, in order |
| Cli.NoLayersWhenAllDenied | main.go:98-109 | starting from nothing with every accepted entry permission-denied, no layer is loaded and each accepted entry gives one warning, in order |
| Cli.TopIsFirstReadable | main.go:98-112 | starting from nothing, a top exists iff some accepted entry's snapshot is not permission-denied, and then the top is read from the first such entry |
| Cli.RunCommand | main.go:114-128 | an unknown name runs nothing; `list` issues no call; `get` has exactly the outcome of the get operation; only `get` issues calls |
| Cli.Execute | main.go:74-129 | no argument gives usage; `help` gives help and issues no call; a rejected entry or a missing top is fatal before any call; otherwise the named command runs on the loaded hierarchy, with the load warnings |

## Left out

- list.go's `runList` only prints the layers. It is modelled as a command that issues no call.
- Help, usage text and templates (main.go:131-209) are left out. They produce only output; `help` and usage are status values.
- Flag parsing is left out. The get command's `--exclude` value and positional arguments are parameters. A regular expression is a predicate on package names, or `BadPattern` when it does not compile.
- The `GOPATH` environment lookup, its empty/`GOROOT` check (main.go:89-95) and `filepath.SplitList` are left out. The list of entries is a parameter.
- File reading, YAML decoding and `Save`/`SaveTo` (config.go:80-96) are left out. A load is an outcome (its contents, or a not-exist, permission or malformed error). A save is a `Save` call whose success is a parameter. The file rebinding in `SaveTo` is not modelled.
- Configs.Append: a malformed first snapshot becomes an empty layer. In Go, fields that were already decoded may survive the failed YAML decode.
- Process execution is left out, together with the environment built by `envForDir`, command output and the verbose/`runVerboseOnly`/`runOutput` variants. Running a process is the `Host.exec` oracle.
- `vcsCmd.exists`, `vcsCmd.checkout` and `expand` are not part of this model: their definitions are outside the modelled files. They are the `World.hasRepo`, `World.checkout` and `Host.expand` parameters. `Vcs.GitCloneArgs` assumes `expand` replaces `{key}` placeholders and leaves other words alone.
- `exec.LookPath` and `os.MkdirAll` are oracles (`Host.lookPath`, `World.mkdirAll`).
- Get.World, Vcs.Host: the oracles are fixed for the whole run and do not observe the calls already issued. In Go, `vcs.exists` (get.go:81) sees a clone made earlier in the same run. In the model, a dependency listed twice is cloned twice, as if it were new both times.
- Paths.Join, Paths.Dir: `path.Clean` is not applied, so repeated or trailing slashes are kept as written.
- Configs.Update: the revision is an unbounded integer, so Go's `int` overflow on `Version++` is not modelled.
- Logging is left out: log messages and the "up to date" notice. `log.Fatal` is a `Fatal` status or an error value.
