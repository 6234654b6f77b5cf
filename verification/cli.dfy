/** main.go: the command table, the GOPATH entry checks, the loop that builds
    the snapshot hierarchy from the GOPATH entries, and dispatch of the
    subcommand named by the first argument. */
module Cli {
  import opened Wrappers
  import opened Seqs
  import opened Paths
  import opened Effects
  import opened Configs
  import Get

  /** The snapshot file every GOPATH entry may hold. */
  const ConfigFileName := ".gover.yaml"

  // ---------------------------------------------------------------------------
  // Commands
  // ---------------------------------------------------------------------------

  datatype Kind = GetCommand | ListCommand

  /** A subcommand: its one-line usage, whose first word is its name, and
      which implementation it runs. */
  datatype Command = Command(usageLine: string, kind: Kind)

  const CmdGet := Command("get [--exclude REGEXP] <gover.yaml>", GetCommand)
  const CmdList := Command("list", ListCommand)

  /** The command table, in the order dispatch tries it. */
  const Commands := [CmdGet, CmdList]

  /** `Command.Name`: the usage line up to its first space, or all of it. */
  function Name(c: Command): (r: string)
    ensures r <= c.usageLine
    ensures ' ' !in r
    ensures |r| == |c.usageLine| || c.usageLine[|r|] == ' '
  {
    match FirstIndex(c.usageLine, (ch: char) => ch == ' ')
    case None => c.usageLine
    case Some(i) => c.usageLine[..i]
  }

  /** The three properties of `Name` pin it down: a space-free prefix that
      ends at a space or at the end of the line is the name. */
  lemma NameUnique(c: Command, w: string)
    requires w <= c.usageLine && ' ' !in w
    requires |w| == |c.usageLine| || c.usageLine[|w|] == ' '
    ensures w == Name(c)
  {
  }

  lemma CommandNames()
    ensures Name(CmdGet) == "get" && Name(CmdList) == "list"
  {
    GetName();
    ListName();
  }

  lemma ListName()
    ensures Name(CmdList) == "list"
  {
    NameUnique(CmdList, CmdList.usageLine);
  }

  lemma GetName()
    ensures Name(CmdGet) == "get"
  {
    var line := CmdGet.usageLine;
    assert line[0] == 'g' && line[1] == 'e' && line[2] == 't' && line[3] == ' ';
    assert "get" <= line;
    NameUnique(CmdGet, "get");
  }

  /** The first command of `cmds` whose name is `name`. */
  function Dispatch(cmds: seq<Command>, name: string): (r: Option<Command>)
    ensures r.Some? ==> r.value in cmds && Name(r.value) == name
    ensures r.Some? ==> exists i :: 0 <= i < |cmds| && cmds[i] == r.value &&
                                    forall j :: 0 <= j < i ==> Name(cmds[j]) != name
    ensures r.None? <==> forall j :: 0 <= j < |cmds| ==> Name(cmds[j]) != name
  {
    match FirstIndex(cmds, (c: Command) => Name(c) == name)
    case None => None
    case Some(i) => Some(cmds[i])
  }

  /** Only `get` and `list` name a command. */
  lemma DispatchCommands(name: string)
    ensures Dispatch(Commands, name) ==
              if name == "get" then Some(CmdGet)
              else if name == "list" then Some(CmdList)
              else None
  {
    CommandNames();
    assert |Commands| == 2 && Commands[0] == CmdGet && Commands[1] == CmdList;
    var r := Dispatch(Commands, name);
    if name == "get" {
      assert r.Some?;
      var i :| 0 <= i < |Commands| && Commands[i] == r.value &&
               forall j :: 0 <= j < i ==> Name(Commands[j]) != name;
      assert i == 0;
    } else if name == "list" {
      assert r.Some?;
      assert r.value == CmdList;
    } else {
      assert r.None?;
    }
  }

  // ---------------------------------------------------------------------------
  // Building the hierarchy
  // ---------------------------------------------------------------------------

  /** The check on one GOPATH entry: a leading `~` (unexpanded shell
      metacharacter) or a leading `./` or `../` (relative path) is fatal. */
  function CheckEntry(p: string): (r: Option<Error>)
    ensures r.None? <==> !("~" <= p) && !("./" <= p) && !("../" <= p)
    ensures "~" <= p ==> r == Some(ShellMetacharEntry(p))
    ensures !("~" <= p) && r.Some? ==> r == Some(RelativeEntry(p))
  {
    if "~" <= p then Some(ShellMetacharEntry(p))
    else if "./" <= p || "../" <= p then Some(RelativeEntry(p))
    else None
  }

  /** The number of entries before the first one `CheckEntry` rejects. */
  function Accepted(entries: seq<string>): (n: nat)
    ensures n <= |entries|
    ensures forall i :: 0 <= i < n ==> CheckEntry(entries[i]).None?
    ensures n < |entries| ==> CheckEntry(entries[n]).Some?
    decreases |entries|
  {
    if |entries| == 0 || CheckEntry(entries[0]).Some? then 0
    else 1 + Accepted(entries[1..])
  }

  /** Where each entry's snapshot file lives. */
  function ConfigPath(entry: string): string {
    Join(entry, ConfigFileName)
  }

  /** `get` downloads into the directory of the top snapshot file, which is
      the search-path entry that snapshot was read from. */
  lemma DownloadRootIsEntry(entry: string)
    requires entry != ""
    ensures Dir(ConfigPath(entry)) == entry
  {
    DirOfJoin(entry, ConfigFileName);
  }

  /** The snapshot files of the entries before the first rejected one. */
  function AcceptedPaths(entries: seq<string>): (r: seq<string>)
    ensures |r| == Accepted(entries)
    ensures forall i :: 0 <= i < |r| ==> r[i] == ConfigPath(entries[i])
    decreases |entries|
  {
    if |entries| == 0 || CheckEntry(entries[0]).Some? then []
    else [ConfigPath(entries[0])] + AcceptedPaths(entries[1..])
  }

  function Files(cs: seq<Config>): (r: seq<string>)
    ensures |r| == |cs|
    ensures forall i :: 0 <= i < |cs| ==> r[i] == cs[i].file
  {
    seq(|cs|, i requires 0 <= i < |cs| => cs[i].file)
  }

  /** An `Append` error `main` prints a warning for: every error except a
      missing file. */
  function Warning(err: Option<Error>): (r: seq<Error>)
    ensures r == [] <==> err.None? || (err.value.LoadError? && err.value.kind == NotExist)
    ensures r != [] ==> r == [err.value]
  {
    if err.Some? && !(err.value.LoadError? && err.value.kind == NotExist) then [err.value] else []
  }

  /** The hierarchy built so far, the warnings printed, and the fatal
      error that stopped the loop, if any. */
  datatype Layers = Layers(h: Hierarchy, warnings: seq<Error>, fatal: Option<Error>)

  /** The loop of `main` over the GOPATH entries: each accepted entry's
      snapshot file is appended; the first rejected entry ends the run. */
  function LoadLayers(h: Hierarchy, entries: seq<string>, load: string -> LoadOutcome): (r: Layers)
    ensures h.configs <= r.h.configs
    ensures r.fatal.Some? <==> Accepted(entries) < |entries|
    ensures r.fatal.Some? ==> r.fatal == CheckEntry(entries[Accepted(entries)])
    ensures forall e :: e in r.warnings ==> e.LoadError? && e.kind != NotExist
    ensures |h.configs| > 0 ==> Top(r.h) == Top(h)
    decreases |entries|
  {
    if |entries| == 0 then Layers(h, [], None)
    else
      match CheckEntry(entries[0])
      case Some(e) => Layers(h, [], Some(e))
      case None =>
        var file := ConfigPath(entries[0]);
        var a := Append(h, file, load(file));
        var rest := LoadLayers(a.h, entries[1..], load);
        Layers(rest.h, Warning(a.err) + rest.warnings, rest.fatal)
  }

  /** The paths among `paths` whose snapshot loads, in order. */
  function Readable(paths: seq<string>, load: string -> LoadOutcome): seq<string>
    decreases |paths|
  {
    if |paths| == 0 then []
    else (if load(paths[0]).Loaded? then [paths[0]] else []) + Readable(paths[1..], load)
  }

  /** The load errors of `paths` other than a missing file, in order. */
  function Warned(paths: seq<string>, load: string -> LoadOutcome): seq<Error>
    decreases |paths|
  {
    if |paths| == 0 then []
    else
      var o := load(paths[0]);
      (if o.LoadFailed? && o.kind != NotExist then [LoadError(paths[0], o.kind)] else [])
      + Warned(paths[1..], load)
  }

  /** Layer `c` holds the snapshot `o` describes. */
  predicate Holds(c: Config, o: LoadOutcome) {
    o.Loaded? && c.name == o.name && c.version == o.version && c.deps == o.deps
  }

  /** The layers the loop adds on top of the hierarchy it started from. */
  function Added(h: Hierarchy, entries: seq<string>, load: string -> LoadOutcome): (r: seq<Config>)
    ensures LoadLayers(h, entries, load).h.configs == h.configs + r
  {
    LoadLayers(h, entries, load).h.configs[|h.configs|..]
  }

  /** Below an existing top, the loop appends exactly the accepted entries
      whose snapshot loads, in GOPATH order and with the loaded contents, and
      warns about every other failure of an accepted entry except a missing
      file, in order. */
  lemma LayersBelowTop(h: Hierarchy, entries: seq<string>, load: string -> LoadOutcome)
    requires |h.configs| > 0
    ensures Files(Added(h, entries, load)) == Readable(AcceptedPaths(entries), load)
    ensures forall c :: c in Added(h, entries, load) ==> Holds(c, load(c.file))
    ensures LoadLayers(h, entries, load).warnings == Warned(AcceptedPaths(entries), load)
  {
    AddedFiles(h, entries, load);
    AddedHold(h, entries, load);
    WarningsBelowTop(h, entries, load);
  }

  /** One accepted entry: its file heads the accepted paths, and the loop
      continues from the hierarchy `Append` leaves. */
  lemma AcceptedStep(h: Hierarchy, entries: seq<string>, load: string -> LoadOutcome)
    requires |entries| > 0 && CheckEntry(entries[0]).None?
    ensures var file := ConfigPath(entries[0]);
            var a := Append(h, file, load(file));
            var rest := LoadLayers(a.h, entries[1..], load);
            && AcceptedPaths(entries) == [file] + AcceptedPaths(entries[1..])
            && LoadLayers(h, entries, load) == Layers(rest.h, Warning(a.err) + rest.warnings, rest.fatal)
  {
  }

  lemma ReadableCons(p: string, ps: seq<string>, load: string -> LoadOutcome)
    ensures Readable([p] + ps, load) == (if load(p).Loaded? then [p] else []) + Readable(ps, load)
  {
    assert ([p] + ps)[1..] == ps;
  }

  lemma WarnedCons(p: string, ps: seq<string>, load: string -> LoadOutcome)
    ensures Warned([p] + ps, load) ==
              (if load(p).LoadFailed? && load(p).kind != NotExist then [LoadError(p, load(p).kind)] else [])
              + Warned(ps, load)
  {
    assert ([p] + ps)[1..] == ps;
  }

  /** One accepted entry adds the layer `Append` bound to its file, if any,
      below the layers the rest of the loop adds. */
  lemma AddedStep(h: Hierarchy, entries: seq<string>, load: string -> LoadOutcome)
    requires |entries| > 0 && CheckEntry(entries[0]).None?
    ensures var file := ConfigPath(entries[0]);
            var a := Append(h, file, load(file));
            Added(h, entries, load) ==
              (if a.err.Some? then [] else [a.h.configs[|h.configs|]]) + Added(a.h, entries[1..], load)
  {
    var file := ConfigPath(entries[0]);
    var a := Append(h, file, load(file));
    AcceptedStep(h, entries, load);
    var tail := Added(a.h, entries[1..], load);
    if a.err.None? {
      var layer := a.h.configs[|h.configs|];
      assert a.h.configs == h.configs + [layer];
      assert h.configs + Added(h, entries, load) == h.configs + ([layer] + tail);
    } else {
      assert h.configs + Added(h, entries, load) == h.configs + tail;
    }
  }

  /** Below an existing top, the added layers are bound to exactly the
      accepted entries whose snapshot loads, in GOPATH order. */
  lemma {:induction false} AddedFiles(h: Hierarchy, entries: seq<string>, load: string -> LoadOutcome)
    requires |h.configs| > 0
    ensures Files(Added(h, entries, load)) == Readable(AcceptedPaths(entries), load)
    decreases |entries|
  {
    if |entries| == 0 || CheckEntry(entries[0]).Some? {
      assert Added(h, entries, load) == [];
    } else {
      var file := ConfigPath(entries[0]);
      var a := Append(h, file, load(file));
      AcceptedStep(h, entries, load);
      AddedStep(h, entries, load);
      ReadableCons(file, AcceptedPaths(entries[1..]), load);
      AddedFiles(a.h, entries[1..], load);
      var tail := Added(a.h, entries[1..], load);
      if a.err.None? {
        var layer := a.h.configs[|h.configs|];
        assert Files([layer] + tail) == [file] + Files(tail);
      }
    }
  }

  /** Below an existing top, each added layer holds the snapshot loaded from
      its file. */
  lemma {:induction false} AddedHold(h: Hierarchy, entries: seq<string>, load: string -> LoadOutcome)
    requires |h.configs| > 0
    ensures forall c :: c in Added(h, entries, load) ==> Holds(c, load(c.file))
    decreases |entries|
  {
    if |entries| == 0 || CheckEntry(entries[0]).Some? {
      assert Added(h, entries, load) == [];
    } else {
      var file := ConfigPath(entries[0]);
      var a := Append(h, file, load(file));
      AddedStep(h, entries, load);
      AddedHold(a.h, entries[1..], load);
      if a.err.None? {
        var layer := a.h.configs[|h.configs|];
        assert Holds(layer, load(layer.file));
      }
    }
  }

  /** Below an existing top, the warnings are the failures, other than a
      missing file, of the accepted entries, in order. */
  lemma {:induction false} WarningsBelowTop(h: Hierarchy, entries: seq<string>, load: string -> LoadOutcome)
    requires |h.configs| > 0
    ensures LoadLayers(h, entries, load).warnings == Warned(AcceptedPaths(entries), load)
    decreases |entries|
  {
    if |entries| > 0 && CheckEntry(entries[0]).None? {
      var file := ConfigPath(entries[0]);
      var a := Append(h, file, load(file));
      AcceptedStep(h, entries, load);
      WarnedCons(file, AcceptedPaths(entries[1..]), load);
      WarningsBelowTop(a.h, entries[1..], load);
    }
  }

  /** The snapshot file of `entry` cannot be read for lack of permission. */
  predicate Denied(load: string -> LoadOutcome, entry: string) {
    load(ConfigPath(entry)) == LoadFailed(Permission)
  }

  /** Entry `i` is accepted and is the first one whose file is not denied. */
  ghost predicate FirstReadable(entries: seq<string>, load: string -> LoadOutcome, i: int) {
    && 0 <= i < Accepted(entries)
    && !Denied(load, entries[i])
    && forall j :: 0 <= j < i ==> Denied(load, entries[j])
  }

  /** Starting from an empty hierarchy, the top is bound to the first
      accepted entry whose file is not denied — whether that file exists,
      parses or not — and there is no top when there is no such entry. */
  lemma {:induction false} TopIsFirstReadable(entries: seq<string>, load: string -> LoadOutcome)
    ensures var r := LoadLayers(Hierarchy([]), entries, load);
            |r.h.configs| > 0 <==> exists i :: FirstReadable(entries, load, i)
    ensures var r := LoadLayers(Hierarchy([]), entries, load);
            forall i :: FirstReadable(entries, load, i) ==> r.h.configs[0].file == ConfigPath(entries[i])
    decreases |entries|
  {
    var r := LoadLayers(Hierarchy([]), entries, load);
    if |entries| > 0 && CheckEntry(entries[0]).None? {
      var file := ConfigPath(entries[0]);
      var a := Append(Hierarchy([]), file, load(file));
      if Denied(load, entries[0]) {
        assert a.h == Hierarchy([]);
        TopIsFirstReadable(entries[1..], load);
        forall i | FirstReadable(entries, load, i)
          ensures i > 0 && FirstReadable(entries[1..], load, i - 1)
        {
          assert entries[1..][i - 1] == entries[i];
        }
        forall i | FirstReadable(entries[1..], load, i)
          ensures FirstReadable(entries, load, i + 1)
        {
          assert entries[1..][i] == entries[i + 1];
          forall j | 0 <= j < i + 1 ensures Denied(load, entries[j]) {
            if j > 0 { assert entries[j] == entries[1..][j - 1]; }
          }
        }
      } else {
        assert FirstReadable(entries, load, 0);
        assert a.h.configs == [a.h.configs[0]] && a.h.configs[0].file == file;
        forall i | FirstReadable(entries, load, i) ensures i == 0 {}
      }
    }
  }

  /** Starting from an empty hierarchy with `i` the first readable entry:
      the top is bound to entry `i` (its snapshot, or an empty layer when the
      file is missing or malformed), and the layers below are exactly the
      later accepted entries whose snapshot loads, with their contents. */
  lemma {:induction false} LayersFromEntries(entries: seq<string>, load: string -> LoadOutcome, i: int)
    requires FirstReadable(entries, load, i)
    ensures var r := LoadLayers(Hierarchy([]), entries, load);
            var paths := AcceptedPaths(entries);
            && |r.h.configs| > 0
            && r.h.configs[0].file == paths[i]
            && (load(paths[i]).Loaded? ==> Holds(r.h.configs[0], load(paths[i])))
            && (load(paths[i]).LoadFailed? ==> r.h.configs[0] == EmptyLayer(paths[i]))
            && Files(r.h.configs[1..]) == Readable(paths[i + 1..], load)
            && (forall c :: c in r.h.configs[1..] ==> Holds(c, load(c.file)))
    decreases |entries|
  {
    if i == 0 {
      FirstEntryReadable(entries, load);
    } else {
      DeniedFirst(entries, load, i);
      LayersFromEntries(entries[1..], load, i - 1);
      ConsSlices(ConfigPath(entries[0]), AcceptedPaths(entries[1..]), i);
    }
  }

  /** Starting from an empty hierarchy with `i` the first readable entry,
      the warnings are the failures, other than a missing file, of every
      accepted entry but `i`, in order. */
  lemma {:induction false} WarningsFromEntries(entries: seq<string>, load: string -> LoadOutcome, i: int)
    requires FirstReadable(entries, load, i)
    ensures var paths := AcceptedPaths(entries);
            LoadLayers(Hierarchy([]), entries, load).warnings ==
              Warned(paths[..i], load) + Warned(paths[i + 1..], load)
    decreases |entries|
  {
    if i == 0 {
      FirstEntryReadable(entries, load);
      assert AcceptedPaths(entries)[..0] == [];
    } else {
      DeniedFirst(entries, load, i);
      WarningsFromEntries(entries[1..], load, i - 1);
      WarnedSkipping(ConfigPath(entries[0]), AcceptedPaths(entries[1..]), load, i);
    }
  }

  /** A denied path in front adds its warning in front of the warnings of
      the paths around position `i`. */
  lemma WarnedSkipping(file: string, tail: seq<string>, load: string -> LoadOutcome, i: int)
    requires load(file) == LoadFailed(Permission) && 0 < i <= |tail|
    ensures [LoadError(file, Permission)] + (Warned(tail[..i - 1], load) + Warned(tail[i..], load)) ==
              Warned(([file] + tail)[..i], load) + Warned(([file] + tail)[i + 1..], load)
  {
    ConsSlices(file, tail, i);
    WarnedCons(file, tail[..i - 1], load);
  }

  /** Slicing a sequence with one more element in front. */
  lemma ConsSlices<T>(x: T, tail: seq<T>, i: int)
    requires 0 < i <= |tail|
    ensures ([x] + tail)[i] == tail[i - 1]
    ensures ([x] + tail)[i + 1..] == tail[i..]
    ensures ([x] + tail)[..i] == [x] + tail[..i - 1]
  {
  }

  /** A first readable entry past the first one: the first entry is denied,
      so the loop goes on from the empty hierarchy with one warning, and the
      readable entry is the first of the rest. */
  lemma DeniedFirst(entries: seq<string>, load: string -> LoadOutcome, i: int)
    requires FirstReadable(entries, load, i) && i > 0
    ensures var file := ConfigPath(entries[0]);
            var rest := LoadLayers(Hierarchy([]), entries[1..], load);
            && AcceptedPaths(entries) == [file] + AcceptedPaths(entries[1..])
            && i - 1 < |AcceptedPaths(entries[1..])|
            && LoadLayers(Hierarchy([]), entries, load) ==
                 Layers(rest.h, [LoadError(file, Permission)] + rest.warnings, rest.fatal)
    ensures FirstReadable(entries[1..], load, i - 1)
  {
    AcceptedStep(Hierarchy([]), entries, load);
    assert Denied(load, entries[0]);
    assert entries[1..][i - 1] == entries[i];
    forall j | 0 <= j < i - 1 ensures Denied(load, entries[1..][j]) {
      assert entries[1..][j] == entries[j + 1];
    }
  }

  /** The case of `LayersFromEntries` where the first entry is readable. */
  lemma FirstEntryReadable(entries: seq<string>, load: string -> LoadOutcome)
    requires 0 < Accepted(entries) && !Denied(load, entries[0])
    ensures var r := LoadLayers(Hierarchy([]), entries, load);
            var paths := AcceptedPaths(entries);
            && |r.h.configs| > 0
            && r.h.configs[0].file == paths[0]
            && (load(paths[0]).Loaded? ==> Holds(r.h.configs[0], load(paths[0])))
            && (load(paths[0]).LoadFailed? ==> r.h.configs[0] == EmptyLayer(paths[0]))
            && Files(r.h.configs[1..]) == Readable(paths[1..], load)
            && (forall c :: c in r.h.configs[1..] ==> Holds(c, load(c.file)))
            && r.warnings == Warned(paths[1..], load)
  {
    var file := ConfigPath(entries[0]);
    var a := Append(Hierarchy([]), file, load(file));
    AcceptedStep(Hierarchy([]), entries, load);
    var layer := a.h.configs[0];
    assert a.h.configs == [layer];
    LayersBelowTop(a.h, entries[1..], load);
    assert AcceptedPaths(entries)[1..] == AcceptedPaths(entries[1..]);
  }

  /** Starting from an empty hierarchy with every accepted entry denied: no
      layer at all, and one warning per accepted entry. */
  lemma {:induction false} NoLayersWhenAllDenied(entries: seq<string>, load: string -> LoadOutcome)
    requires forall j :: 0 <= j < Accepted(entries) ==> Denied(load, entries[j])
    ensures var r := LoadLayers(Hierarchy([]), entries, load);
            r.h.configs == [] && r.warnings == Warned(AcceptedPaths(entries), load)
    decreases |entries|
  {
    if |entries| > 0 && CheckEntry(entries[0]).None? {
      var file := ConfigPath(entries[0]);
      AcceptedStep(Hierarchy([]), entries, load);
      WarnedCons(file, AcceptedPaths(entries[1..]), load);
      assert forall j :: 0 <= j < Accepted(entries[1..]) ==> entries[1..][j] == entries[j + 1];
      NoLayersWhenAllDenied(entries[1..], load);
    }
  }

  // ---------------------------------------------------------------------------
  // main
  // ---------------------------------------------------------------------------

  /** How a run ends: usage text, help text, a fatal error, an unknown
      subcommand, or the dispatched command returning. */
  datatype Status = Usage | Help | Fatal(error: Error) | UnknownCommand(name: string) | Completed(kind: Kind)

  /** A run's status, the hierarchy it ends with, the calls it issued and
      the warnings it printed. */
  datatype Run = Run(status: Status, h: Hierarchy, trace: seq<Call>, warnings: seq<Error>)

  /** The end of `main`: the first command named by `args[0]` runs on the
      hierarchy with the remaining arguments; no match runs nothing. */
  function RunCommand(h: Hierarchy, args: seq<string>, exclude: Get.Exclude, w: Get.World): (r: Run)
    requires |args| > 0 && |h.configs| > 0
    ensures r.warnings == []
    ensures r.status.UnknownCommand? <==> args[0] != "get" && args[0] != "list"
    ensures r.status.UnknownCommand? ==> r == Run(UnknownCommand(args[0]), h, [], [])
    ensures args[0] == "list" ==> r == Run(Completed(ListCommand), h, [], [])
    ensures args[0] == "get" ==>
              var got := Get.RunGet(h, args[1..], exclude, w);
              && r.h == got.h && r.trace == got.trace
              && r.status == if got.err.Some? then Fatal(got.err.value) else Completed(GetCommand)
    ensures r.trace != [] ==> args[0] == "get"
  {
    DispatchCommands(args[0]);
    match Dispatch(Commands, args[0])
    case None => Run(UnknownCommand(args[0]), h, [], [])
    case Some(cmd) =>
      match cmd.kind
      case ListCommand => Run(Completed(ListCommand), h, [], [])
      case GetCommand =>
        var got := Get.RunGet(h, args[1..], exclude, w);
        Run(if got.err.Some? then Fatal(got.err.value) else Completed(GetCommand), got.h, got.trace, [])
  }

  /** `main` after global flag parsing: `args` are the remaining arguments,
      `entries` the GOPATH list, `exclude` the parsed `--exclude` flag of
      `get`, whose other arguments are `args[1..]`. Usage and help come
      first; then the hierarchy is built, a rejected entry or a missing top
      is fatal before any command runs, and the command is dispatched. */
  function Execute(args: seq<string>, entries: seq<string>, exclude: Get.Exclude, w: Get.World): (r: Run)
    ensures |args| == 0 ==> r.status == Usage && r.trace == []
    ensures |args| > 0 && args[0] == "help" ==> r.status == Help && r.trace == []
    ensures |args| > 0 && args[0] != "help" ==>
              var layers := LoadLayers(Hierarchy([]), entries, w.load);
              && r.warnings == layers.warnings
              && (layers.fatal.Some? ==> r.status == Fatal(layers.fatal.value) && r.trace == [])
              && (layers.fatal.None? && |layers.h.configs| == 0 ==> r.status == Fatal(NoTopConfig) && r.trace == [])
              && (layers.fatal.None? && |layers.h.configs| > 0 ==>
                    r == RunCommand(layers.h, args, exclude, w).(warnings := layers.warnings))
    ensures r.trace != [] ==> |args| > 0 && args[0] == "get"
  {
    if |args| == 0 then Run(Usage, Hierarchy([]), [], [])
    else if args[0] == "help" then Run(Help, Hierarchy([]), [], [])
    else
      var layers := LoadLayers(Hierarchy([]), entries, w.load);
      if layers.fatal.Some? then Run(Fatal(layers.fatal.value), layers.h, [], layers.warnings)
      else if Top(layers.h).None? then Run(Fatal(NoTopConfig), layers.h, [], layers.warnings)
      else RunCommand(layers.h, args, exclude, w).(warnings := layers.warnings)
  }
}
