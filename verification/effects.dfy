/** What the program's operations report to the outside: the errors they
    return and the trace of side-effecting calls they issue. */
module Effects {
  import opened Wrappers

  /** Why reading a snapshot file failed (`os.IsNotExist`, `os.IsPermission`,
      or any other read or YAML decoding failure). */
  datatype LoadErrorKind = NotExist | Permission | Malformed

  /** The error values the modelled code returns or reports fatally. */
  datatype Error =
    | LoadError(file: string, kind: LoadErrorKind)
    | Conflict(package: string, existing: string, requested: string)
    | ToolMissing(bin: string)
    | CommandFailed(dir: string, bin: string, args: seq<string>)
    | CheckoutFailed(dir: string, version: string)
    | MkdirFailed(dir: string)
    | SaveFailed(file: string)
    | MissingConfigArgument
    | BadExcludePattern
    | ShellMetacharEntry(entry: string)
    | RelativeEntry(entry: string)
    | NoTopConfig

  /** One side-effecting call, in the order it is issued. */
  datatype Call =
    | Exec(dir: string, bin: string, args: seq<string>)   // a VCS binary run in `dir`
    | Checkout(bin: string, dir: string, version: string)  // `vcs.checkout(dir, version)`
    | MkdirAll(dir: string)                                // `os.MkdirAll(dir, 0755)`
    | Save(file: string)                                   // `config.Save()` of the top layer

  /** The calls an operation issued and the error it returned (None for nil). */
  datatype Effect = Effect(trace: seq<Call>, err: Option<Error>)

  /** Runs `b` only if `a` returned nil, as Go's `if err != nil { return err }`. */
  function Then(a: Effect, b: Effect): (r: Effect)
    ensures a.err.Some? ==> r == a
    ensures a.err.None? ==> r.trace == a.trace + b.trace && r.err == b.err
  {
    if a.err.Some? then a else Effect(a.trace + b.trace, b.err)
  }

  /** The calls of running every step of `steps` to the end. */
  function Calls(steps: seq<Effect>): seq<Call>
    decreases |steps|
  {
    if |steps| == 0 then [] else steps[0].trace + Calls(steps[1..])
  }

  /** Step `k` is the first of `steps` that fails. */
  ghost predicate FirstFailure(steps: seq<Effect>, k: int) {
    && 0 <= k < |steps|
    && steps[k].err.Some?
    && forall i :: 0 <= i < k ==> steps[i].err.None?
  }

  /** Runs `steps` in order, as a Go loop that returns the first non-nil
      error: later steps are not run once one fails. */
  function Sequence(steps: seq<Effect>): (r: Effect)
    ensures r.err.None? <==> forall i :: 0 <= i < |steps| ==> steps[i].err.None?
    ensures r.err.None? ==> r.trace == Calls(steps)
    ensures r.err.Some? ==> exists k :: FirstFailure(steps, k)
                                        && r.err == steps[k].err
                                        && r.trace == Calls(steps[..k + 1])
    decreases |steps|
  {
    if |steps| == 0 then Effect([], None)
    else
      var rest := Sequence(steps[1..]);
      assert steps[..1] == [steps[0]] && Calls(steps[..1]) == steps[0].trace + Calls([]);
      if steps[0].err.Some? then
        assert FirstFailure(steps, 0);
        steps[0]
      else
        SequenceShift(steps, rest);
        Then(steps[0], rest)
  }

  lemma SequenceShift(steps: seq<Effect>, rest: Effect)
    requires |steps| > 0 && steps[0].err.None?
    requires rest.err.Some? ==> exists k :: FirstFailure(steps[1..], k)
                                           && rest.err == steps[1..][k].err
                                           && rest.trace == Calls(steps[1..][..k + 1])
    ensures rest.err.Some? ==> exists k :: FirstFailure(steps, k)
                                           && rest.err == steps[k].err
                                           && steps[0].trace + rest.trace == Calls(steps[..k + 1])
  {
    if rest.err.Some? {
      var k :| FirstFailure(steps[1..], k)
               && rest.err == steps[1..][k].err
               && rest.trace == Calls(steps[1..][..k + 1]);
      assert steps[..k + 2][1..] == steps[1..][..k + 1];
      assert FirstFailure(steps, k + 1) by {
        forall i | 0 <= i < k + 1 ensures steps[i].err.None? {
          if i > 0 { assert steps[i] == steps[1..][i - 1]; }
        }
      }
    }
  }

  /** Every call of `Calls(steps)` is a call of one of the steps. */
  lemma {:induction false} CallsFromSteps(steps: seq<Effect>, c: Call)
    requires c in Calls(steps)
    ensures exists i :: 0 <= i < |steps| && c in steps[i].trace
    decreases |steps|
  {
    if c !in steps[0].trace {
      CallsFromSteps(steps[1..], c);
      var i :| 0 <= i < |steps[1..]| && c in steps[1..][i].trace;
      assert steps[i + 1] == steps[1..][i];
    }
  }
}
