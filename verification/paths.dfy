/** Slash-separated paths as Go's `path` package handles them, without the
    lexical clean-up (`path.Clean`) that `path.Join` and `path.Dir` apply. */
module Paths {
  import opened Wrappers

  /** `path.Join(dir, elem)`: an empty first element is dropped. */
  function Join(dir: string, elem: string): string {
    if dir == "" then elem else dir + "/" + elem
  }

  /** Index of the last '/' in `p`, if any. */
  function LastSlash(p: string): (r: Option<nat>)
    ensures r.Some? ==> r.value < |p| && p[r.value] == '/'
    ensures r.Some? ==> forall j :: r.value < j < |p| ==> p[j] != '/'
    ensures r.None? <==> forall j :: 0 <= j < |p| ==> p[j] != '/'
  {
    if |p| == 0 then None
    else if p[|p| - 1] == '/' then Some(|p| - 1)
    else LastSlash(p[..|p| - 1])
  }

  /** `path.Dir`: everything before the last '/', "." when there is no '/',
      and "/" when the only '/' is the leading one. */
  function Dir(p: string): string {
    match LastSlash(p)
    case None => "."
    case Some(i) => if i == 0 then "/" else p[..i]
  }

  /** The directory of `Join(dir, elem)` is `dir` again, for a non-empty
      `dir` and a single path element. */
  lemma {:induction false} DirOfJoin(dir: string, elem: string)
    requires dir != ""
    requires forall j :: 0 <= j < |elem| ==> elem[j] != '/'
    ensures Dir(Join(dir, elem)) == dir
  {
    var p := dir + "/" + elem;
    assert p[|dir|] == '/';
    assert forall j :: |dir| < j < |p| ==> p[j] == elem[j - |dir| - 1];
    var i := LastSlash(p).value;
    assert i == |dir|;
    assert p[..i] == dir;
  }
}
