/** The two pieces of Go's `strings` package the model relies on:
    `strings.Fields`, which splits a command template into arguments, and
    `strings.Join` with a single space, its inverse on well-formed words. */
module Text {

  /** Go's `unicode.IsSpace`: the ASCII white space characters, NEL, NBSP and
      the remaining characters with the Unicode White_Space property. */
  predicate IsSpace(c: char) {
    || c == ' ' || c == '\t' || c == '\n' || c == '\U{000B}' || c == '\U{000C}' || c == '\r'
    || c == '\U{0085}' || c == '\U{00A0}' || c == '\U{1680}'
    || ('\U{2000}' <= c <= '\U{200A}')
    || c == '\U{2028}' || c == '\U{2029}' || c == '\U{202F}' || c == '\U{205F}' || c == '\U{3000}'
  }

  ghost predicate NoSpace(s: string) {
    forall i :: 0 <= i < |s| ==> !IsSpace(s[i])
  }

  /** A single argument: non-empty and free of white space. */
  ghost predicate IsWord(s: string) {
    |s| > 0 && NoSpace(s)
  }

  /** Length of the longest white-space-free prefix of `s`. */
  function WordLength(s: string): (n: nat)
    ensures n <= |s| && NoSpace(s[..n])
    ensures n == |s| || IsSpace(s[n])
  {
    if |s| == 0 || IsSpace(s[0]) then 0
    else
      var n := 1 + WordLength(s[1..]);
      assert forall i :: 1 <= i < n ==> s[..n][i] == s[1..][..n - 1][i - 1];
      n
  }

  /** `strings.Fields`: the maximal runs of non-space characters, in order. */
  function Fields(s: string): (r: seq<string>)
    ensures forall i :: 0 <= i < |r| ==> IsWord(r[i])
    decreases |s|
  {
    if |s| == 0 then []
    else if IsSpace(s[0]) then Fields(s[1..])
    else
      var n := WordLength(s);
      [s[..n]] + Fields(s[n..])
  }

  /** `strings.Join(words, " ")`. */
  function JoinSpace(words: seq<string>): string {
    if |words| == 0 then ""
    else if |words| == 1 then words[0]
    else words[0] + " " + JoinSpace(words[1..])
  }

  /** A word followed by a space (or nothing) is read back as that word. */
  lemma WordLengthOfWord(w: string, rest: string)
    requires NoSpace(w)
    requires |rest| == 0 || IsSpace(rest[0])
    ensures WordLength(w + rest) == |w|
  {
    var s := w + rest;
    assert forall k :: 0 <= k < |w| ==> s[k] == w[k];
    assert |rest| > 0 ==> s[|w|] == rest[0];
    var n := WordLength(s);
    assert n <= |w| ==> s[..n] == w[..n];
  }

  /** Splitting a space-joined list of words gives the words back, so a
      template's arguments are exactly its space-separated tokens. */
  lemma {:induction false} FieldsOfJoin(words: seq<string>)
    requires forall i :: 0 <= i < |words| ==> IsWord(words[i])
    ensures Fields(JoinSpace(words)) == words
  {
    if |words| == 0 {
    } else {
      var w := words[0];
      var rest := if |words| == 1 then "" else " " + JoinSpace(words[1..]);
      assert JoinSpace(words) == w + rest;
      WordLengthOfWord(w, rest);
      assert (w + rest)[..|w|] == w;
      assert (w + rest)[|w|..] == rest;
      if |words| == 1 {
        assert Fields(rest) == [];
      } else {
        assert rest[1..] == JoinSpace(words[1..]);
        FieldsOfJoin(words[1..]);
        assert Fields(rest) == Fields(rest[1..]);
      }
    }
  }
}
