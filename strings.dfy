/** The few operations of Rust's `str` the server relies on, over `seq<char>`. */
module Strings {
  import opened Wrappers

  /** Position of the last `c` in `s`, if there is one. */
  function LastIndexOf(s: string, c: char): (r: Option<nat>)
    ensures r.Some? ==> r.value < |s| && s[r.value] == c
    ensures r.Some? ==> forall j :: r.value < j < |s| ==> s[j] != c
    ensures r.None? <==> forall j :: 0 <= j < |s| ==> s[j] != c
  {
    if s == [] then None
    else if s[|s| - 1] == c then Some(|s| - 1)
    else LastIndexOf(s[..|s| - 1], c)
  }

  /** Position of the first `c` in `s`, if there is one. */
  function FirstIndexOf(s: string, c: char): (r: Option<nat>)
    ensures r.Some? ==> r.value < |s| && s[r.value] == c
    ensures r.Some? ==> forall j :: 0 <= j < r.value ==> s[j] != c
    ensures r.None? <==> forall j :: 0 <= j < |s| ==> s[j] != c
  {
    if s == [] then None
    else if s[0] == c then Some(0)
    else match FirstIndexOf(s[1..], c)
      case None => None
      case Some(i) => Some(i + 1)
  }

  /** Appending text free of `c` does not move the last `c`. */
  lemma LastIndexOfAppend(a: string, b: string, c: char)
    requires forall j :: 0 <= j < |b| ==> b[j] != c
    ensures LastIndexOf(a + b, c) == LastIndexOf(a, c)
  {
    assert forall j :: 0 <= j < |a| ==> (a + b)[j] == a[j];
    assert forall j :: |a| <= j < |a + b| ==> (a + b)[j] == b[j - |a|];
  }

  /** The first `c` is at `i` when `s[i]` is `c` and no earlier character is. */
  lemma FirstIndexOfAt(s: string, c: char, i: nat)
    requires i < |s| && s[i] == c
    requires forall j :: 0 <= j < i ==> s[j] != c
    ensures FirstIndexOf(s, c) == Some(i)
  {
  }

  /** `str::trim_start_matches` with a set of characters: every leading
      character of `s` that is in `pat` is removed, however many there are
      and in whatever mix. The result is the unique suffix of `s` whose
      removed prefix lies in `pat` and which does not itself start with a
      character of `pat`. */
  function TrimStartMatches(s: string, pat: set<char>): (r: string)
    ensures |r| <= |s| && r == s[|s| - |r|..]
    ensures forall i :: 0 <= i < |s| - |r| ==> s[i] in pat
    ensures r == [] || r[0] !in pat
  {
    if s != [] && s[0] in pat then TrimStartMatches(s[1..], pat) else s
  }

  /** Trimming is idempotent, and prepending more trimmed characters does not
      change the result. */
  lemma {:induction false} TrimStartMatchesAbsorbs(pre: string, s: string, pat: set<char>)
    requires forall i :: 0 <= i < |pre| ==> pre[i] in pat
    ensures TrimStartMatches(pre + s, pat) == TrimStartMatches(s, pat)
    ensures TrimStartMatches(TrimStartMatches(s, pat), pat) == TrimStartMatches(s, pat)
  {
    if pre != [] {
      assert (pre + s)[1..] == pre[1..] + s;
      TrimStartMatchesAbsorbs(pre[1..], s, pat);
    } else {
      assert pre + s == s;
    }
  }

  /** A string that starts with a character outside `pat` is left as it is. */
  lemma TrimStartMatchesKeeps(s: string, pat: set<char>)
    requires s != [] && s[0] !in pat
    ensures TrimStartMatches(s, pat) == s
  {
  }

  /** Once something is left after trimming, trimming stops before any text
      appended to the input. */
  lemma {:induction false} TrimStartMatchesKeepsTail(s: string, tail: string, pat: set<char>)
    requires TrimStartMatches(s, pat) != []
    ensures TrimStartMatches(s + tail, pat) == TrimStartMatches(s, pat) + tail
    decreases |s|
  {
    assert (s + tail)[0] == s[0];
    if s[0] in pat {
      assert (s + tail)[1..] == s[1..] + tail;
      TrimStartMatchesKeepsTail(s[1..], tail, pat);
    }
  }
}
