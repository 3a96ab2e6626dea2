/** The part of Rust's `std::path` the file handler depends on, for Unix paths
    held as strings: `Path::join`, `Path::file_name` and `Path::extension`. */
module Paths {
  import opened Wrappers
  import opened Strings

  const SEPARATOR: char := '/'

  predicate IsAbsolute(p: string) {
    |p| > 0 && p[0] == SEPARATOR
  }

  /** A component that `file_name` can return: not empty, not `.` or `..`,
      and free of separators. */
  predicate IsNormalComponent(c: string) {
    c != "" && c != "." && c != ".." && forall j :: 0 <= j < |c| ==> c[j] != SEPARATOR
  }

  /** `Path::join` (that is, `PathBuf::push`): an absolute `rel` replaces
      `base`; otherwise `rel` is appended, with one separator in between
      unless `base` is empty or already ends with one. */
  function Join(base: string, rel: string): (r: string)
    ensures IsAbsolute(rel) ==> r == rel
    ensures !IsAbsolute(rel) ==> |base| + |rel| <= |r| <= |base| + |rel| + 1
    ensures !IsAbsolute(rel) ==> r[..|base|] == base && r[|r| - |rel|..] == rel
    ensures !IsAbsolute(rel) && |r| == |base| + |rel| + 1 ==> r[|base|] == SEPARATOR
  {
    if IsAbsolute(rel) then rel
    else if base == [] || base[|base| - 1] == SEPARATOR then base + rel
    else base + [SEPARATOR] + rel
  }

  /** What `Join` puts before a relative part: the base, with a separator
      added unless it is empty or already ends with one. */
  function JoinPrefix(base: string): (pre: string)
    ensures |base| <= |pre| <= |base| + 1 && pre[..|base|] == base
    ensures pre == [] || pre[|pre| - 1] == SEPARATOR
  {
    if base == [] || base[|base| - 1] == SEPARATOR then base else base + [SEPARATOR]
  }

  /** Joining a relative part appends it to the join prefix. */
  lemma JoinAppendsToPrefix(base: string, rel: string)
    requires !IsAbsolute(rel)
    ensures Join(base, rel) == JoinPrefix(base) + rel
  {
  }

  /** `Join` inserts a separator exactly when the base is not empty and does
      not already end with one; with the prefix and suffix facts of its
      contract this determines the joined string. */
  lemma JoinInsertsSeparator(base: string, rel: string)
    requires !IsAbsolute(rel)
    ensures |Join(base, rel)| == |base| + |rel| + 1 <==> base != [] && base[|base| - 1] != SEPARATOR
    ensures |Join(base, rel)| == |base| + |rel| <==> base == [] || base[|base| - 1] == SEPARATOR
  {
  }

  /** `Path::file_name`: the last component of the path. Trailing separators
      and `.` components are skipped; a path ending in `..`, the root and the
      empty path have none. */
  function FileName(p: string): (r: Option<string>)
    ensures r.Some? ==> IsNormalComponent(r.value)
    decreases |p|
  {
    match LastIndexOf(p, SEPARATOR)
    case None =>
      if p == "" || p == "." || p == ".." then None else Some(p)
    case Some(i) =>
      var last := p[i + 1..];
      if last == "" || last == "." then FileName(p[..i])
      else if last == ".." then None
      else Some(last)
  }

  /** A tail that `file_name` skips: separators and `.` components only. */
  predicate Skippable(t: string) {
    forall j :: 0 <= j < |t| ==> t[j] == SEPARATOR || DotComponentAt(t, j)
  }

  /** Position `j` of `t` holds a `.` component. */
  predicate DotComponentAt(t: string, j: nat)
    requires j < |t|
  {
    t[j] == '.' && 0 < j && t[j - 1] == SEPARATOR && (j + 1 == |t| || t[j + 1] == SEPARATOR)
  }

  /** `name` is a whole component of `p` at position `k`, followed only by
      what `file_name` skips. */
  predicate ComponentAt(p: string, name: string, k: nat) {
    k + |name| <= |p| && p[k..k + |name|] == name && (k == 0 || p[k - 1] == SEPARATOR) &&
    Skippable(p[k + |name|..])
  }

  lemma SkippablePrefix(t: string, n: nat)
    requires Skippable(t) && n <= |t|
    ensures Skippable(t[..n])
  {
    var u := t[..n];
    forall j | 0 <= j < |u|
      ensures u[j] == SEPARATOR || DotComponentAt(u, j)
    {
      assert u[j] == t[j];
      if 0 < j {
        assert u[j - 1] == t[j - 1];
      }
      if j + 1 < |u| {
        assert u[j + 1] == t[j + 1];
      }
    }
  }

  /** A skippable tail that is not empty starts with a separator. */
  lemma SkippableStart(t: string)
    requires Skippable(t) && t != []
    ensures t[0] == SEPARATOR
  {
    assert t[0] == SEPARATOR || DotComponentAt(t, 0);
  }

  lemma SkippableExtend(a: string, b: string)
    requires Skippable(a)
    requires b == [SEPARATOR] || b == [SEPARATOR, '.']
    ensures Skippable(a + b)
  {
    var t := a + b;
    forall j | 0 <= j < |t|
      ensures t[j] == SEPARATOR || DotComponentAt(t, j)
    {
      if j < |a| {
        assert t[j] == a[j];
        if a[j] != SEPARATOR {
          assert DotComponentAt(a, j);
          assert t[j - 1] == a[j - 1];
          if j + 1 < |a| {
            assert t[j + 1] == a[j + 1];
          } else {
            assert t[j + 1] == b[0];
          }
        }
      } else if j == |a| {
        assert t[j] == b[0];
      } else {
        assert j == |a| + 1 && t[j] == b[1] && t[j - 1] == b[0];
      }
    }
  }

  /** After the last separator of a skippable tail there is nothing, or a
      single `.`. */
  lemma SkippableLastSegment(t: string, i: nat)
    requires Skippable(t) && i < |t| && t[i] == SEPARATOR
    requires forall j :: i < j < |t| ==> t[j] != SEPARATOR
    ensures t[i + 1..] == [] || t[i + 1..] == "."
  {
    if i + 1 < |t| {
      var j := i + 1;
      assert t[j] != SEPARATOR;
      assert DotComponentAt(t, j);
      assert j + 1 == |t|;
      assert t[i + 1..] == [t[j]];
    }
  }

  /** A skippable tail without separators is empty. */
  lemma SkippableWithoutSeparator(t: string)
    requires Skippable(t)
    requires forall j :: 0 <= j < |t| ==> t[j] != SEPARATOR
    ensures t == []
  {
    if t != [] {
      SkippableStart(t);
    }
  }

  /** Appending a separator, or a `.` component, keeps a component last. */
  lemma ComponentAtExtend(q: string, name: string, k: nat, b: string)
    requires ComponentAt(q, name, k)
    requires b == [SEPARATOR] || b == [SEPARATOR, '.']
    ensures ComponentAt(q + b, name, k)
  {
    SkippableExtend(q[k + |name|..], b);
    assert (q + b)[k + |name|..] == q[k + |name|..] + b;
    assert (q + b)[k..k + |name|] == q[k..k + |name|];
  }

  /** A component followed only by skippable text is still last in a prefix
      that ends before the last separator. */
  lemma ComponentAtPrefix(p: string, name: string, k: nat, i: nat)
    requires ComponentAt(p, name, k)
    requires k + |name| <= i < |p|
    ensures ComponentAt(p[..i], name, k)
  {
    var tail := p[k + |name|..];
    SkippablePrefix(tail, i - k - |name|);
    assert p[..i][k + |name|..] == tail[..i - k - |name|];
    assert p[..i][k..k + |name|] == p[k..k + |name|];
  }

  /** Where the last separator of a path falls relative to its last
      component: just before it, or after it, where only `.` or nothing
      follows. */
  lemma LastSeparatorAroundComponent(p: string, name: string, k: nat, i: nat)
    requires ComponentAt(p, name, k) && name != [] && forall j :: 0 <= j < |name| ==> name[j] != SEPARATOR
    requires i < |p| && p[i] == SEPARATOR && forall j :: i < j < |p| ==> p[j] != SEPARATOR
    ensures (i + 1 == k && p[i + 1..] == name) || (k + |name| <= i && (p[i + 1..] == [] || p[i + 1..] == "."))
  {
    var tail := p[k + |name|..];
    if i < k {
      assert forall j :: 0 <= j < |tail| ==> tail[j] == p[j + k + |name|];
      SkippableWithoutSeparator(tail);
      assert p[k..] == p[k..k + |name|] + tail;
    } else if i < k + |name| {
      assert false;
    } else {
      var ti := i - k - |name|;
      assert tail[ti] == SEPARATOR;
      assert forall j :: ti < j < |tail| ==> tail[j] == p[j + k + |name|];
      SkippableLastSegment(tail, ti);
      assert tail[ti + 1..] == p[i + 1..];
    }
  }

  /** A path without separators that ends in a component is that component. */
  lemma ComponentWithoutSeparator(p: string, name: string, k: nat)
    requires ComponentAt(p, name, k)
    requires forall j :: 0 <= j < |p| ==> p[j] != SEPARATOR
    ensures k == 0 && p == name
  {
    var tail := p[k + |name|..];
    assert forall j :: 0 <= j < |tail| ==> tail[j] == p[j + k + |name|];
    SkippableWithoutSeparator(tail);
    assert p[k..] == p[k..k + |name|] + tail;
  }

  /** A whole path ends in itself as a component. */
  lemma ComponentAtWhole(p: string)
    ensures ComponentAt(p, p, 0)
  {
    assert p[0..|p|] == p && p[|p|..] == [];
  }

  /** What follows the last separator ends the path as a component. */
  lemma ComponentAtLastSegment(p: string, i: nat)
    requires i < |p| && p[i] == SEPARATOR
    ensures ComponentAt(p, p[i + 1..], i + 1)
  {
    var last := p[i + 1..];
    assert p[i + 1..i + 1 + |last|] == last && p[i + 1 + |last|..] == [];
  }

  /** A final empty or `.` segment keeps the last component last. */
  lemma ComponentAtAfterSkip(p: string, i: nat, name: string, k: nat)
    requires i < |p| && p[i] == SEPARATOR && (p[i + 1..] == [] || p[i + 1..] == ".")
    requires ComponentAt(p[..i], name, k)
    ensures ComponentAt(p, name, k)
  {
    var b := p[i..];
    assert b == [p[i]] + p[i + 1..];
    ComponentAtExtend(p[..i], name, k, b);
    assert p[..i] + b == p;
  }

  /** The file name, when there is one, is the last component of the path:
      only separators and `.` components follow it. */
  lemma {:induction false} FileNameIsLastComponent(p: string)
    ensures FileName(p).Some? ==> exists k: nat :: ComponentAt(p, FileName(p).value, k)
    decreases |p|
  {
    match LastIndexOf(p, SEPARATOR)
    case None =>
      ComponentAtWhole(p);
    case Some(i) =>
      var last := p[i + 1..];
      if last == "" || last == "." {
        FileNameIsLastComponent(p[..i]);
        if FileName(p).Some? {
          var k: nat :| ComponentAt(p[..i], FileName(p).value, k);
          ComponentAtAfterSkip(p, i, FileName(p).value, k);
        }
      } else {
        ComponentAtLastSegment(p, i);
      }
  }

  /** Conversely, a normal component followed only by separators and `.`
      components is the file name. */
  lemma {:induction false} FileNameFindsComponent(p: string, name: string, k: nat)
    requires IsNormalComponent(name) && ComponentAt(p, name, k)
    ensures FileName(p) == Some(name)
    decreases |p|
  {
    match LastIndexOf(p, SEPARATOR)
    case None =>
      ComponentWithoutSeparator(p, name, k);
    case Some(i) =>
      LastSeparatorAroundComponent(p, name, k, i);
      if k + |name| <= i {
        ComponentAtPrefix(p, name, k, i);
        FileNameFindsComponent(p[..i], name, k);
      }
  }

  /** A path of separators only, the empty one included, has no file name. */
  lemma {:induction false} RootHasNoFileName(p: string)
    requires forall j :: 0 <= j < |p| ==> p[j] == SEPARATOR
    ensures FileName(p).None?
    decreases |p|
  {
    match LastIndexOf(p, SEPARATOR)
    case None =>
      assert p == [];
    case Some(i) =>
      assert p[i + 1..] == [];
      RootHasNoFileName(p[..i]);
  }

  /** A path whose last component is `..` has no file name. */
  lemma {:induction false} ParentHasNoFileName(p: string, k: nat)
    requires ComponentAt(p, "..", k)
    ensures FileName(p).None?
    decreases |p|
  {
    match LastIndexOf(p, SEPARATOR)
    case None =>
      ComponentWithoutSeparator(p, "..", k);
    case Some(i) =>
      LastSeparatorAroundComponent(p, "..", k, i);
      if k + 2 <= i {
        ComponentAtPrefix(p, "..", k, i);
        ParentHasNoFileName(p[..i], k);
      }
  }

  /** Joining a normal component makes it the file name, whatever the base. */
  lemma FileNameOfJoin(base: string, name: string)
    requires IsNormalComponent(name)
    ensures FileName(Join(base, name)) == Some(name)
  {
    var p := Join(base, name);
    if base == [] {
      assert p == name;
    } else if base[|base| - 1] == SEPARATOR {
      assert p == base + name;
      LastIndexOfAppend(base, name, SEPARATOR);
      assert p[|base|..] == name;
    } else {
      assert p == (base + [SEPARATOR]) + name;
      LastIndexOfAppend(base + [SEPARATOR], name, SEPARATOR);
      assert p[|base| + 1..] == name;
    }
  }

  /** The extension part of a file name (`rsplit_file_at_dot`): the text after
      the last `.`, unless that dot is the first character (a hidden file such
      as `.bashrc` has none) or the name is `..`. */
  function Extension(fileName: string): (r: Option<string>)
    ensures r.None? <==> fileName == ".." || forall j :: 1 <= j < |fileName| ==> fileName[j] != '.'
    ensures r.Some? ==> |r.value| + 2 <= |fileName|
    ensures r.Some? ==> fileName[|fileName| - |r.value| - 1] == '.' && fileName[|fileName| - |r.value|..] == r.value
    ensures r.Some? ==> forall j :: 0 <= j < |r.value| ==> r.value[j] != '.'
  {
    if fileName == ".." then None
    else match LastIndexOf(fileName, '.')
      case None => None
      case Some(i) => if i == 0 then None else Some(fileName[i + 1..])
  }

  /** A name that ends in a dot and a dot-free text, with something before
      the dot, has that text as its extension. */
  lemma ExtensionOfDotSuffix(fileName: string, ext: string)
    requires |ext| + 2 <= |fileName| && fileName != ".."
    requires fileName[|fileName| - |ext| - 1] == '.' && fileName[|fileName| - |ext|..] == ext
    requires forall j :: 0 <= j < |ext| ==> ext[j] != '.'
    ensures Extension(fileName) == Some(ext)
  {
    var i := |fileName| - |ext| - 1;
    assert forall j :: i < j < |fileName| ==> fileName[j] == ext[j - i - 1];
  }

  /** `Path::extension`: the extension of the file name, if both exist. A
      path with no file name, or whose file name has no `.` after its first
      character, has none; otherwise it is the dot-free end of the file name
      after its last `.`. */
  function PathExtension(p: string): (r: Option<string>)
    ensures r.None? <==> FileName(p).None? || forall j :: 1 <= j < |FileName(p).value| ==> FileName(p).value[j] != '.'
    ensures r.Some? ==> var n := FileName(p).value;
      && |r.value| + 2 <= |n|
      && n[|n| - |r.value| - 1] == '.' && n[|n| - |r.value|..] == r.value
      && forall j :: 0 <= j < |r.value| ==> r.value[j] != '.'
  {
    match FileName(p)
    case None => None
    case Some(name) => Extension(name)
  }
}
