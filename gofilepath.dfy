/** The functions of Go's `path/filepath` package that the core calls, for a Unix
    host (separator '/', no volume names). */
module GoFilepath {
  import opened GoStrings

  /** filepath.Base: the last element of `path` once trailing slashes are dropped;
      "." for the empty path and "/" for a path of slashes only. */
  function Base(path: string): (r: string)
    ensures r != ""
    ensures '/' in r ==> r == "/"
  {
    if path == "" then "."
    else
      var last := LastElement(TrimTrailingSlashes(path));
      if last == "" then "/" else last
  }

  /** `path` without its trailing slashes. */
  function TrimTrailingSlashes(path: string): (r: string)
    ensures |r| <= |path| && r == path[..|r|]
    ensures r == "" || r[|r| - 1] != '/'
    ensures forall k :: |r| <= k < |path| ==> path[k] == '/'
  {
    if path == "" || path[|path| - 1] != '/' then path
    else TrimTrailingSlashes(path[..|path| - 1])
  }

  /** The part of `path` after its last slash. */
  function LastElement(path: string): (r: string)
    ensures |r| <= |path| && r == path[|path| - |r|..]
    ensures '/' !in r
    ensures r == path || path[|path| - |r| - 1] == '/'
  {
    if path == "" || path[|path| - 1] == '/' then ""
    else
      var init := path[..|path| - 1];
      var c := path[|path| - 1];
      var r := LastElement(init);
      assert path == init + [c];
      ExtendElement(init, c, r);
      r + [c]
  }

  /** The slash-free suffix after the last slash grows with a non-slash character. */
  lemma ExtendElement(init: string, c: char, r: string)
    requires c != '/' && |r| <= |init| && r == init[|init| - |r|..] && '/' !in r
    requires r == init || init[|init| - |r| - 1] == '/'
    ensures var p := init + [c];
      && |r + [c]| <= |p| && r + [c] == p[|p| - |r + [c]|..] && '/' !in r + [c]
      && (r + [c] == p || p[|p| - |r + [c]| - 1] == '/')
  {
    var p := init + [c];
    assert p[|p| - |r| - 1..] == init[|init| - |r|..] + [c];
    assert r != init ==> p[|p| - |r| - 2] == init[|init| - |r| - 1];
  }

  /** The base of a path whose last element is `elem` is `elem`. */
  lemma {:induction false} BaseOfElement(dir: string, elem: string)
    requires elem != "" && '/' !in elem
    requires dir == "" || dir[|dir| - 1] == '/'
    ensures Base(dir + elem) == elem
  {
    var p := dir + elem;
    assert p[|p| - 1] == elem[|elem| - 1];
    assert TrimTrailingSlashes(p) == p;
    LastElementOf(dir, elem);
  }

  lemma LastElementSnoc(q: string, c: char)
    requires c != '/'
    ensures LastElement(q + [c]) == LastElement(q) + [c]
  {
    assert (q + [c])[..|q|] == q;
  }

  lemma {:induction false} LastElementOf(dir: string, elem: string)
    requires '/' !in elem
    requires dir == "" || dir[|dir| - 1] == '/'
    ensures LastElement(dir + elem) == elem
    decreases |elem|
  {
    var p := dir + elem;
    if elem == [] {
      assert p == dir;
    } else {
      var init, c := elem[..|elem| - 1], elem[|elem| - 1];
      assert elem == init + [c];
      assert '/' !in init && c != '/' by {
        assert c in elem;
        assert forall x :: x in init ==> x in elem;
      }
      assert p == (dir + init) + [c];
      LastElementSnoc(dir + init, c);
      LastElementOf(dir, init);
    }
  }

  /** filepath.Ext: the suffix of `path` from the last dot of its last element, or "". */
  function Ext(path: string): (r: string)
    ensures r == "" || (r[0] == '.' && HasSuffix(path, r))
  {
    ExtBefore(path, |path|)
  }

  /** The extension found scanning `path[..i]` backwards. */
  function ExtBefore(path: string, i: nat): (r: string)
    requires i <= |path|
    ensures r == "" || (r[0] == '.' && HasSuffix(path, r))
    decreases i
  {
    if i == 0 || path[i - 1] == '/' then ""
    else if path[i - 1] == '.' then path[i - 1..]
    else ExtBefore(path, i - 1)
  }

  /** A path has extension ".go" exactly when it ends in ".go". */
  lemma ExtGo(path: string)
    ensures Ext(path) == ".go" <==> HasSuffix(path, ".go")
  {
    if HasSuffix(path, ".go") {
      var n := |path|;
      assert path[n - 3..] == ".go";
      assert path[n - 1] == 'o' && path[n - 2] == 'g' && path[n - 3] == '.';
      assert ExtBefore(path, n - 2) == path[n - 3..];
      assert ExtBefore(path, n - 1) == ExtBefore(path, n - 2);
      assert ExtBefore(path, n) == ExtBefore(path, n - 1);
    }
  }
}
