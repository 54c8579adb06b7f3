/** The functions of Go's `strings` package that the core calls. A Go string is a
    byte string; a Dafny `string` stands for it here, one char per byte. */
module GoStrings {

  /** strings.HasPrefix */
  predicate HasPrefix(s: string, prefix: string) {
    |prefix| <= |s| && s[..|prefix|] == prefix
  }

  /** strings.HasSuffix */
  predicate HasSuffix(s: string, suffix: string) {
    |suffix| <= |s| && s[|s| - |suffix|..] == suffix
  }

  /** An occurrence of `sub` starts at index `i` of `s`. */
  predicate OccursAt(s: string, sub: string, i: int) {
    0 <= i && i + |sub| <= |s| && s[i..i + |sub|] == sub
  }

  /** strings.Contains */
  predicate Contains(s: string, sub: string) {
    exists i :: 0 <= i <= |s| - |sub| && OccursAt(s, sub, i)
  }

  /** strings.Index: the first index at which `sub` occurs in `s`, or -1. */
  function Index(s: string, sub: string): (r: int)
    ensures r == -1 || OccursAt(s, sub, r)
    ensures r == -1 <==> !Contains(s, sub)
    ensures forall j :: 0 <= j < r ==> !OccursAt(s, sub, j)
  {
    IndexFrom(s, sub, 0)
  }

  /** The first index not below `k` at which `sub` occurs in `s`, or -1. */
  function IndexFrom(s: string, sub: string, k: nat): (r: int)
    ensures r == -1 || (k <= r && OccursAt(s, sub, r))
    ensures forall j :: k <= j && (r == -1 || j < r) ==> !OccursAt(s, sub, j)
    decreases |s| - k
  {
    if k + |sub| > |s| then -1
    else if s[k..k + |sub|] == sub then k
    else IndexFrom(s, sub, k + 1)
  }

  /** strings.ReplaceAll(s, pat, ""): every occurrence of `pat` found scanning left to
      right, each search resuming after the previous occurrence, is deleted. When `pat`
      is empty Go returns `s` unchanged (pat == new). */
  function RemoveAll(s: string, pat: string): (r: string)
    ensures |r| <= |s|
    decreases |s|
  {
    if pat == "" || |s| == 0 then s
    else if HasPrefix(s, pat) then RemoveAll(s[|pat|..], pat)
    else [s[0]] + RemoveAll(s[1..], pat)
  }

  /** Removing an occurrence always shortens the string. */
  lemma {:induction false} RemoveAllShrinks(s: string, pat: string)
    requires pat != "" && Contains(s, pat)
    ensures |RemoveAll(s, pat)| < |s|
  {
    if !HasPrefix(s, pat) {
      var i :| 0 <= i <= |s| - |pat| && OccursAt(s, pat, i);
      assert !OccursAt(s, pat, 0) by {
        assert s[0..|pat|] == s[..|pat|];
      }
      assert OccursAt(s[1..], pat, i - 1) by {
        assert s[1..][i - 1..i - 1 + |pat|] == s[i..i + |pat|];
      }
      RemoveAllShrinks(s[1..], pat);
    }
  }

  /** A removal leaves the string unchanged exactly when there is nothing to remove. */
  lemma {:induction false} RemoveAllUnchanged(s: string, pat: string)
    ensures RemoveAll(s, pat) == s <==> (pat == "" || !Contains(s, pat))
  {
    if pat != "" && Contains(s, pat) {
      RemoveAllShrinks(s, pat);
    } else if pat != "" && |s| > 0 {
      assert !HasPrefix(s, pat) by {
        if |pat| <= |s| {
          assert !OccursAt(s, pat, 0);
          assert s[0..|pat|] == s[..|pat|];
        }
      }
      assert !Contains(s[1..], pat) by {
        forall i | 0 <= i <= |s[1..]| - |pat| ensures !OccursAt(s[1..], pat, i) {
          assert s[1..][i..i + |pat|] == s[i + 1..i + 1 + |pat|];
          assert !OccursAt(s, pat, i + 1);
        }
      }
      RemoveAllUnchanged(s[1..], pat);
      assert s == [s[0]] + s[1..];
    }
  }

  /** strings.Split for a non-empty separator: the pieces between successive leftmost
      occurrences of `sep`. */
  function Split(s: string, sep: string): (parts: seq<string>)
    requires sep != ""
    ensures |parts| >= 1
    decreases |s|
  {
    var i := Index(s, sep);
    if i == -1 then [s] else [s[..i]] + Split(s[i + |sep|..], sep)
  }

  /** strings.Join */
  function Join(parts: seq<string>, sep: string): string {
    if parts == [] then ""
    else if |parts| == 1 then parts[0]
    else parts[0] + sep + Join(parts[1..], sep)
  }

  /** Joining the pieces with the separator gives back the original string. */
  lemma {:induction false} SplitJoin(s: string, sep: string)
    requires sep != ""
    ensures Join(Split(s, sep), sep) == s
    decreases |s|
  {
    if Index(s, sep) != -1 {
      SplitJoin(AfterFirst(s, sep), sep);
      SplitJoinStep(s, sep);
    }
  }

  /** The round trip holds for `s` once it holds for the text after the first
      occurrence. */
  lemma SplitJoinStep(s: string, sep: string)
    requires sep != "" && Index(s, sep) != -1
    requires Join(Split(AfterFirst(s, sep), sep), sep) == AfterFirst(s, sep)
    ensures Join(Split(s, sep), sep) == s
  {
    var i := Index(s, sep);
    var parts := Split(AfterFirst(s, sep), sep);
    SplitFound(s, sep);
    JoinCons(s[..i], parts, sep);
    SliceAround(s, i, |sep|);
  }

  lemma SliceAround(s: string, i: nat, n: nat)
    requires i + n <= |s|
    ensures s == s[..i] + s[i..i + n] + s[i + n..]
  {
  }

  lemma JoinCons(head: string, parts: seq<string>, sep: string)
    requires |parts| >= 1
    ensures Join([head] + parts, sep) == head + sep + Join(parts, sep)
  {
    assert ([head] + parts)[1..] == parts;
  }

  /** No piece contains the separator. */
  lemma {:induction false} SplitPiecesFree(s: string, sep: string, k: nat)
    requires sep != "" && k < |Split(s, sep)|
    ensures !Contains(Split(s, sep)[k], sep)
    decreases |s|
  {
    var i := Index(s, sep);
    if i == -1 {
      assert Split(s, sep) == [s];
    } else {
      var rest := s[i + |sep|..];
      assert Split(s, sep) == [s[..i]] + Split(rest, sep);
      if k == 0 {
        PrefixBeforeIndexFree(s, sep);
      } else {
        SplitPiecesFree(rest, sep, k - 1);
      }
    }
  }

  /** What precedes the first occurrence does not contain the separator. */
  lemma PrefixBeforeIndexFree(s: string, sep: string)
    requires sep != "" && Index(s, sep) != -1
    ensures !Contains(s[..Index(s, sep)], sep)
  {
    var i := Index(s, sep);
    var p := s[..i];
    forall j | 0 <= j <= |p| - |sep| ensures !OccursAt(p, sep, j) {
      assert p[j..j + |sep|] == s[j..j + |sep|];
      assert !OccursAt(s, sep, j);
    }
  }

  /** There is more than one piece exactly when the separator occurs. */
  lemma SplitCount(s: string, sep: string)
    requires sep != ""
    ensures |Split(s, sep)| > 1 <==> Contains(s, sep)
  {
  }

  /** strings.ReplaceAll(s, pat, "") agrees with its other reading: split `s` at the
      occurrences of `pat` and join the pieces back with nothing between them. */
  lemma {:induction false} RemoveAllIsJoinOfSplit(s: string, pat: string)
    requires pat != ""
    ensures RemoveAll(s, pat) == Join(Split(s, pat), "")
    decreases |s|, 1
  {
    if Index(s, pat) == -1 {
      RemoveAllUnchanged(s, pat);
    } else {
      RemoveAllIsJoinOfSplitFound(s, pat);
    }
  }

  lemma {:induction false} RemoveAllIsJoinOfSplitFound(s: string, pat: string)
    requires pat != "" && Index(s, pat) != -1
    ensures RemoveAll(s, pat) == Join(Split(s, pat), "")
    decreases |s|, 0
  {
    var rest := AfterFirst(s, pat);
    RemoveAllIsJoinOfSplit(rest, pat);
    JoinOfSplitStep(s, pat);
  }

  /** The text after the first occurrence of `pat`. */
  function AfterFirst(s: string, pat: string): (rest: string)
    requires Index(s, pat) != -1
    ensures |rest| < |s| || pat == ""
  {
    s[Index(s, pat) + |pat|..]
  }

  /** The identity holds for `s` once it holds for the text after the first occurrence. */
  lemma JoinOfSplitStep(s: string, pat: string)
    requires pat != "" && Index(s, pat) != -1
    requires RemoveAll(AfterFirst(s, pat), pat) == Join(Split(AfterFirst(s, pat), pat), "")
    ensures RemoveAll(s, pat) == Join(Split(s, pat), "")
  {
    var i := Index(s, pat);
    var rest := AfterFirst(s, pat);
    SplitFound(s, pat);
    RemoveBefore(s, pat, i);
    JoinFront(s[..i], RemoveAll(rest, pat), Split(rest, pat));
  }

  /** Joining with nothing between: a piece in front adds its text in front. */
  lemma JoinFront(head: string, joined: string, parts: seq<string>)
    requires |parts| >= 1 && joined == Join(parts, "")
    ensures Join([head] + parts, "") == head + joined
  {
    JoinCons(head, parts, "");
    assert head + "" == head;
  }

  /** A split at a separator that occurs: the piece before its first occurrence, then
      the split of the rest. */
  lemma SplitFound(s: string, sep: string)
    requires sep != "" && Index(s, sep) != -1
    ensures Split(s, sep) == [s[..Index(s, sep)]] + Split(s[Index(s, sep) + |sep|..], sep)
  {
  }

  /** With no occurrence of `pat` before index i and one at i, the removal copies
      s[..i] and resumes after that occurrence. */
  lemma {:induction false} RemoveBefore(s: string, pat: string, i: nat)
    requires pat != "" && OccursAt(s, pat, i)
    requires forall j :: 0 <= j < i ==> !OccursAt(s, pat, j)
    ensures RemoveAll(s, pat) == s[..i] + RemoveAll(s[i + |pat|..], pat)
    decreases i
  {
    if i == 0 {
      RemoveAtStart(s, pat);
    } else {
      RemoveBeforeStep(s, pat, i);
      RemoveBefore(s[1..], pat, i - 1);
      PrefixCons(s, i, RemoveAll(s[i + |pat|..], pat));
    }
  }

  /** A prefix of `s` after its first character, put back behind that character. */
  lemma PrefixCons(s: string, i: nat, r: string)
    requires 0 < i <= |s|
    ensures [s[0]] + (s[1..][..i - 1] + r) == s[..i] + r
  {
    assert s[..i] == [s[0]] + s[1..][..i - 1];
    ConsAppend(s[0], s[1..][..i - 1], r);
  }

  /** An occurrence at the start is dropped. */
  lemma RemoveAtStart(s: string, pat: string)
    requires pat != "" && OccursAt(s, pat, 0)
    ensures RemoveAll(s, pat) == s[..0] + RemoveAll(s[0 + |pat|..], pat)
  {
    assert HasPrefix(s, pat) by {
      assert s[..|pat|] == s[0..|pat|];
    }
    assert s[..0] + RemoveAll(s[|pat|..], pat) == RemoveAll(s[|pat|..], pat);
  }

  /** Before the first occurrence the removal copies one character and goes on with
      the rest, where the occurrence is one index earlier. */
  lemma RemoveBeforeStep(s: string, pat: string, i: nat)
    requires pat != "" && 0 < i && OccursAt(s, pat, i)
    requires forall j :: 0 <= j < i ==> !OccursAt(s, pat, j)
    ensures RemoveAll(s, pat) == [s[0]] + RemoveAll(s[1..], pat)
    ensures OccursAt(s[1..], pat, i - 1)
    ensures forall j :: 0 <= j < i - 1 ==> !OccursAt(s[1..], pat, j)
    ensures s[1..][i - 1 + |pat|..] == s[i + |pat|..]
  {
    assert !HasPrefix(s, pat) by {
      assert !OccursAt(s, pat, 0);
      assert s[..|pat|] == s[0..|pat|];
    }
    var u := s[1..];
    assert u[i - 1..i - 1 + |pat|] == s[i..i + |pat|];
    forall j | 0 <= j < i - 1
      ensures !OccursAt(u, pat, j)
    {
      assert !OccursAt(s, pat, j + 1);
      assert u[j..j + |pat|] == s[j + 1..j + 1 + |pat|];
    }
  }

  lemma ConsAppend(c: char, a: string, b: string)
    ensures [c] + (a + b) == ([c] + a) + b
  {
  }
}
