/**
 * The path logic of `GitInfo.highestGitDirPath`: split the path on the
 * separator, form the growing prefixes, probe each for a `.git` directory
 * and return the first prefix that is non-empty and has one.
 *
 * The file system is the set `hasGit` of directories whose `.git` is
 * accessible; `highestGitDirPath` runs the probes concurrently (GitInfo.js:278), but their results
 * are kept in prefix order, so the outcome is that of probing in order.
 */
module HighestGitDir {
  import opened Wrappers
  import opened ByteStrings

  /** `path.sep` on POSIX. */
  const Sep: byte := '/'

  /** `dirPath.split(sep)`, then the join of each leading run of parts. */
  function Candidates(dirPath: Bytes): (dirs: seq<Bytes>)
    ensures |dirs| == |Split(dirPath, Sep)|
  {
    var parts := Split(dirPath, Sep);
    seq(|parts|, i requires 0 <= i < |parts| => Join(parts[..i + 1], Sep))
  }

  /** The probe results: each candidate when it has `.git`, else `undefined`. */
  function Probe(dirs: seq<Bytes>, hasGit: set<Bytes>): (r: seq<Option<Bytes>>)
    ensures |r| == |dirs|
    ensures forall i :: 0 <= i < |dirs| ==> (r[i].Some? <==> dirs[i] in hasGit)
    ensures forall i :: 0 <= i < |dirs| && r[i].Some? ==> r[i].value == dirs[i]
  {
    seq(|dirs|, i requires 0 <= i < |dirs| => if dirs[i] in hasGit then Some(dirs[i]) else None)
  }

  /** `xs.find(dir => !!dir)`: the first defined, non-empty entry. */
  function FindTruthy(xs: seq<Option<Bytes>>): (r: Option<Bytes>)
    ensures r.None? <==> forall i :: 0 <= i < |xs| ==> Falsy(xs[i])
    ensures r.Some? ==> exists i :: 0 <= i < |xs| && xs[i] == r && r.value != []
                                    && forall j :: 0 <= j < i ==> Falsy(xs[j])
  {
    if |xs| == 0 then None
    else if !Falsy(xs[0]) then xs[0]
    else
      var r := FindTruthy(xs[1..]);
      assert forall i :: 1 <= i < |xs| ==> xs[i] == xs[1..][i - 1];
      r
  }

  /**
   * `highestGitDirPath(dirPath)`: `undefined`, or a non-empty directory that
   * `dirPath` starts with and that has `.git`.
   */
  function HighestGitDirPath(dirPath: Bytes, hasGit: set<Bytes>): (r: Option<Bytes>)
    ensures r.None? || r.value != []
    ensures r.Some? ==> StartsWith(dirPath, r.value) && r.value in hasGit
  {
    CandidatesShape(dirPath);
    FindTruthy(Probe(Candidates(dirPath), hasGit))
  }

  /** `k` is where a prefix of `s` ends at a separator, or the end of `s`. */
  predicate IsBoundary(s: Bytes, k: int) {
    0 <= k <= |s| && (k == |s| || s[k] == Sep)
  }

  /** The first `i + 1` parts of a string and of that string extended. */
  lemma SplitPrefixStable(s: Bytes, i: int)
    requires |s| > 0
    requires var init := Split(s[..|s| - 1], Sep);
      0 <= i < (if s[|s| - 1] == Sep then |init| else |init| - 1)
    ensures Split(s, Sep)[..i + 1] == Split(s[..|s| - 1], Sep)[..i + 1]
  {
  }

  /** The last candidate is the whole path. */
  lemma CandidatesLast(s: Bytes)
    ensures Candidates(s)[|Candidates(s)| - 1] == s
  {
    var parts := Split(s, Sep);
    var c := Candidates(s);
    assert c[|c| - 1] == Join(parts[..|parts|], Sep);
    assert parts[..|parts|] == parts;
    JoinSplit(s, Sep);
  }

  /**
   * How the candidates change when a byte is appended: a separator adds the
   * whole new path as a further candidate; any other byte replaces the last
   * candidate by the whole new path.
   */
  lemma CandidatesStep(s: Bytes)
    requires |s| > 0
    ensures var c := Candidates(s); var c' := Candidates(s[..|s| - 1]);
      if s[|s| - 1] == Sep then
        |c| == |c'| + 1 && c[..|c'|] == c'
      else
        |c| == |c'| && c[..|c'| - 1] == c'[..|c'| - 1]
    ensures Candidates(s)[|Candidates(s)| - 1] == s
  {
    var c := Candidates(s);
    var c' := Candidates(s[..|s| - 1]);
    var parts := Split(s, Sep);
    var parts' := Split(s[..|s| - 1], Sep);
    if s[|s| - 1] == Sep {
      assert |parts| == |parts'| + 1;
      forall i | 0 <= i < |c'|
        ensures c[i] == c'[i]
      {
        SplitPrefixStable(s, i);
      }
    } else {
      assert |parts| == |parts'|;
      forall i | 0 <= i < |c'| - 1
        ensures c[i] == c'[i]
      {
        SplitPrefixStable(s, i);
      }
    }
    CandidatesLast(s);
  }

  /** Every candidate is the prefix of `s` up to a boundary. */
  lemma {:induction false} CandidatesArePrefixes(s: Bytes)
    ensures forall i :: 0 <= i < |Candidates(s)| ==>
      IsBoundary(s, |Candidates(s)[i]|) && Candidates(s)[i] == s[..|Candidates(s)[i]|]
    decreases |s|
  {
    var c := Candidates(s);
    if |s| == 0 {
      CandidatesLast(s);
      assert |c| == 1;
    } else {
      var s' := s[..|s| - 1];
      var c' := Candidates(s');
      CandidatesArePrefixes(s');
      CandidatesIncrease(s');
      CandidatesLast(s');
      CandidatesStep(s);
      var m := if s[|s| - 1] == Sep then |c'| else |c'| - 1;
      forall i | 0 <= i < |c|
        ensures IsBoundary(s, |c[i]|) && c[i] == s[..|c[i]|]
      {
        if i < m {
          var k := |c'[i]|;
          assert c[i] == c'[i];
          assert s'[..k] == s[..k];
          if k < |s'| {
            assert s[k] == s'[k];
          }
        } else {
          assert i == |c| - 1;
        }
      }
    }
  }

  /** The candidates grow strictly longer. */
  lemma {:induction false} CandidatesIncrease(s: Bytes)
    ensures forall i, j :: 0 <= i < j < |Candidates(s)| ==> |Candidates(s)[i]| < |Candidates(s)[j]|
    decreases |s|
  {
    var c := Candidates(s);
    if |s| > 0 {
      var s' := s[..|s| - 1];
      var c' := Candidates(s');
      CandidatesIncrease(s');
      CandidatesArePrefixes(s');
      CandidatesStep(s);
      var m := if s[|s| - 1] == Sep then |c'| else |c'| - 1;
      assert forall i :: 0 <= i < m ==> c[i] == c'[i];
      assert forall i :: 0 <= i < m ==> |c[i]| < |s|;
    }
  }

  /** Every prefix of `s` up to a boundary is a candidate. */
  lemma {:induction false} BoundaryPrefixesAreCandidates(s: Bytes)
    ensures forall k :: IsBoundary(s, k) ==> s[..k] in Candidates(s)
    decreases |s|
  {
    var c := Candidates(s);
    if |s| == 0 {
      CandidatesLast(s);
      assert |c| == 1;
    } else {
      var s' := s[..|s| - 1];
      var c' := Candidates(s');
      BoundaryPrefixesAreCandidates(s');
      CandidatesStep(s);
      CandidatesLast(s');
      var m := if s[|s| - 1] == Sep then |c'| else |c'| - 1;
      forall k | IsBoundary(s, k)
        ensures s[..k] in c
      {
        if k == |s| {
          assert s[..k] == c[|c| - 1];
        } else if k == |s'| {
          assert s[..k] == s' == c'[|c'| - 1] == c[|c'| - 1];
        } else {
          assert IsBoundary(s', k);
          assert s'[..k] == s[..k];
          var i :| 0 <= i < |c'| && c'[i] == s'[..k];
          assert i < m;
          assert c[i] == c'[i];
        }
      }
    }
  }

  /**
   * The candidates are exactly the prefixes of `s` that end at a boundary,
   * listed by increasing length.
   */
  lemma CandidatesShape(s: Bytes)
    ensures forall i :: 0 <= i < |Candidates(s)| ==>
      IsBoundary(s, |Candidates(s)[i]|) && Candidates(s)[i] == s[..|Candidates(s)[i]|]
    ensures forall i, j :: 0 <= i < j < |Candidates(s)| ==> |Candidates(s)[i]| < |Candidates(s)[j]|
    ensures forall k :: IsBoundary(s, k) ==> s[..k] in Candidates(s)
  {
    CandidatesArePrefixes(s);
    CandidatesIncrease(s);
    BoundaryPrefixesAreCandidates(s);
  }

  /**
   * The result is the shallowest non-empty boundary prefix of `dirPath` that
   * has `.git`, and `undefined` exactly when there is none.
   */
  lemma HighestGitDirPathIsShallowest(dirPath: Bytes, hasGit: set<Bytes>)
    ensures var r := HighestGitDirPath(dirPath, hasGit);
      r.Some? ==>
        && IsBoundary(dirPath, |r.value|)
        && r.value == dirPath[..|r.value|]
        && forall k :: 0 < k < |r.value| && IsBoundary(dirPath, k) ==> dirPath[..k] !in hasGit
    ensures HighestGitDirPath(dirPath, hasGit).None? <==>
      forall k :: 0 < k && IsBoundary(dirPath, k) ==> dirPath[..k] !in hasGit
  {
    FoundIsShallowest(dirPath, hasGit);
    NotFoundExactly(dirPath, hasGit);
  }

  /** A found directory is a boundary prefix, and no shorter one has `.git`. */
  lemma FoundIsShallowest(dirPath: Bytes, hasGit: set<Bytes>)
    ensures var r := HighestGitDirPath(dirPath, hasGit);
      r.Some? ==>
        && IsBoundary(dirPath, |r.value|)
        && r.value == dirPath[..|r.value|]
        && forall k :: 0 < k < |r.value| && IsBoundary(dirPath, k) ==> dirPath[..k] !in hasGit
  {
    var c := Candidates(dirPath);
    var probes := Probe(c, hasGit);
    var r := FindTruthy(probes);
    if r.Some? {
      var i :| 0 <= i < |probes| && probes[i] == r && r.value != []
               && forall j :: 0 <= j < i ==> Falsy(probes[j]);
      assert c[i] == r.value;
      CandidatesArePrefixes(dirPath);
      forall k | 0 < k < |r.value| && IsBoundary(dirPath, k)
        ensures dirPath[..k] !in hasGit
      {
        var j := CandidateIndex(dirPath, k);
        ShorterCandidateEarlier(dirPath, i, j);
        assert Falsy(probes[j]);
      }
    }
  }

  /** The index of the candidate that is the boundary prefix of length `k`. */
  lemma CandidateIndex(s: Bytes, k: int) returns (j: int)
    requires IsBoundary(s, k)
    ensures 0 <= j < |Candidates(s)| && Candidates(s)[j] == s[..k]
  {
    BoundaryPrefixesAreCandidates(s);
    j :| 0 <= j < |Candidates(s)| && Candidates(s)[j] == s[..k];
  }

  /** A shorter candidate comes earlier. */
  lemma ShorterCandidateEarlier(s: Bytes, i: int, j: int)
    requires 0 <= i < |Candidates(s)| && 0 <= j < |Candidates(s)|
    requires |Candidates(s)[j]| < |Candidates(s)[i]|
    ensures j < i
  {
    CandidatesIncrease(s);
  }

  /** Nothing is found exactly when no non-empty boundary prefix has `.git`. */
  lemma NotFoundExactly(dirPath: Bytes, hasGit: set<Bytes>)
    ensures HighestGitDirPath(dirPath, hasGit).None? <==>
      forall k :: 0 < k && IsBoundary(dirPath, k) ==> dirPath[..k] !in hasGit
  {
    var c := Candidates(dirPath);
    var probes := Probe(c, hasGit);
    if HighestGitDirPath(dirPath, hasGit).None? {
      BoundaryPrefixesAreCandidates(dirPath);
      forall k | 0 < k && IsBoundary(dirPath, k)
        ensures dirPath[..k] !in hasGit
      {
        var j :| 0 <= j < |c| && c[j] == dirPath[..k];
        assert Falsy(probes[j]);
      }
    }
    if forall k :: 0 < k && IsBoundary(dirPath, k) ==> dirPath[..k] !in hasGit {
      CandidatesArePrefixes(dirPath);
      forall i | 0 <= i < |probes|
        ensures Falsy(probes[i])
      {
        assert IsBoundary(dirPath, |c[i]|);
      }
    }
  }

  /**
   * The root `/` is a candidate only for the path `/` itself or a path that
   * starts with `//`: below it, splitting an absolute path yields an empty
   * first part, whose candidate `""` the search skips.
   */
  lemma RootIsCandidateOnlyForRoot(dirPath: Bytes)
    ensures [Sep] in Candidates(dirPath) ==>
      dirPath == [Sep] || (|dirPath| >= 2 && dirPath[0] == Sep && dirPath[1] == Sep)
  {
    CandidatesShape(dirPath);
  }

  /** So for a path like `/a/b` the root is never returned, whatever has `.git`. */
  lemma RootNeverFoundBelowRoot(dirPath: Bytes, hasGit: set<Bytes>)
    requires |dirPath| >= 2 && dirPath[0] == Sep && dirPath[1] != Sep
    ensures HighestGitDirPath(dirPath, hasGit) != Some([Sep])
  {
    HighestGitDirPathIsShallowest(dirPath, hasGit);
    CandidatesShape(dirPath);
  }
}
