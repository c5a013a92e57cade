/**
 * The pure slices of `GitInfo.create`: deciding whether a file status is a
 * change (`GitInfo.isNotClean`), collecting the set of changed paths, and
 * reading the branch name out of the current reference's full name.
 */
module GitStatus {
  import opened Wrappers
  import opened ByteStrings
  import opened InsertionSets

  /** The flags of one file status that the core reads, and its path. */
  datatype Status = Status(
    path: Bytes,
    isNew: bool,
    isModified: bool,
    isTypechange: bool,
    isRenamed: bool,
    isDeleted: bool,
    isIgnored: bool)

  /** An ignored status carries none of the five change flags. */
  predicate IgnoredAlone(s: Status) {
    s.isIgnored ==> !(s.isNew || s.isModified || s.isTypechange || s.isRenamed || s.isDeleted)
  }

  /**
   * `GitInfo.isNotClean`: each of the five change flags makes a status dirty,
   * and a status with none of them is clean. The ignored flag is never read,
   * so an ignored status is clean only when it carries no change flag.
   */
  function IsNotClean(s: Status): (r: bool)
    ensures s.isNew ==> r
    ensures s.isModified ==> r
    ensures s.isTypechange ==> r
    ensures s.isRenamed ==> r
    ensures s.isDeleted ==> r
    // the post for ignored statuses (GitInfo.js:303), restricted to statuses
    // without a change flag, since the body never reads `isIgnored`
    ensures s.isIgnored && IgnoredAlone(s) ==> !r
    ensures !(s.isNew || s.isModified || s.isTypechange || s.isRenamed || s.isDeleted) ==> !r
  {
    s.isNew || s.isModified || s.isTypechange || s.isRenamed || s.isDeleted
  }

  /**
   * The promise that an ignored status is never dirty fails for a status that
   * is both ignored and new.
   */
  lemma IgnoredAndNewIsNotClean(path: Bytes)
    ensures var s := Status(path, true, false, false, false, false, true);
      s.isIgnored && IsNotClean(s)
  {
  }

  /**
   * For a status that is both new and ignored, the posts of `isNotClean` at
   * GitInfo.js:298 (new means dirty) and 303 (ignored means clean) exclude
   * each other, whatever the result: no body can meet both.
   */
  lemma NewAndIgnoredPostsClash(s: Status, r: bool)
    requires s.isNew && s.isIgnored
    ensures !((!s.isNew || r) && (!s.isIgnored || !r))
  {
  }

  /** `statuses.filter(isNotClean).map(status => status.path())`. */
  function DirtyPaths(statuses: seq<Status>): (r: seq<Bytes>)
    ensures |r| <= |statuses|
    ensures forall p :: p in r <==>
      exists i :: 0 <= i < |statuses| && IsNotClean(statuses[i]) && statuses[i].path == p
  {
    if |statuses| == 0 then []
    else
      var init := statuses[..|statuses| - 1];
      var last := statuses[|statuses| - 1];
      assert forall i :: 0 <= i < |init| ==> init[i] == statuses[i];
      DirtyPaths(init) + (if IsNotClean(last) then [last.path] else [])
  }

  /**
   * The `changes` of `create`: the set of the paths of the dirty statuses,
   * each path once.
   */
  function Changes(statuses: seq<Status>): (r: seq<Bytes>)
    ensures Distinct(r)
    ensures forall p :: p in r <==>
      exists i :: 0 <= i < |statuses| && IsNotClean(statuses[i]) && statuses[i].path == p
  {
    FromSeq(DirtyPaths(statuses))
  }

  /** The literal prefix of `GitInfo.gitRefsPattern`. */
  const RefsHeads: Bytes := "refs/heads/"

  /** A JavaScript line terminator in UTF-8: LF, CR, U+2028 or U+2029. */
  predicate LineTerminatorAt(s: Bytes, i: int)
    requires 0 <= i < |s|
  {
    s[i] == '\n' || s[i] == '\r'
    || (i + 2 < |s| && s[i] == 0xE2 as char && s[i + 1] == 0x80 as char
        && (s[i + 2] == 0xA8 as char || s[i + 2] == 0xA9 as char))
  }

  /** `.` in a JavaScript regular expression matches every byte of `s`. */
  predicate DotMatchesAll(s: Bytes) {
    forall i :: 0 <= i < |s| ==> !LineTerminatorAt(s, i)
  }

  /**
   * `gitRefsPattern.exec(name)[1]`: the branch name behind `refs/heads/`.
   * `None` when the pattern does not match (for a detached `HEAD`, say); the
   * `create` (GitInfo.js:338) then reads a group of `null`, which throws.
   */
  function BranchName(refName: Bytes): (r: Option<Bytes>)
    ensures r.Some? <==> StartsWith(refName, RefsHeads) && DotMatchesAll(refName[|RefsHeads|..])
    ensures r.Some? ==> refName == RefsHeads + r.value
  {
    if StartsWith(refName, RefsHeads) && DotMatchesAll(refName[|RefsHeads|..]) then
      assert refName == RefsHeads + refName[|RefsHeads|..];
      Some(refName[|RefsHeads|..])
    else None
  }

  /** The full reference name of a branch gives the branch back. */
  lemma BranchNameOfRef(branch: Bytes)
    requires DotMatchesAll(branch)
    ensures BranchName(RefsHeads + branch) == Some(branch)
  {
    assert (RefsHeads + branch)[..|RefsHeads|] == RefsHeads;
    assert (RefsHeads + branch)[|RefsHeads|..] == branch;
  }
}
