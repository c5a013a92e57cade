/**
 * The `GitInfo` value object: six raw facts about a git working copy, the
 * values derived from them, the serialisable record (`toJSON`) and the
 * invariants that tie all of them together.
 */
module GitInfo {
  import opened Wrappers
  import opened ByteStrings
  import opened InsertionSets
  import opened Querystring
  import opened EnvironmentName

  const MasterBranchName: Bytes := "master"
  const DefaultEnvironmentName: Bytes := "default"

  /** Branches whose name holds one of these are precious. */
  const PreciousBranchNameFragments: seq<Bytes> := ["prod", "staging", "stage", "test"]

  /** `GitInfo.shaRegExp`, `/^[a-f0-9]{40}$/`. */
  predicate IsSha(s: Bytes) {
    |s| == 40 && forall i :: 0 <= i < |s| ==> ('a' <= s[i] <= 'f' || '0' <= s[i] <= '9')
  }

  /**
   * The stored state of a `GitInfo`. `changes` is a JavaScript `Set`, held in
   * iteration order.
   */
  datatype GitInfo = GitInfo(
    path: Bytes,
    sha: Bytes,
    branch: Option<Bytes>,
    originUrl: Option<Bytes>,
    changes: seq<Bytes>,
    originBranchSha: Option<Bytes>)

  /** `GitInfo.constructorContract.pre` (GitInfo.js:221-234). */
  predicate ConstructorPre(path: Bytes, sha: Bytes, branch: Option<Bytes>, originUrl: Option<Bytes>,
                           changes: seq<Bytes>, originBranchSha: Option<Bytes>) {
    && path != []
    && IsSha(sha)
    && Distinct(changes)
    && (forall i :: 0 <= i < |changes| ==> changes[i] != [])
    && (Falsy(originBranchSha) || IsSha(originBranchSha.value))
  }

  /**
   * The constructor precondition with the restriction the documentation of
   * `environment` states but `constructorContract` does not check: `default` is not a
   * branch name.
   */
  predicate SoundConstructorPre(path: Bytes, sha: Bytes, branch: Option<Bytes>, originUrl: Option<Bytes>,
                                changes: seq<Bytes>, originBranchSha: Option<Bytes>) {
    && ConstructorPre(path, sha, branch, originUrl, changes, originBranchSha)
    && branch != Some(DefaultEnvironmentName)
  }

  /**
   * `new GitInfo(...)`: path and sha are kept, a falsy branch, origin url or
   * origin branch sha becomes `undefined` and a truthy one is kept, and the
   * changes are copied into a set with the same members.
   */
  function New(path: Bytes, sha: Bytes, branch: Option<Bytes>, originUrl: Option<Bytes>,
               changes: seq<Bytes>, originBranchSha: Option<Bytes>): (r: GitInfo)
    ensures r.path == path && r.sha == sha
    ensures Falsy(branch) ==> r.branch == None
    ensures !Falsy(branch) ==> r.branch == branch
    ensures Falsy(originUrl) ==> r.originUrl == None
    ensures !Falsy(originUrl) ==> r.originUrl == originUrl
    ensures Distinct(r.changes)
    ensures forall p :: p in r.changes <==> p in changes
    ensures Distinct(changes) ==> r.changes == changes
    ensures Falsy(originBranchSha) ==> r.originBranchSha == None
    ensures !Falsy(originBranchSha) ==> r.originBranchSha == originBranchSha
  {
    GitInfo(path, sha, OrUndefined(branch), OrUndefined(originUrl), FromSeq(changes),
            OrUndefined(originBranchSha))
  }

  /**
   * `environment`: `undefined` without a branch, `default` for `master`, and
   * otherwise the environment name of the branch, which percent-decodes to
   * the branch with every `/` replaced by `-`.
   */
  function Environment(g: GitInfo): (r: Option<Bytes>)
    ensures r.None? <==> Falsy(g.branch)
    ensures g.branch == Some(MasterBranchName) ==> r == Some(DefaultEnvironmentName)
    ensures g.branch != Some(MasterBranchName) ==> r == FormatBranchAsEnvironmentName(g.branch)
    ensures !Falsy(g.branch) && g.branch != Some(MasterBranchName) ==>
      r.Some? && Unescape(r.value) == ReplaceAll(g.branch.value, '/', '-')
  {
    if Falsy(g.branch) then None
    else if g.branch.value == MasterBranchName then Some(DefaultEnvironmentName)
    else Some(Escape(SlashesToDashes(g.branch.value)))
  }

  /** `isClean`: there are no changes. */
  function IsClean(g: GitInfo): (r: bool)
    ensures r <==> forall p :: p !in g.changes
  {
    assert |g.changes| > 0 ==> g.changes[0] in g.changes;
    |g.changes| == 0
  }

  /**
   * `isPushed`: there is an origin branch sha, and it is the sha; without an
   * origin branch sha nothing is pushed.
   */
  function IsPushed(g: GitInfo): (r: bool)
    ensures r <==> g.originBranchSha.Some? && g.originBranchSha.value == g.sha
    ensures g.originBranchSha.None? ==> !r
  {
    g.originBranchSha == Some(g.sha)
  }

  /**
   * The precious test on a branch name, `!branch || fragments.some(...)`:
   * no branch, or one that holds `prod`, `staging`, `stage` or `test` as a
   * substring.
   */
  function IsPreciousBranch(branch: Option<Bytes>): (r: bool)
    ensures r <==> Falsy(branch)
                   || Contains(branch.value, "prod") || Contains(branch.value, "staging")
                   || Contains(branch.value, "stage") || Contains(branch.value, "test")
  {
    var fragments := PreciousBranchNameFragments;
    assert fragments[0] == "prod" && fragments[1] == "staging" && fragments[2] == "stage" && fragments[3] == "test";
    Falsy(branch)
    || exists k :: 0 <= k < |fragments| && IndexOf(branch.value, fragments[k]) >= 0
  }

  /**
   * `isPrecious`: there is no branch, or the branch holds one of the
   * precious fragments.
   */
  function IsPrecious(g: GitInfo): (r: bool)
    ensures r <==> Falsy(g.branch)
                   || exists k :: 0 <= k < |PreciousBranchNameFragments|
                                  && Contains(g.branch.value, PreciousBranchNameFragments[k])
  {
    var fragments := PreciousBranchNameFragments;
    assert fragments[0] == "prod" && fragments[1] == "staging" && fragments[2] == "stage" && fragments[3] == "test";
    IsPreciousBranch(g.branch)
  }

  /**
   * `isSave`: safe exactly when on a branch that is not precious, or when
   * there are no changes and the origin branch is at the sha.
   */
  function IsSave(g: GitInfo): (r: bool)
    ensures !IsPrecious(g) ==> r
    ensures IsPrecious(g) ==> (r <==> |g.changes| == 0 && g.originBranchSha == Some(g.sha))
  {
    !IsPrecious(g) || (IsClean(g) && IsPushed(g))
  }

  /** The record `toJSON` returns; `undefined` fields are `None`. */
  datatype GitInfoJson = GitInfoJson(
    path: Bytes,
    sha: Bytes,
    branch: Option<Bytes>,
    environment: Option<Bytes>,
    originUrl: Option<Bytes>,
    changes: seq<Bytes>,
    originBranchSha: Option<Bytes>,
    isClean: bool,
    isPushed: bool,
    isPrecious: bool,
    isSave: bool)

  /** `toJSON`: every stored and derived value, the changes as an array. */
  function ToJson(g: GitInfo): GitInfoJson {
    GitInfoJson(g.path, g.sha, g.branch, Environment(g), g.originUrl, g.changes, g.originBranchSha,
                IsClean(g), IsPushed(g), IsPrecious(g), IsSave(g))
  }

  /** Rebuilding a `GitInfo` from its record, by calling the constructor. */
  function Revive(j: GitInfoJson): GitInfo {
    New(j.path, j.sha, j.branch, j.originUrl, j.changes, j.originBranchSha)
  }

  /** The `invariants` getter of `GitInfo` (GitInfo.js:32-76), one conjunct per relation it checks. */
  predicate Invariant(g: GitInfo) {
    var json := ToJson(g);
    && g.path != []
    && IsSha(g.sha)
    && (g.branch.None? || g.branch.value != [])
    && (g.originUrl.None? || g.originUrl.value != [])
    && Distinct(g.changes)
    && (forall i :: 0 <= i < |g.changes| ==> g.changes[i] != [])
    && (g.originBranchSha.None? || IsSha(g.originBranchSha.value))
    && IsClean(g) == (|g.changes| == 0)
    && IsPushed(g) == (g.originBranchSha == Some(g.sha))
    && (!Falsy(g.branch) || IsPrecious(g))
    && (Falsy(g.branch)
        || (forall k :: 0 <= k < |PreciousBranchNameFragments| ==>
              IndexOf(g.branch.value, PreciousBranchNameFragments[k]) < 0)
        || IsPrecious(g))
    && (IsPrecious(g) || IsSave(g))
    && (!IsPrecious(g) || IsSave(g) == (IsClean(g) && IsPushed(g)))
    && (Falsy(g.branch)
        || g.branch.value == MasterBranchName
        || g.branch.value == DefaultEnvironmentName
        || (Environment(g).Some?
            && Unescape(Environment(g).value) == ReplaceAll(g.branch.value, '/', '-')))
    && (g.branch != Some(MasterBranchName) || Environment(g) == Some(DefaultEnvironmentName))
    && ((!Falsy(g.branch) && g.branch.value != DefaultEnvironmentName) || Environment(g).None?)
    && json.path == g.path
    && json.sha == g.sha
    && json.branch == g.branch
    && json.environment == Environment(g)
    && json.originUrl == g.originUrl
    && (forall p :: p in json.changes ==> p in g.changes)
    && (forall p :: p in g.changes ==> p in json.changes)
    && json.originBranchSha == g.originBranchSha
    && json.isClean == IsClean(g)
    && json.isPushed == IsPushed(g)
    && json.isPrecious == IsPrecious(g)
    && json.isSave == IsSave(g)
  }

  /**
   * Every `GitInfo` built under the constructor precondition, with `default`
   * excluded as a branch name, satisfies all invariants.
   */
  lemma NewSatisfiesInvariant(path: Bytes, sha: Bytes, branch: Option<Bytes>, originUrl: Option<Bytes>,
                              changes: seq<Bytes>, originBranchSha: Option<Bytes>)
    requires SoundConstructorPre(path, sha, branch, originUrl, changes, originBranchSha)
    ensures Invariant(New(path, sha, branch, originUrl, changes, originBranchSha))
  {
    var g := New(path, sha, branch, originUrl, changes, originBranchSha);
    assert forall i :: 0 <= i < |g.changes| ==> g.changes[i] in changes;
  }

  /**
   * The precondition of `constructorContract` admits the branch `default`, and for it the
   * invariant fails: `environment` is `default`, where `undefined` is required.
   */
  lemma DefaultBranchBreaksInvariant(path: Bytes, sha: Bytes, originUrl: Option<Bytes>,
                                     changes: seq<Bytes>, originBranchSha: Option<Bytes>)
    requires ConstructorPre(path, sha, Some(DefaultEnvironmentName), originUrl, changes, originBranchSha)
    ensures var g := New(path, sha, Some(DefaultEnvironmentName), originUrl, changes, originBranchSha);
      Environment(g).Some? && !Invariant(g)
  {
  }

  /**
   * The record holds the whole state: rebuilding from `toJSON` gives back the
   * same `GitInfo`, and hence the same record.
   */
  lemma JsonRoundTrip(g: GitInfo)
    requires Invariant(g)
    ensures Revive(ToJson(g)) == g
    ensures ToJson(Revive(ToJson(g))) == ToJson(g)
  {
  }

  /**
   * `environment` is `default` for the branch `master`, but also for a branch
   * named `default`; no other branch gets it.
   */
  lemma EnvironmentIsDefault(g: GitInfo)
    ensures Environment(g) == Some(DefaultEnvironmentName) <==>
      g.branch == Some(MasterBranchName) || g.branch == Some(DefaultEnvironmentName)
  {
    if !Falsy(g.branch) && g.branch != Some(MasterBranchName) {
      FormatOntoPlain(g.branch.value, DefaultEnvironmentName);
    }
  }

  /**
   * Only `environment` maps `master` to `default`: the formatter maps it to
   * `master` itself.
   */
  lemma MasterEnvironmentDiffersFromFormat(g: GitInfo)
    requires g.branch == Some(MasterBranchName)
    ensures Environment(g) == Some(DefaultEnvironmentName)
    ensures FormatBranchAsEnvironmentName(g.branch) == Some(MasterBranchName)
  {
    FormatMaster();
  }

  // Branch names the tests classify, one lemma each.

  lemma NoBranchIsPrecious()
    ensures IsPreciousBranch(None) && IsPreciousBranch(Some(""))
  {
  }

  lemma ProductionIsPrecious()
    ensures IsPreciousBranch(Some("production"))
  {
    ContainsInMiddle("", "prod", "uction");
  }

  lemma TestIsPrecious()
    ensures IsPreciousBranch(Some("test"))
  {
    ContainsInMiddle("", "test", "");
  }

  lemma StagingSlashIsPrecious()
    ensures IsPreciousBranch(Some("staging/4"))
  {
    ContainsInMiddle("", "staging", "/4");
  }

  lemma StageSlashIsPrecious()
    ensures IsPreciousBranch(Some("stage/4"))
  {
    ContainsInMiddle("", "stage", "/4");
  }

  lemma StagingPreReleaseIsPrecious()
    ensures IsPreciousBranch(Some("staging-pre-release"))
  {
    ContainsInMiddle("", "staging", "-pre-release");
  }

  lemma MasterIsNotPrecious()
    ensures !IsPreciousBranch(Some("master"))
  {
    assert "master" == "" + ['m'] + "aster";
    assert "aster" == "" + ['a'] + "ster";
    // no `p`, no `g`; `test` is cut by `m` and `a`, leaving `ster`
    NotContainsMissingByte("master", "prod", 0);
    NotContainsMissingByte("master", "staging", 3);
    NotContainsMissingByte("master", "stage", 3);
    ContainsAroundForeignByte("", 'm', "aster", "test");
    ContainsAroundForeignByte("", 'a', "ster", "test");
    ContainsShort("ster", "test");
    ContainsShort("", "test");
  }

  lemma DevIsNotPrecious()
    ensures !IsPreciousBranch(Some("dev"))
  {
    NotContainsMissingByte("dev", "prod", 1);
    NotContainsMissingByte("dev", "staging", 0);
    NotContainsMissingByte("dev", "stage", 0);
    NotContainsMissingByte("dev", "test", 2);
  }

  lemma DevelopmentIsNotPrecious()
    ensures !IsPreciousBranch(Some("development"))
  {
    NotContainsMissingByte("development", "prod", 1);
    NotContainsMissingByte("development", "staging", 2);
    NotContainsMissingByte("development", "stage", 2);
    NotContainsMissingByte("development", "test", 2);
  }

  /** `test` does not occur: it is cut by `/`, `n` and `d`. */
  lemma NestedBranchNameHasNoTest()
    ensures !Contains("nested/branch/name", "test")
  {
    assert !Contains("nested", "test") by {
      assert "nested" == "" + ['n'] + "ested";
      assert "ested" == "este" + ['d'] + "";
      ContainsAroundForeignByte("", 'n', "ested", "test");
      ContainsAroundForeignByte("este", 'd', "", "test");
      ContainsShort("este", "test");
      ContainsShort("", "test");
    }
    assert !Contains("branch/name", "test") by {
      assert "branch/name" == "branch" + ['/'] + "name";
      ContainsAroundForeignByte("branch", '/', "name", "test");
      NotContainsMissingByte("branch", "test", 2);
      NotContainsMissingByte("name", "test", 0);
    }
    assert "nested/branch/name" == "nested" + ['/'] + "branch/name";
    ContainsAroundForeignByte("nested", '/', "branch/name", "test");
  }

  lemma NestedBranchNameIsNotPrecious()
    ensures !IsPreciousBranch(Some("nested/branch/name"))
  {
    // no `p`, no `g`
    NotContainsMissingByte("nested/branch/name", "prod", 0);
    NotContainsMissingByte("nested/branch/name", "staging", 6);
    NotContainsMissingByte("nested/branch/name", "stage", 3);
    NestedBranchNameHasNoTest();
  }
}
