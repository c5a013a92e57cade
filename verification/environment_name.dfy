/**
 * `formatBranchAsEnvironmentName`: a branch name turned into a string that is
 * safe as one URL component, by replacing every `/` with `-` and then
 * percent-encoding.
 */
module EnvironmentName {
  import opened Wrappers
  import opened ByteStrings
  import opened Querystring

  /** `branch.split('/').join('-')`. */
  function SlashesToDashes(branch: Bytes): (r: Bytes)
    ensures r == ReplaceAll(branch, '/', '-')
  {
    SplitJoinIsReplaceAll(branch, '/', '-');
    Join(Split(branch, '/'), '-')
  }

  /**
   * A falsy branch has no environment name. Otherwise the name percent-decodes
   * to the branch with every `/` replaced by `-`. The function is total.
   */
  function FormatBranchAsEnvironmentName(branch: Option<Bytes>): (r: Option<Bytes>)
    ensures Falsy(branch) <==> r.None?
    ensures !Falsy(branch) ==> r.Some? && Unescape(r.value) == ReplaceAll(branch.value, '/', '-')
  {
    if Falsy(branch) then None
    else
      var dashed := SlashesToDashes(branch.value);
      UnescapeEscape(dashed);
      Some(Escape(dashed))
  }

  /**
   * A branch of unreserved bytes without `/` is its own environment name.
   */
  lemma FormatPlain(branch: Bytes)
    requires branch != []
    requires forall i :: 0 <= i < |branch| ==> Unreserved(branch[i]) && branch[i] != '/'
    ensures FormatBranchAsEnvironmentName(Some(branch)) == Some(branch)
  {
    assert ReplaceAll(branch, '/', '-') == branch;
    EscapeIdentity(branch);
  }

  /**
   * Only the name itself reaches the environment name of a plain name, one of
   * unreserved bytes without `/` or `-`.
   */
  lemma FormatOntoPlain(branch: Bytes, name: Bytes)
    requires branch != [] && name != []
    requires forall i :: 0 <= i < |name| ==> Unreserved(name[i]) && name[i] != '/' && name[i] != '-'
    ensures FormatBranchAsEnvironmentName(Some(branch)) == Some(name) <==> branch == name
  {
    FormatPlain(name);
    FormatCollision(branch, name);
    ReplaceAllOntoPlain(name, name);
    ReplaceAllOntoPlain(branch, name);
  }

  /** There is no special case for `master`: it maps to itself. */
  lemma FormatMaster()
    ensures FormatBranchAsEnvironmentName(Some("master")) == Some("master")
  {
    FormatPlain("master");
  }

  /**
   * Two branches get the same environment name exactly when they agree after
   * replacing `/` with `-`.
   */
  lemma FormatCollision(a: Bytes, b: Bytes)
    ensures FormatBranchAsEnvironmentName(Some(a)) == FormatBranchAsEnvironmentName(Some(b))
            <==> ReplaceAll(a, '/', '-') == ReplaceAll(b, '/', '-')
  {
    EscapeInjective(ReplaceAll(a, '/', '-'), ReplaceAll(b, '/', '-'));
  }

  /** Replacing `/` by `-` maps a string with a `/` to a different string. */
  lemma ReplaceAllChanges(s: Bytes, i: int)
    requires 0 <= i < |s| && s[i] == '/'
    ensures ReplaceAll(s, '/', '-') != s
  {
    assert ReplaceAll(s, '/', '-')[i] == '-';
  }

  /** For a target without `/` or `-`, replacing `/` by `-` reaches it only from itself. */
  lemma ReplaceAllOntoPlain(s: Bytes, t: Bytes)
    requires forall i :: 0 <= i < |t| ==> t[i] != '/' && t[i] != '-'
    ensures ReplaceAll(s, '/', '-') == t <==> s == t
  {
    if ReplaceAll(s, '/', '-') == t {
      assert forall i :: 0 <= i < |s| ==> s[i] == t[i];
    }
  }

  /** Replacing `/` by `-` twice is the same as once. */
  lemma ReplaceAllIdempotent(s: Bytes)
    ensures ReplaceAll(ReplaceAll(s, '/', '-'), '/', '-') == ReplaceAll(s, '/', '-')
  {
  }

  /**
   * The mapping is not injective: every branch that holds a `/` shares its
   * environment name with a different branch, the one with `-` in its place.
   */
  lemma FormatNotInjective(branch: Bytes, i: int)
    requires 0 <= i < |branch| && branch[i] == '/'
    ensures var other := ReplaceAll(branch, '/', '-');
      other != branch
      && FormatBranchAsEnvironmentName(Some(other)) == FormatBranchAsEnvironmentName(Some(branch))
  {
    ReplaceAllChanges(branch, i);
    ReplaceAllIdempotent(branch);
    FormatCollision(ReplaceAll(branch, '/', '-'), branch);
  }

  /** The typical collision: `a/b` and `a-b` get the same name, whatever `a` and `b` are. */
  lemma SlashAndDashCollide(a: Bytes, b: Bytes)
    ensures FormatBranchAsEnvironmentName(Some(a + ['/'] + b))
            == FormatBranchAsEnvironmentName(Some(a + ['-'] + b))
  {
    var s := a + ['/'] + b;
    var t := a + ['-'] + b;
    assert forall i :: 0 <= i < |s| ==> ReplaceAll(s, '/', '-')[i] == ReplaceAll(t, '/', '-')[i];
    FormatCollision(s, t);
  }

  /**
   * Decoding an environment name and turning `-` back into `/` does not
   * recover a branch that holds a `-` (for `a-b` it gives `a/b`).
   */
  lemma BackTranslationIsLossy(branch: Bytes, i: int)
    requires 0 <= i < |branch| && branch[i] == '-'
    ensures var e := FormatBranchAsEnvironmentName(Some(branch));
      e.Some? && ReplaceAll(Unescape(e.value), '-', '/') != branch
  {
    var back := ReplaceAll(ReplaceAll(branch, '/', '-'), '-', '/');
    assert back[i] == '/';
  }
}
