# GitInfo and environment names, modelled in Dafny

`node-ppwcode-gitInfo` is a small Node library that gathers consolidated
facts about the git repository at a given path. Those facts are the sha of the checked-out commit, the branch, the URL of
the `origin` remote, the set of changed files, and the sha of the branch at
`origin`. The library derives four judgements from them:

- `isClean`: there are no changes.
- `isPushed`: the origin branch is at the sha.
- `isPrecious`: the branch is production-like, or there is no branch.
- `isSave`: a precious branch must be clean and pushed.

It also derives an *environment* name for the branch, which the
documentation of the `environment` getter (GitInfo.js:129) describes as
usable as a Terraform environment name.

This project models the following in Dafny and proves what the code promises
about each part:

- the `GitInfo` value object: its constructor, getters, `toJSON` record and
  invariants;
- `formatBranchAsEnvironmentName`;
- the search for the highest directory holding a `.git` folder;
- the pure steps of `GitInfo.create`: which file statuses count as changes,
  how the set of changed paths is built, and how the branch name is read from
  the reference name.

Modules follow the program's structure:

| module | file | models |
|---|---|---|
| `Wrappers` | `wrappers.dfy` | `Option`, standing for a value or `undefined` |
| `ByteStrings` | `byte_strings.dfy` | strings as UTF-8 bytes; JavaScript truthiness of strings, `x \|\| undefined`, `indexOf`, `startsWith`, `replace(/x/g, y)`, `split`, `join` |
| `InsertionSets` | `insertion_sets.dfy` | a JavaScript `Set` of strings, as a duplicate-free sequence in insertion order |
| `Querystring` | `querystring.dfy` | Node's `querystring.escape` and `querystring.unescape`, byte by byte |
| `EnvironmentName` | `environment_name.dfy` | `formatBranchAsEnvironmentName.js` |
| `GitStatus` | `git_status.dfy` | `GitInfo.isNotClean`, and the `changes` and branch-name steps of `GitInfo.create` |
| `GitInfo` | `git_info.dfy` | the `GitInfo` class, its constructor contract and its invariants |
| `HighestGitDir` | `highest_git_dir.dfy` | `GitInfo.highestGitDirPath` |

Modelling choices:

- **Strings are byte sequences.** A string is its UTF-8 encoding, held as a
  sequence of `byte` (a character below 256), because `querystring` escapes
  UTF-8 bytes. ASCII literals are therefore written as ordinary Dafny strings.
- **`undefined` is `None`.** A falsy string (`undefined` or `''`) is `None` or
  `Some([])`. The constructor's `x || undefined` is `OrUndefined`.
- **Sets are ordered sequences.** A `Set` is a sequence without duplicates, in
  iteration order, which is what `Array.from` produces. `new Set(xs)` keeps the
  first occurrence of each element.
- **The JSON round trip is on the record.** `JSON.parse(JSON.stringify(x))` on
  the record `toJSON` returns gives back the same strings, booleans and
  arrays. It is therefore modelled as the identity on that record (`ToJson`).
  Rebuilding a `GitInfo` from the record means calling the constructor again
  (`Revive`).
- **Escaping is Node's algorithm.** `querystring.escape` keeps `A-Z a-z 0-9`
  and `-_.!~*'()` and writes every other byte as `%` plus two upper-case hex
  digits. `querystring.unescape` is modelled as turning `%` followed by two
  hex digits, of either case, into that byte, and leaving every other byte as
  it is. This matches Node on every string `decodeURIComponent` accepts and on
  every ASCII string, which covers everything `escape` produces; see
  `Querystring.Unescape` under "Left out" for the rest.
- **The file system is a parameter.** Whether `<dir>/.git` is accessible is the
  set `hasGit` of directories that pass the probe. The path separator is `/`.

Behaviour worth noting:

- **No `master` special case in the formatter.** `formatBranchAsEnvironmentName`
  maps `master` to `master` (formatBranchAsEnvironmentName.js:30). Only the
  `environment` getter of `GitInfo` maps it to `default`, as its
  documentation at GitInfo.js:131 says; the two differ on that one branch.
- **The name is not reversible.** The formatter's post
  (formatBranchAsEnvironmentName.js:25) promises only that the name decodes
  to the branch with `/` replaced by `-`. Turning `-` back into `/` after
  decoding therefore does not recover a branch that holds a `-`, and `a/b`
  and `a-b` get the same name.
- **A detached `HEAD` is not handled.** `create` reads the branch as group 1
  of `gitRefsPattern.exec(reference.name())` (GitInfo.js:338). When `HEAD` is
  detached the name does not match `^refs/heads/(.*)$`, `exec` returns
  `null`, and reading group 1 of it throws. `BranchName` returns `None` for
  it.
- **The root is returned only for `/` or a path starting with `//`.** The
  documentation of `highestGitDirPath` (GitInfo.js:260-263) speaks of the top
  most ancestor directory with a `.git` folder. Its candidates are the joins
  of the leading parts of `dirPath.split('/')` (GitInfo.js:276-277). For an
  absolute path such as `/a/b` the first candidate is `''` (skipped as
  falsy) and the second is already `/a`, so the root `/` is a candidate only
  when the path is `/` or starts with `//`.
- **`default` is a second branch with environment `default`.** The environment
  is `default` both for the branch `master` and for a branch named `default`,
  although the documentation at GitInfo.js:132 says `default` cannot be a
  branch name. For the latter the class invariant fails (see Findings).

## Model

| member | source | states |
|---|---|---|
| `ByteStrings.OrUndefined` | GitInfo.js:95-98 | `x \|\| undefined` is `undefined` exactly for a falsy string, and otherwise the string itself |
| `ByteStrings.IndexOf` | GitInfo.js:190 | `indexOf` is -1 exactly when the fragment does not occur; otherwise the fragment occurs at the result and at no earlier position |
| `ByteStrings.ReplaceAll` | formatBranchAsEnvironmentName.js:25 | `replace(/x/g, y)` keeps the length, puts `y` wherever `s` has `x`, and leaves every other byte in place |
| `ByteStrings.Join` | GitInfo.js:277 | `join`; it has no contract of its own: `ByteStrings.JoinSplit` and `ByteStrings.SplitJoinIsReplaceAll` state what it does with the parts of a `split` |
| `ByteStrings.Split` | GitInfo.js:276 | `split` yields at least one part, and no part holds the separator |
| `ByteStrings.SplitJoinIsReplaceAll` | formatBranchAsEnvironmentName.js:25-30 | `split(x).join(y)` equals replacing every `x` with `y` |
| `ByteStrings.JoinSplit` | GitInfo.js:276-277 | joining the parts of `split(sep)` with `sep` gives the original string back |
| `InsertionSets.FromSeq` | GitInfo.js:97 | `new Set(xs)` has no duplicates, has the same members as `xs`, is no longer than `xs`, and is `xs` itself when `xs` has no duplicates |
| `Querystring.EscapeByte` | formatBranchAsEnvironmentName.js:30 | an unreserved byte is kept; any other byte becomes `%` and two upper-case hexadecimal digits whose value is the byte |
| `Querystring.Escape` | formatBranchAsEnvironmentName.js:30 | the escaped string is no shorter, and holds only unreserved bytes and `%`; `Querystring.EscapeSingle` and `Querystring.EscapeConcat` state that it escapes byte by byte |
| `Querystring.EscapeSingle` | formatBranchAsEnvironmentName.js:30 | a one-byte string is escaped as that byte is |
| `Querystring.EscapeConcat` | formatBranchAsEnvironmentName.js:30 | the escape of a concatenation is the concatenation of the escapes, so an unreserved byte stays itself in any surrounding |
| `Querystring.Unescape` | formatBranchAsEnvironmentName.js:25 | the decoded string is no longer; `Querystring.UnescapeHexTriple`, `Querystring.UnescapeLiteral` and `Querystring.UnescapeNoPercent` state how it decodes |
| `Querystring.UnescapeHexTriple` | formatBranchAsEnvironmentName.js:25 | `%` and two hexadecimal digits of either case decode to the byte they denote, and decoding goes on after them |
| `Querystring.UnescapeLiteral` | formatBranchAsEnvironmentName.js:25 | a byte other than `%`, or a `%` not followed by two hexadecimal digits, decodes to itself, and decoding goes on after it |
| `Querystring.UnescapeNoPercent` | GitInfo.js:61 | a string without `%` decodes to itself |
| `Querystring.UnescapeEscape` | formatBranchAsEnvironmentName.js:25 | `unescape(escape(s)) == s` for every byte string |
| `Querystring.EscapeInjective` | formatBranchAsEnvironmentName.js:30 | two strings escape alike exactly when they are equal |
| `Querystring.EscapeIdentity` | GitInfo.js:139-141 | escaping leaves a string unchanged exactly when every byte is unreserved |
| `EnvironmentName.SlashesToDashes` | formatBranchAsEnvironmentName.js:30 | `branch.split('/').join('-')` replaces every `/` with `-` |
| `EnvironmentName.FormatBranchAsEnvironmentName` | formatBranchAsEnvironmentName.js:20-31 | the result is `undefined` exactly for a falsy branch; otherwise it unescapes to the branch with every `/` replaced by `-` |
| `EnvironmentName.FormatPlain` | formatBranchAsEnvironmentName.js:30 | a branch of unreserved bytes without `/` is its own environment name |
| `EnvironmentName.FormatOntoPlain` | formatBranchAsEnvironmentName.js:30 | a name of unreserved bytes without `/` or `-` is the environment name of that branch only |
| `EnvironmentName.FormatMaster` | formatBranchAsEnvironmentName.js:29-31 | `master` is formatted as `master`: the formatter has no `default` special case |
| `EnvironmentName.FormatCollision` | formatBranchAsEnvironmentName.js:25-30 | two branches get the same name exactly when they agree after replacing `/` with `-`; this includes two falsy branches, which both get `undefined` |
| `EnvironmentName.FormatNotInjective` | formatBranchAsEnvironmentName.js:30 | every branch holding a `/` shares its name with a different branch, the one with `-` in its place |
| `EnvironmentName.SlashAndDashCollide` | formatBranchAsEnvironmentName.js:30 | for any `a` and `b`, the branches `a/b` and `a-b` get the same name |
| `EnvironmentName.BackTranslationIsLossy` | formatBranchAsEnvironmentName.js:25 | for a branch holding a `-`, decoding its name and turning `-` back into `/` gives a different string |
| `GitStatus.IsNotClean` | GitInfo.js:287-308 | each of the five change flags makes a status dirty, and a status with none of them is clean; in particular an ignored status without change flags is clean |
| `GitStatus.IgnoredAndNewIsNotClean` | GitInfo.js:303-307 | a status both ignored and new is dirty, against the promise that an ignored status never is |
| `GitStatus.NewAndIgnoredPostsClash` | GitInfo.js:298-303 | for a status both new and ignored, the posts "new means dirty" and "ignored means clean" cannot both hold, whatever the result |
| `GitStatus.DirtyPaths` | GitInfo.js:361 | filtering the statuses by `isNotClean` and mapping to paths yields exactly the paths of the dirty statuses |
| `GitStatus.Changes` | GitInfo.js:358-361 | the `changes` set holds each dirty path once, and nothing else |
| `GitStatus.BranchName` | GitInfo.js:338 | a branch name is found exactly when the reference name is `refs/heads/` followed by a line without a line terminator; the reference name is then that prefix plus the branch |
| `GitStatus.BranchNameOfRef` | GitInfo.js:255 | the reference `refs/heads/<branch>` gives back `<branch>` |
| `GitInfo.IsSha` | GitInfo.js:252 | `shaRegExp`, `/^[a-f0-9]{40}$/`: exactly 40 bytes, each a lower-case hexadecimal digit; it has no contract of its own and is used by `GitInfo.ConstructorPre` and `GitInfo.Invariant` |
| `GitInfo.ConstructorPre` | GitInfo.js:221-234 | `constructorContract.pre`: a non-empty path, a sha, distinct non-empty changes, and a falsy or sha-shaped origin branch sha (the `typeof` checks hold by typing); it has no contract of its own: `GitInfo.NewSatisfiesInvariant` and `GitInfo.DefaultBranchBreaksInvariant` state what it guarantees and what it lets through |
| `GitInfo.New` | GitInfo.js:92-99 | path and sha are kept; a falsy branch, origin url or origin branch sha becomes `undefined` and a truthy one is kept; the changes set has exactly the given members, without duplicates and in the given order |
| `GitInfo.Environment` | GitInfo.js:136-142 | `undefined` exactly without a branch; `default` for `master`; otherwise the formatter's name, which unescapes to the branch with `/` replaced by `-` |
| `GitInfo.IsClean` | GitInfo.js:174-176 | clean exactly when no path is a change |
| `GitInfo.IsPushed` | GitInfo.js:181-183 | pushed exactly when there is an origin branch sha and it equals the sha; never without one |
| `GitInfo.IsPrecious` | GitInfo.js:189-191 | an instance is precious exactly when it has no branch, or its branch holds one of the precious fragments |
| `GitInfo.IsPreciousBranch` | GitInfo.js:189-191 | precious exactly when there is no branch, or when the branch holds `prod`, `staging`, `stage` or `test` |
| `GitInfo.IsSave` | GitInfo.js:198-200 | a non-precious branch is always save; a precious one is save exactly when there are no changes and the origin branch is at the sha |
| `GitInfo.ToJson` | GitInfo.js:203-217 | `toJSON`; it has no contract of its own: `GitInfo.JsonRoundTrip` states that the record holds the whole instance |
| `GitInfo.Invariant` | GitInfo.js:32-76 | the invariants, one conjunct per line of the source; `GitInfo.NewSatisfiesInvariant` and `GitInfo.DefaultBranchBreaksInvariant` state when they hold |
| `GitInfo.NewSatisfiesInvariant` | GitInfo.js:32-76 | every instance built under the constructor precondition, with `default` excluded as a branch, satisfies every invariant |
| `GitInfo.DefaultBranchBreaksInvariant` | GitInfo.js:63 | the precondition admits the branch `default`, and then `environment` is defined and the invariant fails |
| `GitInfo.JsonRoundTrip` | GitInfo.js:64-75 | for an instance satisfying the invariants, rebuilding from the `toJSON` record gives the same instance, and so the same record |
| `GitInfo.EnvironmentIsDefault` | GitInfo.js:58-63 | `environment` is `default` exactly for the branches `master` and `default` |
| `GitInfo.MasterEnvironmentDiffersFromFormat` | GitInfo.js:139-141 | for `master` the getter gives `default`, while the formatter gives `master` |
| `GitInfo.NoBranchIsPrecious` | test/GitInfoTest.js:41-46 | no branch, and the empty branch, are precious |
| `GitInfo.ProductionIsPrecious` | test/GitInfoTest.js:47 | `production` is precious |
| `GitInfo.TestIsPrecious` | test/GitInfoTest.js:48 | `test` is precious |
| `GitInfo.StagingSlashIsPrecious` | test/GitInfoTest.js:49 | `staging/4` is precious |
| `GitInfo.StageSlashIsPrecious` | test/GitInfoTest.js:50 | `stage/4` is precious |
| `GitInfo.StagingPreReleaseIsPrecious` | test/GitInfoTest.js:51 | `staging-pre-release` is precious |
| `GitInfo.MasterIsNotPrecious` | test/GitInfoTest.js:33 | `master` is not precious |
| `GitInfo.NestedBranchNameIsNotPrecious` | test/GitInfoTest.js:34 | `nested/branch/name` is not precious |
| `GitInfo.DevIsNotPrecious` | test/GitInfoTest.js:35 | `dev` is not precious |
| `GitInfo.DevelopmentIsNotPrecious` | test/GitInfoTest.js:36 | `development` is not precious |
| `HighestGitDir.Candidates` | GitInfo.js:276-277 | one candidate directory per part of `dirPath.split(sep)`; `HighestGitDir.CandidatesShape` states which strings they are |
| `HighestGitDir.Probe` | GitInfo.js:278-280 | one probe result per candidate: the candidate itself when it has a `.git` folder, `undefined` otherwise |
| `HighestGitDir.FindTruthy` | GitInfo.js:281 | `find(dir => !!dir)` is `undefined` exactly when every entry is falsy; otherwise it is the first truthy entry |
| `HighestGitDir.HighestGitDirPath` | GitInfo.js:264-282 | the result is `undefined` or a non-empty string; when it is defined, `dirPath` starts with it and it holds a `.git` folder |
| `HighestGitDir.CandidatesShape` | GitInfo.js:276-277 | the candidates are exactly the prefixes of `dirPath` ending before a separator or at the end, strictly growing in length |
| `HighestGitDir.HighestGitDirPathIsShallowest` | GitInfo.js:260-282 | the result is the shortest non-empty candidate prefix holding a `.git` folder; no shorter one holds one; it is `undefined` exactly when no such prefix exists |
| `HighestGitDir.RootIsCandidateOnlyForRoot` | GitInfo.js:276-277 | the root `/` is a candidate only when `dirPath` is `/` or starts with `//` |
| `HighestGitDir.RootNeverFoundBelowRoot` | GitInfo.js:276-281 | for an absolute path like `/a/b`, the root `/` is never the result, whatever holds a `.git` folder |

## Left out

- `GitInfo.create` and `GitInfo.createForHighestGitDir` are not modelled as a
  whole. What they do is sequence promises over `nodegit`: opening the
  repository, reading the head commit, the current branch, the remote and the
  status, and then calling the constructor. Only their pure steps are
  modelled: `GitStatus.Changes` for lines 358-361 and `GitStatus.BranchName`
  for line 338. Nothing of `nodegit` is visible to model.
- The error handling in `create` is left out: the `getRemote` `catch`, which
  returns an `Error` whose `url` is then called; the "no reference found"
  test on the origin branch; and the reference name built from
  `refs/remotes/origin/`. They are foreign calls and error plumbing.
- `tagGitRepo.js` and `bin/gitinfo.js` are not part of this model. They are
  consumers of `GitInfo`: tagging through `nodegit`, and a command-line
  front end.
- The contract libraries themselves are left out: `@toryt/contracts-iv`,
  which GitInfo.js uses (lines 17-18), and `@toryt/contracts-ii`, which
  formatBranchAsEnvironmentName.js uses (line 17). Their
  `pre`/`post` lists become `requires` and `ensures`, and the `typeof`
  checks hold by typing.
- JSON text is left out. `JSON.stringify` and `JSON.parse` are modelled only
  by their effect on the `toJSON` record, which carries strings, booleans and
  an array.
- UTF-16 is left out. Strings are their UTF-8 bytes, so a lone surrogate,
  which makes `querystring.escape` throw, cannot be represented.
- Querystring.Unescape: Node's `querystring.unescape` first tries
  `decodeURIComponent`, and the model gives the same bytes on every string
  that call accepts and on every ASCII string. Two parts of the fallback
  Node uses when that call throws are not modelled. First, the fallback keeps
  only the low byte of each UTF-16 code unit. Second, it replaces invalid
  UTF-8 when the bytes are turned back into a string. So for a non-ASCII
  string with a malformed `%`, such as `é%zz`, Node gives `\uFFFD%zz` and the
  model gives `é%zz`. The core only unescapes what `escape` produces, which is
  ASCII.
- Falsy values other than `undefined` and `''` (`null`, `0`, `false`) are not
  distinguished. They behave as `undefined` and are represented by `None`.
- Only the `/` separator is modelled; Windows' `path.sep` of `\` is left out.
- The `fs.access` probes, their `rw` mode and their concurrent execution are
  left out. They are I/O, represented by the set `hasGit`.
- The `changes` getter returns a copy. With immutable values a copy is the
  value itself.
- GitStatus.IsNotClean: the promise that an ignored status is never dirty
  (line 303) is stated only for ignored statuses that carry none of the five
  change flags. The implementation never reads `isIgnored`, so the promise
  fails for a status that is both ignored and new; that status is
  `GitStatus.IgnoredAndNewIsNotClean` (see Findings). The only ignored
  statuses the tests build (test/GitInfoTest.js:204-215) carry no change flag.

## Findings

| source | as written | input that shows it | evidently intended | confidence | as-written member | corrected member |
|---|---|---|---|---|---|---|
| GitInfo.js:63 | the constructor precondition accepts any truthy branch, but the invariant requires `environment` to be `undefined` for the branch `default`, which the getter maps to `default` | `new GitInfo('/repo', <sha>, 'default', undefined, new Set(), undefined)` | `default` is not a valid branch name (documentation of `environment`, line 132), so the precondition excludes it and every instance satisfies the invariants | not executed | `GitInfo.DefaultBranchBreaksInvariant` | `GitInfo.NewSatisfiesInvariant` |
| GitInfo.js:303 | the post of `isNotClean` promises that an ignored status is never dirty, but the body at line 307 never reads `isIgnored` and reports any status with a change flag as dirty | a status whose `isIgnored()` and `isNew()` both return `true` | the post promises cleanness only for an ignored status that carries no change flag, the only kind the tests build (test/GitInfoTest.js:204-215) | not executed | `GitStatus.IgnoredAndNewIsNotClean` | `GitStatus.IsNotClean` |
