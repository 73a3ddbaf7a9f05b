# MSCA CLI installer — a Dafny model

This project models `MscaInstaller` from `lib/msca-installer.js`. That is the
part of the Microsoft Security Code Analysis build task that finds or installs
the `microsoft.security.codeanalysis.cli` package. It then publishes the
package through the `MSCA_DIRECTORY` and `MSCA_FILEPATH` environment
variables. The model has two halves.

- **Version-directory selection** (`findLatestVersionDirectory`). The model
  takes an ordered listing of directory names and skips the empty ones. It
  keeps only names that match `^(\d+\.?){1,6}(\-\w+)?$`. In stable mode it
  also drops names that contain `-`. Over what is left, it keeps a running
  best with the source's positional, `parseInt`-based comparison and its
  pre-release tie-break.
- **The install decision** (`install`, `isInstalled`, `resolvePackageDirectory`,
  `setVariablesWithVersion`, `setVariables`). This covers:
  - the two environment overrides;
  - the `AGENT_ROOTDIRECTORY` lookup;
  - creating `_msca` and `_msca/versions`;
  - the cache hit for a pinned version;
  - the `dotnet restore` do-while retry, at most three calls;
  - the final existence check that throws
    `MSCA CLI v<version> was not found after installation.`

## Modules

- `wrappers.dfy` (`Wrappers`): `Option` and `Outcome`.
- `jstext.dfy` (`JsText`): the JavaScript semantics the code depends on.
  - `String.prototype.split` with a one-character separator.
  - `parseInt` with no radix: an optional sign, an optional `0x` prefix and the
    leading digits. `None` stands for `NaN`.
  - `>` and `==` on numbers that may be `NaN`.
  - `>` on strings.
  - `path.join` as "append one segment".
- `version_pattern.dfy` (`VersionPattern`): the directory-name regular
  expression, in two forms, proved equivalent.
  - A ghost predicate over the regex's groups, `MatchesDirRegex`.
  - An executable test on the name's `-` and `.` pieces, `IsVersionName`.
- `version_selection.dfy` (`VersionSelection`):
  - `Scan` is the selection loop written as a fold over the listing.
  - `FindLatestVersionDirectory` and `IsLaterVersion` run the source's two
    loops, with their `continue`s and `break`s, and are proved to compute
    `Scan`.
  - The lemmas state what the selection promises: membership, the filters,
    stable-mode maximality and the pre-release tie-break.
- `installer.dfy` (`Installer`):
  - `InstallRun` is the whole run as a function of the starting environment
    (a map) and filesystem (a set of existing paths).
  - The class `MscaInstaller` has the fields `env` and `disk`, and one method
    per source method; `Install` is proved to agree with `InstallRun`.
  - Each `dotnet restore` call comes from an oracle sequence of
    `RestoreAttempt(succeeded, created)`.
- `examples.dfy` (`Examples`): a worked listing that shows the selection
  depends on the listing order.

### Behaviour that the code has and a plain reading of the algorithm would not

The model follows the code in each of these cases.

- **Parts of pre-release names.** Version parts come from `dir.split(".")` on
  the whole name (line 144), not from the number part before the `-`.
  - The last part of `2.0.0-beta2` is `0-beta2`. `parseInt` reads it as 0.
  - `1.-5` matches the pattern, with the tag `5`. Its last part `-5` reads as
    -5, so a part can be negative.
  - `1.-0x1F` reads its last part as -31.
- **Trailing dots.** A name ending in `.` (such as `1.2.`) has an empty last
  part, which is `NaN`. A comparison that meets `NaN` keeps the current best,
  so the result depends on the listing order.
  - `Examples.TrailingDotMakesOrderMatter` proves this.
  - `["1.2.", "1.2.1"]` selects `1.2.`, and `["1.2.1", "1.2."]` selects `1.2.1`.
  - Hence the maximality lemma `StableSelectionIsGreatest` assumes that no
    surviving name ends in `.`.
- **The inner loop's length.** The inner loop runs only up to the
  candidate's length, but the "last part" test uses the longer of the two
  lengths.
  - A tie can therefore only be won by a candidate with at least as many
    parts as the current best (`EqualPartsTieBreak`).
  - Among numerically equal stable names, the earliest listed one wins
    (`IsStableWinner`).
- **The stable-mode tie-break is dead.** The disjunct
  `!isPreRelease && latestIsPreRelease` (line 169) never holds, because
  stable mode never keeps a pre-release (`StableTieBreakIsDead`).
- **What counts as a wildcard.** Any `*` in the requested version makes it a
  wildcard. `1.*` selects the overall latest stable version and ignores the
  `1.` prefix (`WildcardIgnoresPrefix`). `install` always selects in stable
  mode.
- **Two failures the code has that are not a "not found" message.**
  - When the versions directory does not exist after the retries (for
    example, all three `dotnet restore` calls failed), a wildcard run fails
    in `readdirSync`. The model reports this as `ListingFailed`.
  - When the listing holds no usable name, `setVariables(null)` fails in
    `path.join`. The model reports this as `NoVersionFound`.

## Model

| member | source | states |
|---|---|---|
| JsText.JoinSplit | lib/msca-installer.js:130 | Joining the pieces of `split` with the separator gives back the original name, so no character is lost or invented. |
| JsText.SplitPiecesOmitSeparator | lib/msca-installer.js:130 | No piece of `split(c)` contains `c`. |
| JsText.SplitSingle | lib/msca-installer.js:130-134 | A name splits into more than one piece on `-` exactly when it contains a `-`, which is what `dirIsPreRelease` tests. A name without the separator splits into itself. |
| JsText.SplitAtSeparator | lib/msca-installer.js:144 | Splitting `a + c + b`, where `a` has no `c`, gives `a` followed by the pieces of `b`. |
| JsText.SplitAppendFree | lib/msca-installer.js:144 | Appending text without a `.` (such as `-tag`) leaves the number of `.` pieces unchanged and only lengthens the last piece. |
| JsText.SplitLastEmpty | lib/msca-installer.js:144 | The last piece is empty exactly when the string is empty or ends with the separator, which is the trailing-dot case. |
| JsText.LeadingDigits | lib/msca-installer.js:156-159 | `parseInt` reads the longest prefix made only of digits: every character of the result is a digit, it is a prefix, and the next character is not a digit. |
| JsText.ParseIntOfDigitRun | lib/msca-installer.js:156-159 | A digit run followed by nothing or by `-tag` parses to the run's decimal value, which is never `NaN` and never negative. |
| JsText.ParseIntNoDigits | lib/msca-installer.js:156-159 | A part that is empty, or that starts with neither a sign nor a digit, parses to `NaN`. |
| JsText.StringGreaterTotal | lib/msca-installer.js:167 | String `>` on tags is irreflexive, and any two distinct tags are ordered one way or the other. |
| JsText.StringGreaterAsymmetric | lib/msca-installer.js:167 | String `>` on tags is asymmetric. |
| JsText.StringGreaterNegTransitive | lib/msca-installer.js:167 | If `a > b` and not `c > b`, then `a > c`, so the tie-break order on tags is a strict weak order. |
| VersionPattern.VersionNameMatchesRegex | lib/msca-installer.js:125-129 | Every name that passes the piece test `IsVersionName` matches `^(\d+\.?){1,6}(\-\w+)?$`. |
| VersionPattern.RegexMatchIsVersionName | lib/msca-installer.js:125-129 | Every name that matches `^(\d+\.?){1,6}(\-\w+)?$` passes the piece test. |
| VersionPattern.VersionNameIsRegex | lib/msca-installer.js:125-129 | A name matches the regex iff splitting it on `-` gives at most two halves, where the first is one to six dot-separated digit runs with an optional trailing dot, and the second, when present, is a non-empty run of word characters. |
| VersionPattern.GroupsAreDottedNumber | lib/msca-installer.js:125-130 | One to six regex groups concatenate to a dotted number that contains no `-`, so the `-` of a match is the one before its tag. |
| VersionSelection.ScanPicksConsidered | lib/msca-installer.js:112-138 | The selection is `null` iff no listed name is non-empty, matches the pattern and (in stable mode) has no `-`. Otherwise the selection is one of those names. |
| VersionSelection.SelectedDirectoryIsListed | lib/msca-installer.js:112-188 | The result is `null` iff no name survives the filters. Otherwise it is `versionsDirectory/<d>` for a listed name `d` that is non-empty, matches the regex and, in stable mode, contains no `-`. |
| VersionSelection.StableTieBreakIsDead | lib/msca-installer.js:134-138 | In stable mode the best-so-far is never a pre-release, so the tie-break disjunct at line 169 is always false. |
| VersionSelection.StableNameParts | lib/msca-installer.js:144-159 | Every dot part of a stable version name without a trailing dot parses to a natural number. |
| VersionSelection.BeatsFromIsGreater | lib/msca-installer.js:151-177 | When no part is `NaN` or negative and no tie can win, the inner loop's verdict is exactly "lexicographically greater after padding both with zeros". This holds even though the loop stops at the candidate's last part. |
| VersionSelection.GreaterAsymmetric | lib/msca-installer.js:151-177 | The padded numeric order is asymmetric. |
| VersionSelection.GreaterNegTransitive | lib/msca-installer.js:151-177 | The padded numeric order is a strict weak order: `a > b` and not `c > b` give `a > c`. |
| VersionSelection.GreaterIrreflexive | lib/msca-installer.js:151-177 | No version number list is greater than itself. |
| VersionSelection.PastEndNotGreater | lib/msca-installer.js:151-158 | Zero padding is never greater than natural numbers. |
| VersionSelection.StableSupersedes | lib/msca-installer.js:145-177 | Between stable names without trailing dots, the candidate replaces the best iff its zero-padded numbers are lexicographically greater. |
| VersionSelection.StableSelectionIsGreatest | lib/msca-installer.js:118-186 | In stable mode, when no surviving name ends in `.`, the selection is a surviving name. No surviving name is numerically greater, and every surviving name listed before it is numerically smaller, so the earliest of equals wins. |
| VersionSelection.BeatsFromAllEqual | lib/msca-installer.js:151-177 | When every compared part is equal, the candidate wins iff the loop reaches the last compared position and the tie-break holds. |
| VersionSelection.EqualPartsTieBreak | lib/msca-installer.js:147-170 | With equal parts, the candidate supersedes the best iff it has at least as many parts and the tie-break holds. In pre-release mode that means both are pre-releases and the candidate's tag is the greater string: a stable name never displaces an equal pre-release, and nothing displaces an equal stable best. |
| VersionSelection.PreReleaseParts | lib/msca-installer.js:130-159 | A pre-release name has as many dot parts as its number part, and they parse to the same numbers, because the tag only lengthens the last part. |
| VersionSelection.TaggedNumberParts | lib/msca-installer.js:144-159 | Appending `-tag` to a dotted number without a trailing dot keeps the part count and every part's `parseInt` value. |
| VersionSelection.SameNumberSupersedes | lib/msca-installer.js:139-170 | Between pre-releases with the same number part, the candidate replaces the best iff its tag is the greater string. |
| VersionSelection.PreReleaseTagDecides | lib/msca-installer.js:118-186 | In pre-release mode, when every surviving name is a pre-release of one number, the selection has the greatest tag, and it is the first listed among equal tags. |
| VersionSelection.IsLaterVersion | lib/msca-installer.js:145-177 | The inner loop, with its `break`s, computes the verdict `BeatsFrom` on the candidate's parts, the best's parts, the longer length's last index and the tie-break. |
| VersionSelection.FindLatestVersionDirectory | lib/msca-installer.js:111-189 | The outer loop returns the fold `Scan` over the listing: `null` iff no name survives the filters, otherwise `versionsDirectory/<d>` for a listed `d` that matches the regex and, in stable mode, has no `-`. |
| Examples.TrailingDotMakesOrderMatter | lib/msca-installer.js:118-186 | `["1.2.", "1.2.1"]` selects `1.2.` and `["1.2.1", "1.2."]` selects `1.2.1`: with a trailing-dot name, the listing order decides. |
| Installer.CallsFrom | lib/msca-installer.js:49-77 | Counting from a call whose predecessors all failed, the loop makes at most `maxAttempts + 1` calls, all failing but the last, and the last succeeds unless the bound was reached. |
| Installer.RestoreCalls | lib/msca-installer.js:49-77 | The number of `dotnet restore` calls is between 1 and 3, every call but the last failed, and fewer than 3 calls means the last one succeeded. |
| Installer.RetryCountUnique | lib/msca-installer.js:49-77 | Only one call count fits that description, so the oracle determines it. |
| Installer.RestoreWithRetry | lib/msca-installer.js:49-77 | The do-while loop stops at the first success or after three failures. It returns the number of calls made and the union of the paths those calls created. |
| Installer.FilePathOverride | lib/msca-installer.js:27-30 | A set `MSCA_FILEPATH` ends `install` at once: it passes, and the environment, disk and call count are unchanged. |
| Installer.DirectoryOverride | lib/msca-installer.js:31-37 | A set `MSCA_DIRECTORY`, with no `MSCA_FILEPATH`, only sets `MSCA_FILEPATH` to its `guardian`. Nothing is created and nothing is fetched. |
| Installer.AgentRootRequired | lib/msca-installer.js:38 | Without overrides and without `AGENT_ROOTDIRECTORY`, `install` fails in `path.join` before changing anything. |
| Installer.EnsuredIsNotTools | lib/msca-installer.js:40-46 | Creating `_msca` and `_msca/versions` never creates a version's tools directory, so the cache test is the same before and after. |
| Installer.FetchOnlyWhenNeeded | lib/msca-installer.js:27-78 | `dotnet restore` runs iff neither override is set, the agent root is known, and the version is a wildcard or its tools directory is missing. When it runs, it runs 1 to 3 times and stops at the first success. |
| Installer.CachedVersionIsUsed | lib/msca-installer.js:46-48 | A pinned version whose tools directory exists passes with no fetch. The variables then point at `versions/<v>/tools` and its `guardian`, and the only new paths are `_msca` and `_msca/versions`. |
| Installer.PinnedVersionChecked | lib/msca-installer.js:78-110 | For a pinned version that is fetched, the variables point at that version's tools directory whatever the fetch did. The run passes iff that directory then exists, and otherwise fails with `MSCA CLI v<v> was not found after installation.`, even after three failed calls. |
| Installer.WildcardPicksLatestStable | lib/msca-installer.js:88-103 | A wildcard always fetches. A successful wildcard run points the variables at a listed stable version name matching the pattern, and at the numerically greatest one when no surviving name ends in `.`. |
| Installer.WildcardResolved | lib/msca-installer.js:99-110 | A successful wildcard resolution applies `setVariables` to the directory the selection returned, so the selection was not `null`. |
| Installer.WildcardSelectionIsLatest | lib/msca-installer.js:101 | The stable-mode selection is `versionsDirectory/<d>` for a listed stable name `d` matching the pattern, and `d` is the greatest when no surviving name ends in `.`. |
| Installer.WildcardIgnoresPrefix | lib/msca-installer.js:88-103 | Any two versions containing `*` produce the same environment, disk, call count and pass/fail verdict. |
| Installer.SuccessPointsAtGuardian | lib/msca-installer.js:31-37 | Unless `MSCA_FILEPATH` was preset, a successful run leaves `MSCA_FILEPATH` as the `guardian` inside `MSCA_DIRECTORY`, and without overrides that directory exists. |
| Installer.RunFrame | lib/msca-installer.js:24-80 | No path is removed. New paths are `_msca`, `_msca/versions` and what the calls created. Only `MSCA_DIRECTORY` and `MSCA_FILEPATH` change in the environment. |
| Installer.MscaInstaller.EnsureDirectory | lib/msca-installer.js:81-85 | Afterwards the directory exists, nothing else is added, and the environment is unchanged. |
| Installer.MscaInstaller.SetVariables | lib/msca-installer.js:201-208 | Sets `MSCA_DIRECTORY` to `<package>/tools` and `MSCA_FILEPATH` to `<package>/tools/guardian`. A `null` package fails before any write. |
| Installer.MscaInstaller.SetVariablesWithVersion | lib/msca-installer.js:196-200 | Sets the variables for the package directory `versionDirectory/cliVersion`. |
| Installer.MscaInstaller.IsInstalled | lib/msca-installer.js:86-98 | A version containing `*` returns false and leaves the environment untouched. Otherwise it sets the variables for `versions/<v>`, and returns true iff `versions/<v>/tools` exists. |
| Installer.MscaInstaller.ResolvePackageDirectory | lib/msca-installer.js:99-110 | Computes `Resolution`. For a wildcard, the listing of a missing versions directory fails, and a `null` selection fails. Otherwise it sets the variables, and the run fails with the "not found" message iff `MSCA_DIRECTORY` does not exist. |
| Installer.MscaInstaller.Install | lib/msca-installer.js:24-80 | The outcome, the new environment and disk, and the number of `dotnet restore` calls are exactly those of `InstallRun`. |

## Left out

- **Logging.** `console.log` and `tl.debug` have no behavioural content.
- **Async machinery.** The `__awaiter` and `__importStar` helpers and the
  generator machinery are left out; `install` is sequential.
- **The `dotnet restore` subprocess** (lines 55-67). Its arguments, the
  project file under `__dirname` and the NuGet source are replaced by an
  oracle entry per call. A call past the end of the oracle fails and creates
  nothing.
- **Filesystem primitives.**
  - `existsSync` is membership in `disk`.
  - `mkdirSync` always succeeds; failures from a missing parent or from
    permissions are not modelled.
- **The directory listing.** `readdirSync` plus `statSync(...).isDirectory()`
  (`getDirectories` and `isDirectory`, lines 190-195) becomes the `listing`
  parameter.
  - The listing is not tied to `disk`.
  - `readdirSync`'s only modelled failure is a missing versions directory.
- **Path normalisation.** `path.join` is "append `/` and the segment", with
  no normalisation of `.`, `..`, repeated or trailing separators, or an
  empty first segment.
- **Environment values.** A variable's value is a string. The `dir == null`
  test (line 120) has nothing to model, because listing entries are strings.
- **What `install` throws.** Thrown strings and TypeErrors become
  `Outcome.Fail` values, and the model does not distinguish a string from an
  Error object.
- **The dead length test** at lines 131-133 has no `continue`. The regex
  already limits a name to one `-`, so the test never changes the outcome,
  and the model omits it.
- **`parseInt` details.** Leading white space cannot occur in a part that
  passed the pattern, and is not modelled. Precision loss above 2^53 is not
  modelled; parts are unbounded integers.
- **Characters.** JavaScript compares strings by UTF-16 code unit; the model
  compares Dafny characters. The two agree on the `[A-Za-z0-9_]` characters a
  tag can hold.
- **Concurrency.** Concurrent installers that share one
  `AGENT_ROOTDIRECTORY` are out of scope.
- **VersionSelection.StableSelectionIsGreatest** and
  **Installer.WildcardPicksLatestStable**: maximality is proved only when no
  surviving name ends in `.`. With such a name the result depends on the
  listing order, as `Examples.TrailingDotMakesOrderMatter` shows.
- **VersionSelection.PreReleaseTagDecides**: the greatest-tag property is
  proved only when all surviving names are pre-releases of one number, and
  that number does not end in `.`. Mixed numbers are covered by
  `EqualPartsTieBreak` and `SameNumberSupersedes` one comparison at a time.
