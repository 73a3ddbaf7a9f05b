/**
  `MscaInstaller.install` and the helpers it calls (lib/msca-installer.js:24-110,
  196-208): honour the environment overrides, skip the fetch when the pinned
  version is already on disk, otherwise run `dotnet restore` with a bounded
  retry and point `MSCA_DIRECTORY` / `MSCA_FILEPATH` at the installed package.

  The process environment is a map from variable names to values, the
  filesystem a set of existing paths.  Each `dotnet restore` call is read from
  an oracle sequence: whether it succeeded and which paths it left behind.
  `InstallRun` states the whole run as a function of the starting state; the
  class `MscaInstaller` performs it step by step and is proved to agree.
*/
module Installer {
  import opened Wrappers
  import opened JsText
  import opened VersionPattern
  import opened VersionSelection

  const MscaFilePath: string := "MSCA_FILEPATH"
  const MscaDirectory: string := "MSCA_DIRECTORY"
  const AgentRootDirectory: string := "AGENT_ROOTDIRECTORY"
  const PackageName: string := "microsoft.security.codeanalysis.cli"

  /** `maxAttempts`: the number of failures tolerated before the retry loop gives up. */
  const MaxAttempts: nat := 2

  /** A JavaScript truth test on `process.env[key]`: set and not the empty string. */
  predicate Truthy(env: map<string, string>, key: string) {
    key in env && env[key] != ""
  }

  /** `cliVersion.includes("*")`: any `*` asks for the latest version. */
  predicate IsWildcard(cliVersion: string) { '*' in cliVersion }

  function ToolsDirectory(packageDirectory: string): string { PathJoin(packageDirectory, "tools") }

  function GuardianPath(directory: string): string { PathJoin(directory, "guardian") }

  /** `<agent root>/_msca`, `<agent root>/_msca/versions` and the package's versions directory. */
  function MscaRoot(agentRoot: string): string { PathJoin(agentRoot, "_msca") }

  function PackagesDirectory(agentRoot: string): string { PathJoin(MscaRoot(agentRoot), "versions") }

  function VersionsDirectory(agentRoot: string): string { PathJoin(PackagesDirectory(agentRoot), PackageName) }

  /** The environment after `setVariables(packageDirectory)`. */
  function WithPackage(env: map<string, string>, packageDirectory: string): map<string, string> {
    env[MscaDirectory := ToolsDirectory(packageDirectory)]
       [MscaFilePath := GuardianPath(ToolsDirectory(packageDirectory))]
  }

  /** The message `resolvePackageDirectory` throws. */
  function NotFoundMessage(cliVersion: string): string {
    "MSCA CLI v" + cliVersion + " was not found after installation."
  }

  datatype InstallError =
    | AgentRootMissing              // `path.join(undefined, '_msca')` throws a TypeError
    | ListingFailed(directory: string) // `readdirSync` on a versions directory that does not exist
    | NoVersionFound                // `setVariables(null)`: `path.join(null, 'tools')` throws a TypeError
    | NotFound(message: string)     // the final existence check

  /** One `dotnet restore` call: whether it succeeded and the paths it created. */
  datatype RestoreAttempt = RestoreAttempt(succeeded: bool, created: set<string>)

  /** The oracle's `k`-th call; a call past the end fails and creates nothing. */
  function Attempt(restore: seq<RestoreAttempt>, k: nat): RestoreAttempt {
    if k < |restore| then restore[k] else RestoreAttempt(false, {})
  }

  // ---------------------------------------------------------------------------
  // The retry loop

  /**
    `calls` is how many times the do-while loop of lib/msca-installer.js:49-77
    runs `dotnet restore`: it stops at the first success, and after
    `MaxAttempts + 1` failures it gives up.
  */
  predicate IsRetryCount(restore: seq<RestoreAttempt>, calls: nat) {
    && 1 <= calls <= MaxAttempts + 1
    && (forall k :: 0 <= k < calls - 1 ==> !Attempt(restore, k).succeeded)
    && (calls <= MaxAttempts ==> Attempt(restore, calls - 1).succeeded)
  }

  /** The paths the first `calls` calls created. */
  function CreatedBy(restore: seq<RestoreAttempt>, calls: nat): set<string> {
    if calls == 0 then {} else CreatedBy(restore, calls - 1) + Attempt(restore, calls - 1).created
  }

  /** The number of calls, counting from call `k` once all before it failed. */
  function CallsFrom(restore: seq<RestoreAttempt>, k: nat): (calls: nat)
    requires k <= MaxAttempts
    ensures k < calls <= MaxAttempts + 1
    ensures forall i :: k <= i < calls - 1 ==> !Attempt(restore, i).succeeded
    ensures calls <= MaxAttempts ==> Attempt(restore, calls - 1).succeeded
    decreases MaxAttempts - k
  {
    if Attempt(restore, k).succeeded || k == MaxAttempts then k + 1 else CallsFrom(restore, k + 1)
  }

  function RestoreCalls(restore: seq<RestoreAttempt>): (calls: nat)
    ensures IsRetryCount(restore, calls)
  {
    CallsFrom(restore, 0)
  }

  /** The oracle fixes the number of calls. */
  lemma RetryCountUnique(restore: seq<RestoreAttempt>, calls: nat)
    requires IsRetryCount(restore, calls)
    ensures calls == RestoreCalls(restore)
  {
  }

  /** The retry loop of lib/msca-installer.js:49-77, the `try`/`catch` becoming the oracle's flag. */
  method RestoreWithRetry(restore: seq<RestoreAttempt>) returns (calls: nat, created: set<string>)
    ensures IsRetryCount(restore, calls)
    ensures created == CreatedBy(restore, calls)
  {
    var failed := false;
    var attempts := 0;
    calls, created := 0, {};
    while true
      invariant attempts == calls <= MaxAttempts
      invariant forall k :: 0 <= k < calls ==> !Attempt(restore, k).succeeded
      invariant created == CreatedBy(restore, calls)
      decreases MaxAttempts - attempts
    {
      failed := false;
      var attempt := Attempt(restore, calls);
      calls := calls + 1;
      created := created + attempt.created;
      if !attempt.succeeded {
        failed := true;
        attempts := attempts + 1;
        if attempts > MaxAttempts {
          break;
        }
      }
      if !failed {
        break;
      }
    }
  }

  // ---------------------------------------------------------------------------
  // The whole run

  /** The outcome of `install` and the state it leaves. */
  datatype Run = Run(outcome: Outcome<InstallError>, env: map<string, string>, disk: set<string>, restoreCalls: nat)

  /** The final check of `resolvePackageDirectory`: does the `MSCA_DIRECTORY` just set exist? */
  function Checked(env: map<string, string>, disk: set<string>, cliVersion: string)
    : (Outcome<InstallError>, map<string, string>)
  {
    if MscaDirectory in env && env[MscaDirectory] in disk then (Pass, env)
    else (Fail(NotFound(NotFoundMessage(cliVersion))), env)
  }

  /** `resolvePackageDirectory(versionsDirectory, cliVersion)`, the wildcard listing given as `listing`. */
  function Resolution(env: map<string, string>, disk: set<string>, versionsDirectory: string,
                      cliVersion: string, listing: seq<string>)
    : (Outcome<InstallError>, map<string, string>)
  {
    if IsWildcard(cliVersion) then
      if versionsDirectory !in disk then (Fail(ListingFailed(versionsDirectory)), env)
      else match SelectedDirectory(versionsDirectory, listing, false)
        case None => (Fail(NoVersionFound), env)
        case Some(packageDirectory) => Checked(WithPackage(env, packageDirectory), disk, cliVersion)
    else Checked(WithPackage(env, PathJoin(versionsDirectory, cliVersion)), disk, cliVersion)
  }

  /** The disk after `ensureDirectory` on `_msca` and `_msca/versions`. */
  function Ensured(disk: set<string>, agentRoot: string): set<string> {
    disk + {MscaRoot(agentRoot), PackagesDirectory(agentRoot)}
  }

  /** `isInstalled` found the pinned version's tools directory. */
  predicate CacheHit(disk: set<string>, agentRoot: string, cliVersion: string) {
    !IsWildcard(cliVersion) && ToolsDirectory(PathJoin(VersionsDirectory(agentRoot), cliVersion)) in disk
  }

  /** What `install(cliVersion)` does, starting from `env` and `disk`. */
  function InstallRun(env: map<string, string>, disk: set<string>, cliVersion: string,
                      restore: seq<RestoreAttempt>, listing: seq<string>): Run
  {
    if Truthy(env, MscaFilePath) then Run(Pass, env, disk, 0)
    else if Truthy(env, MscaDirectory) then Run(Pass, env[MscaFilePath := GuardianPath(env[MscaDirectory])], disk, 0)
    else if AgentRootDirectory !in env then Run(Fail(AgentRootMissing), env, disk, 0)
    else
      var root := env[AgentRootDirectory];
      var versionsDirectory := VersionsDirectory(root);
      var disk1 := Ensured(disk, root);
      var env1 := if IsWildcard(cliVersion) then env else WithPackage(env, PathJoin(versionsDirectory, cliVersion));
      if CacheHit(disk1, root, cliVersion) then Run(Pass, env1, disk1, 0)
      else Fetched(env1, disk1, versionsDirectory, cliVersion, restore, listing)
  }

  /** The retry loop followed by `resolvePackageDirectory`. */
  function Fetched(env: map<string, string>, disk: set<string>, versionsDirectory: string, cliVersion: string,
                   restore: seq<RestoreAttempt>, listing: seq<string>): Run
  {
    var calls := RestoreCalls(restore);
    var fetchedDisk := disk + CreatedBy(restore, calls);
    var resolved := Resolution(env, fetchedDisk, versionsDirectory, cliVersion, listing);
    Run(resolved.0, resolved.1, fetchedDisk, calls)
  }

  /** Neither override is set and the agent root is known: the path that may fetch. */
  predicate Unmanaged(env: map<string, string>) {
    !Truthy(env, MscaFilePath) && !Truthy(env, MscaDirectory) && AgentRootDirectory in env
  }

  // ---------------------------------------------------------------------------
  // What a run promises

  /** A set `MSCA_FILEPATH` ends the run at once: nothing changes and nothing is fetched. */
  lemma FilePathOverride(env: map<string, string>, disk: set<string>, cliVersion: string,
                         restore: seq<RestoreAttempt>, listing: seq<string>)
    requires Truthy(env, MscaFilePath)
    ensures InstallRun(env, disk, cliVersion, restore, listing) == Run(Pass, env, disk, 0)
  {
  }

  /**
    A set `MSCA_DIRECTORY` (and no `MSCA_FILEPATH`) only points `MSCA_FILEPATH`
    at its `guardian`: no directory is created and nothing is fetched.
  */
  lemma DirectoryOverride(env: map<string, string>, disk: set<string>, cliVersion: string,
                          restore: seq<RestoreAttempt>, listing: seq<string>)
    requires !Truthy(env, MscaFilePath) && Truthy(env, MscaDirectory)
    ensures var run := InstallRun(env, disk, cliVersion, restore, listing);
      && run == Run(Pass, env[MscaFilePath := GuardianPath(env[MscaDirectory])], disk, 0)
      && run.env[MscaFilePath] == GuardianPath(run.env[MscaDirectory])
  {
  }

  /** Without an override and without `AGENT_ROOTDIRECTORY` the run fails before touching anything. */
  lemma AgentRootRequired(env: map<string, string>, disk: set<string>, cliVersion: string,
                          restore: seq<RestoreAttempt>, listing: seq<string>)
    requires !Truthy(env, MscaFilePath) && !Truthy(env, MscaDirectory) && AgentRootDirectory !in env
    ensures InstallRun(env, disk, cliVersion, restore, listing) == Run(Fail(AgentRootMissing), env, disk, 0)
  {
  }

  /** The two directories `ensureDirectory` creates are never a version's tools directory. */
  lemma EnsuredIsNotTools(disk: set<string>, root: string, cliVersion: string)
    ensures CacheHit(Ensured(disk, root), root, cliVersion) <==> CacheHit(disk, root, cliVersion)
  {
    var tools := ToolsDirectory(PathJoin(VersionsDirectory(root), cliVersion));
    assert |tools| > |PackagesDirectory(root)| > |MscaRoot(root)|;
  }

  /**
    `dotnet restore` runs exactly when neither override is set, the agent root
    is known, and the version is a wildcard or its tools directory is missing;
    it then runs between one and three times, stopping at the first success.
  */
  lemma FetchOnlyWhenNeeded(env: map<string, string>, disk: set<string>, cliVersion: string,
                            restore: seq<RestoreAttempt>, listing: seq<string>)
    ensures var run := InstallRun(env, disk, cliVersion, restore, listing);
      && (run.restoreCalls > 0
          <==> Unmanaged(env) && !CacheHit(disk, env[AgentRootDirectory], cliVersion))
      && (run.restoreCalls > 0 ==> IsRetryCount(restore, run.restoreCalls))
  {
    if Unmanaged(env) {
      EnsuredIsNotTools(disk, env[AgentRootDirectory], cliVersion);
    }
  }

  /**
    A pinned version already on disk is a cache hit: the variables point at it,
    `_msca` and `_msca/versions` exist, and nothing is fetched.
  */
  lemma CachedVersionIsUsed(env: map<string, string>, disk: set<string>, cliVersion: string,
                            restore: seq<RestoreAttempt>, listing: seq<string>)
    requires Unmanaged(env) && CacheHit(disk, env[AgentRootDirectory], cliVersion)
    ensures var root := env[AgentRootDirectory];
      var packageDirectory := PathJoin(VersionsDirectory(root), cliVersion);
      InstallRun(env, disk, cliVersion, restore, listing)
        == Run(Pass, WithPackage(env, packageDirectory), Ensured(disk, root), 0)
  {
    EnsuredIsNotTools(disk, env[AgentRootDirectory], cliVersion);
  }

  /**
    For a pinned version that must be fetched, the variables point at that
    version's tools directory whatever the fetch did, and the run fails with
    the "was not found" message exactly when that directory is still missing.
    Three failed calls do not end the run: the check still decides it.
  */
  lemma PinnedVersionChecked(env: map<string, string>, disk: set<string>, cliVersion: string,
                             restore: seq<RestoreAttempt>, listing: seq<string>)
    requires Unmanaged(env) && !IsWildcard(cliVersion)
    ensures var run := InstallRun(env, disk, cliVersion, restore, listing);
      var tools := ToolsDirectory(PathJoin(VersionsDirectory(env[AgentRootDirectory]), cliVersion));
      && run.env == WithPackage(env, PathJoin(VersionsDirectory(env[AgentRootDirectory]), cliVersion))
      && (run.outcome == Pass <==> tools in run.disk)
      && (run.outcome != Pass ==> run.outcome == Fail(NotFound(NotFoundMessage(cliVersion))))
  {
  }

  /**
    A wildcard version always fetches, and a successful run points the
    variables at a listed stable version name matching the version-directory
    pattern; when no surviving name ends in `.`, it is the numerically greatest
    one, the earliest listed among equals.  The rest of the wildcard ("1.*")
    plays no part.
  */
  lemma WildcardPicksLatestStable(env: map<string, string>, disk: set<string>, cliVersion: string,
                                  restore: seq<RestoreAttempt>, listing: seq<string>)
    requires Unmanaged(env) && IsWildcard(cliVersion)
    ensures var run := InstallRun(env, disk, cliVersion, restore, listing);
      var versionsDirectory := VersionsDirectory(env[AgentRootDirectory]);
      && run.restoreCalls > 0
      && (run.outcome == Pass ==>
            exists j :: 0 <= j < |listing|
              && run.env == WithPackage(env, PathJoin(versionsDirectory, listing[j]))
              && MatchesDirRegex(listing[j]) && '-' !in listing[j]
              && (NoTrailingDots(listing, false) ==> IsStableWinner(listing, j)))
  {
    var versionsDirectory := VersionsDirectory(env[AgentRootDirectory]);
    var run := InstallRun(env, disk, cliVersion, restore, listing);
    var resolved := Resolution(env, run.disk, versionsDirectory, cliVersion, listing);
    assert run == Run(resolved.0, resolved.1, run.disk, RestoreCalls(restore));
    if run.outcome == Pass {
      WildcardResolved(env, run.disk, versionsDirectory, cliVersion, listing);
      WildcardSelectionIsLatest(versionsDirectory, listing);
    }
  }

  /** A successful wildcard resolution applies `setVariables` to the selected directory. */
  lemma WildcardResolved(env: map<string, string>, disk: set<string>, versionsDirectory: string,
                         cliVersion: string, listing: seq<string>)
    requires IsWildcard(cliVersion)
    requires Resolution(env, disk, versionsDirectory, cliVersion, listing).0 == Pass
    ensures SelectedDirectory(versionsDirectory, listing, false).Some?
    ensures Resolution(env, disk, versionsDirectory, cliVersion, listing).1
         == WithPackage(env, SelectedDirectory(versionsDirectory, listing, false).value)
  {
  }

  /** The stable-mode selection as a listed name, the greatest one when no surviving name ends in `.`. */
  lemma WildcardSelectionIsLatest(versionsDirectory: string, listing: seq<string>)
    requires SelectedDirectory(versionsDirectory, listing, false).Some?
    ensures exists j :: (0 <= j < |listing|
      && SelectedDirectory(versionsDirectory, listing, false) == Some(PathJoin(versionsDirectory, listing[j]))
      && MatchesDirRegex(listing[j]) && '-' !in listing[j]
      && (NoTrailingDots(listing, false) ==> IsStableWinner(listing, j)))
  {
    SelectedDirectoryIsListed(versionsDirectory, listing, false);
    var j :| 0 <= j < |listing|
      && SelectedDirectory(versionsDirectory, listing, false) == Some(PathJoin(versionsDirectory, listing[j]))
      && listing[j] != [] && MatchesDirRegex(listing[j]) && '-' !in listing[j];
    if NoTrailingDots(listing, false) {
      StableSelectionIsGreatest(versionsDirectory, listing);
      var w :| IsStableWinner(listing, w)
        && Scan(versionsDirectory, listing, false) == Some(LatestFor(versionsDirectory, listing[w]));
      assert listing[w] == listing[j] by {
        assert listing[w] == PathJoin(versionsDirectory, listing[w])[|versionsDirectory| + 1..];
      }
      assert SelectedDirectory(versionsDirectory, listing, false) == Some(PathJoin(versionsDirectory, listing[w]));
    }
  }

  /** Any two wildcard versions run identically but for the version named in the error message. */
  lemma WildcardIgnoresPrefix(env: map<string, string>, disk: set<string>, v1: string, v2: string,
                              restore: seq<RestoreAttempt>, listing: seq<string>)
    requires IsWildcard(v1) && IsWildcard(v2)
    ensures var r1, r2 := InstallRun(env, disk, v1, restore, listing), InstallRun(env, disk, v2, restore, listing);
      && r1.env == r2.env && r1.disk == r2.disk && r1.restoreCalls == r2.restoreCalls
      && (r1.outcome == Pass <==> r2.outcome == Pass)
  {
  }

  /**
    A successful run leaves `MSCA_FILEPATH` at the `guardian` inside
    `MSCA_DIRECTORY` (unless `MSCA_FILEPATH` was set to begin with), and
    without overrides that directory exists.
  */
  lemma SuccessPointsAtGuardian(env: map<string, string>, disk: set<string>, cliVersion: string,
                                restore: seq<RestoreAttempt>, listing: seq<string>)
    requires !Truthy(env, MscaFilePath)
    ensures var run := InstallRun(env, disk, cliVersion, restore, listing);
      run.outcome == Pass ==>
        && MscaDirectory in run.env && MscaFilePath in run.env
        && run.env[MscaFilePath] == GuardianPath(run.env[MscaDirectory])
        && (!Truthy(env, MscaDirectory) ==> run.env[MscaDirectory] in run.disk)
  {
    var run := InstallRun(env, disk, cliVersion, restore, listing);
    if run.outcome == Pass && Unmanaged(env) {
      EnsuredIsNotTools(disk, env[AgentRootDirectory], cliVersion);
    }
  }

  /**
    Nothing is removed from disk; what is added is `_msca`, `_msca/versions`
    and what the `dotnet restore` calls created; and only `MSCA_DIRECTORY` and
    `MSCA_FILEPATH` of the environment change.
  */
  lemma RunFrame(env: map<string, string>, disk: set<string>, cliVersion: string,
                 restore: seq<RestoreAttempt>, listing: seq<string>)
    ensures var run := InstallRun(env, disk, cliVersion, restore, listing);
      && disk <= run.disk
      && (run.disk != disk ==>
            Unmanaged(env) && run.disk == Ensured(disk, env[AgentRootDirectory]) + CreatedBy(restore, run.restoreCalls))
      && (forall k :: k != MscaDirectory && k != MscaFilePath ==>
            (k in run.env <==> k in env) && (k in env ==> run.env[k] == env[k]))
  {
  }

  // ---------------------------------------------------------------------------
  // The installer

  class MscaInstaller {
    /** `process.env`. */
    var env: map<string, string>
    /** The paths that exist. */
    var disk: set<string>

    constructor(env: map<string, string>, disk: set<string>)
      ensures this.env == env && this.disk == disk
    {
      this.env := env;
      this.disk := disk;
    }

    /** `ensureDirectory` (lib/msca-installer.js:81-85). */
    method EnsureDirectory(directory: string)
      modifies this
      ensures disk == old(disk) + {directory} && env == old(env)
    {
      if directory !in disk {
        disk := disk + {directory};
      }
    }

    /** `setVariables` (lib/msca-installer.js:201-208); `null` fails in `path.join` before any write. */
    method SetVariables(packageDirectory: Option<string>) returns (outcome: Outcome<InstallError>)
      modifies this
      ensures packageDirectory.None? ==> outcome == Fail(NoVersionFound) && env == old(env)
      ensures packageDirectory.Some? ==> outcome == Pass && env == WithPackage(old(env), packageDirectory.value)
      ensures disk == old(disk)
    {
      if packageDirectory.None? {
        return Fail(NoVersionFound);
      }
      var mscaDirectory := ToolsDirectory(packageDirectory.value);
      var mscaFilePath := GuardianPath(mscaDirectory);
      env := env[MscaDirectory := mscaDirectory];
      env := env[MscaFilePath := mscaFilePath];
      outcome := Pass;
    }

    /** `setVariablesWithVersion` (lib/msca-installer.js:196-200). */
    method SetVariablesWithVersion(versionDirectory: string, cliVersion: string)
      modifies this
      ensures env == WithPackage(old(env), PathJoin(versionDirectory, cliVersion)) && disk == old(disk)
    {
      var packageDirectory := PathJoin(versionDirectory, cliVersion);
      var _ := SetVariables(Some(packageDirectory));
    }

    /** `isInstalled` (lib/msca-installer.js:86-98). */
    method IsInstalled(versionsDirectory: string, cliVersion: string) returns (installed: bool)
      modifies this
      ensures IsWildcard(cliVersion) ==> !installed && env == old(env)
      ensures !IsWildcard(cliVersion) ==>
        && env == WithPackage(old(env), PathJoin(versionsDirectory, cliVersion))
        && (installed <==> ToolsDirectory(PathJoin(versionsDirectory, cliVersion)) in disk)
      ensures disk == old(disk)
    {
      installed := false;
      if '*' in cliVersion {
        return;
      }
      SetVariablesWithVersion(versionsDirectory, cliVersion);
      if env[MscaDirectory] in disk {
        installed := true;
      }
    }

    /**
      `resolvePackageDirectory` (lib/msca-installer.js:99-110); `listing` is
      what `getDirectories(versionDirectory)` returns when the directory exists.
    */
    method ResolvePackageDirectory(versionDirectory: string, cliVersion: string, listing: seq<string>)
      returns (outcome: Outcome<InstallError>)
      modifies this
      ensures (outcome, env) == Resolution(old(env), disk, versionDirectory, cliVersion, listing)
      ensures disk == old(disk)
    {
      if '*' in cliVersion {
        if versionDirectory !in disk {
          return Fail(ListingFailed(versionDirectory));
        }
        var packageDirectory := FindLatestVersionDirectory(versionDirectory, listing, false);
        outcome := SetVariables(packageDirectory);
        if outcome.Fail? {
          return;
        }
      } else {
        SetVariablesWithVersion(versionDirectory, cliVersion);
      }
      if env[MscaDirectory] !in disk {
        return Fail(NotFound(NotFoundMessage(cliVersion)));
      }
      outcome := Pass;
    }

    /**
      `install(cliVersion)` (lib/msca-installer.js:24-80), the `dotnet restore`
      calls answered by `restore`; also returns how many calls were made.
    */
    method Install(cliVersion: string, restore: seq<RestoreAttempt>, listing: seq<string>)
      returns (outcome: Outcome<InstallError>, restoreCalls: nat)
      modifies this
      ensures Run(outcome, env, disk, restoreCalls) == InstallRun(old(env), old(disk), cliVersion, restore, listing)
    {
      restoreCalls := 0;
      if Truthy(env, MscaFilePath) {
        return Pass, 0;
      }
      if Truthy(env, MscaDirectory) {
        var mscaFilePath := GuardianPath(env[MscaDirectory]);
        env := env[MscaFilePath := mscaFilePath];
        return Pass, 0;
      }
      if AgentRootDirectory !in env {
        return Fail(AgentRootMissing), 0;
      }
      ghost var root := env[AgentRootDirectory];
      var mscaDirectory := PathJoin(env[AgentRootDirectory], "_msca");
      EnsureDirectory(mscaDirectory);
      var mscaPackagesDirectory := PathJoin(mscaDirectory, "versions");
      EnsureDirectory(mscaPackagesDirectory);
      var mscaVersionsDirectory := PathJoin(mscaPackagesDirectory, PackageName);
      assert disk == Ensured(old(disk), root) && mscaVersionsDirectory == VersionsDirectory(root);
      var installed := IsInstalled(mscaVersionsDirectory, cliVersion);
      assert installed == CacheHit(disk, root, cliVersion);
      if installed {
        return Pass, 0;
      }
      ghost var env1, disk1 := env, disk;
      var created;
      restoreCalls, created := RestoreWithRetry(restore);
      RetryCountUnique(restore, restoreCalls);
      disk := disk + created;
      outcome := ResolvePackageDirectory(mscaVersionsDirectory, cliVersion, listing);
      assert Run(outcome, env, disk, restoreCalls) == Fetched(env1, disk1, mscaVersionsDirectory, cliVersion, restore, listing);
    }
  }
}
