/**
  `MscaInstaller.findLatestVersionDirectory` (lib/msca-installer.js:111-189):
  pick the latest version directory from a listing.  `Scan` states what the
  loop computes, as a fold over the listing; the method runs the source's two
  loops and is proved to compute `Scan`; the lemmas say what `Scan` promises.
*/
module VersionSelection {
  import opened Wrappers
  import opened JsText
  import opened VersionPattern

  function Max(a: int, b: int): int { if a < b then b else a }

  /**
    The loop's best-so-far variables: `latestDirectory` (already joined to the
    versions directory), `latestVersionParts`, `latestIsPreRelease` and
    `latestPreReleaseFlag`.
  */
  datatype Latest = Latest(
    directory: string,
    versionParts: seq<string>,
    isPreRelease: bool,
    preReleaseFlag: Option<string>)

  /** `dir.split("-").length > 1`. */
  predicate IsPreReleaseName(dir: string) { |Split(dir, '-')| > 1 }

  /** The text after the `-`, or `null` for a stable name. */
  function PreReleaseFlag(dir: string): Option<string> {
    if IsPreReleaseName(dir) then Some(Split(dir, '-')[1]) else None
  }

  /** The name survives the filters: not empty, matches the pattern, and no pre-release in stable mode. */
  predicate Considered(dir: string, isPreRelease: bool) {
    dir != [] && IsVersionName(dir) && (isPreRelease || !IsPreReleaseName(dir))
  }

  /** What the loop records when `dir` becomes the latest. */
  function LatestFor(versionsDirectory: string, dir: string): Latest {
    Latest(PathJoin(versionsDirectory, dir), Split(dir, '.'), IsPreReleaseName(dir), PreReleaseFlag(dir))
  }

  /** The number the inner loop compares at position `i`: `parseInt` of the part, 0 past the end. */
  function PartValue(parts: seq<string>, i: nat): Option<int> {
    if i < |parts| then ParseInt(parts[i]) else Some(0)
  }

  /** `dirPreReleaseFlag > latestPreReleaseFlag`, where `null > s` is false for every word `s`. */
  predicate FlagGreater(a: Option<string>, b: Option<string>) {
    a.Some? && b.Some? && StringGreater(a.value, b.value)
  }

  /** The value `isLatest` takes when the parts are equal at the last compared position. */
  predicate TieBreak(isPreRelease: bool, dirFlag: Option<string>, latest: Latest) {
    || (isPreRelease && latest.isPreRelease && FlagGreater(dirFlag, latest.preReleaseFlag))
    || (!isPreRelease && latest.isPreRelease)
  }

  /**
    What the inner loop decides from position `i` on: a greater part wins, an
    equal part wins only at `lastIndex` when `tieWins`, anything else (a smaller
    part or a `NaN`) loses.  The loop stops at the candidate's last part.
  */
  predicate BeatsFrom(parts: seq<string>, latestParts: seq<string>, lastIndex: int, tieWins: bool, i: nat)
    decreases |parts| - i
  {
    && i < |parts|
    && var a, b := PartValue(parts, i), PartValue(latestParts, i);
      || NumberGreater(a, b)
      || (NumberEquals(a, b) && ((i == lastIndex && tieWins) || BeatsFrom(parts, latestParts, lastIndex, tieWins, i + 1)))
  }

  /** The candidate `dir` replaces `latest`. */
  predicate Supersedes(dir: string, isPreRelease: bool, latest: Latest) {
    var parts := Split(dir, '.');
    BeatsFrom(parts, latest.versionParts, Max(|parts|, |latest.versionParts|) - 1,
              TieBreak(isPreRelease, PreReleaseFlag(dir), latest), 0)
  }

  /** One turn of the outer loop. */
  function Step(versionsDirectory: string, isPreRelease: bool, latest: Option<Latest>, dir: string): Option<Latest> {
    if !Considered(dir, isPreRelease) then latest
    else if latest.None? || Supersedes(dir, isPreRelease, latest.value) then Some(LatestFor(versionsDirectory, dir))
    else latest
  }

  /** The best-so-far state after the outer loop has seen all of `dirs`, in order. */
  function Scan(versionsDirectory: string, dirs: seq<string>, isPreRelease: bool): Option<Latest>
    decreases |dirs|
  {
    if dirs == [] then None
    else Step(versionsDirectory, isPreRelease, Scan(versionsDirectory, DropLast(dirs), isPreRelease), Last(dirs))
  }

  /** The value `findLatestVersionDirectory` returns. */
  function SelectedDirectory(versionsDirectory: string, dirs: seq<string>, isPreRelease: bool): Option<string> {
    match Scan(versionsDirectory, dirs, isPreRelease)
    case None => None
    case Some(latest) => Some(latest.directory)
  }

  // ---------------------------------------------------------------------------
  // Membership and filtering

  /** The selection is one of the listed names that survived the filters, or nothing when none did. */
  lemma {:induction false} ScanPicksConsidered(versionsDirectory: string, dirs: seq<string>, isPreRelease: bool)
    ensures Scan(versionsDirectory, dirs, isPreRelease).None?
        <==> forall j :: 0 <= j < |dirs| ==> !Considered(dirs[j], isPreRelease)
    ensures Scan(versionsDirectory, dirs, isPreRelease).Some? ==>
      exists j :: 0 <= j < |dirs| && Considered(dirs[j], isPreRelease)
        && Scan(versionsDirectory, dirs, isPreRelease) == Some(LatestFor(versionsDirectory, dirs[j]))
    decreases |dirs|
  {
    if dirs != [] {
      var prev := DropLast(dirs);
      ScanPicksConsidered(versionsDirectory, prev, isPreRelease);
      assert forall j :: 0 <= j < |prev| ==> prev[j] == dirs[j];
      var n := |dirs| - 1;
      if Considered(dirs[n], isPreRelease) && Scan(versionsDirectory, dirs, isPreRelease) == Some(LatestFor(versionsDirectory, dirs[n])) {
      } else if Scan(versionsDirectory, prev, isPreRelease).Some? {
        var j :| 0 <= j < |prev| && Considered(prev[j], isPreRelease)
          && Scan(versionsDirectory, prev, isPreRelease) == Some(LatestFor(versionsDirectory, prev[j]));
        assert Scan(versionsDirectory, dirs, isPreRelease) == Some(LatestFor(versionsDirectory, dirs[j]));
      }
    }
  }

  /**
    Whatever is selected is the versions directory joined with a listed name
    that is not empty and matches `^(\d+\.?){1,6}(\-\w+)?$`, and that has no
    `-` in stable mode.  Nothing is selected exactly when no listed name
    passes those filters.
  */
  lemma SelectedDirectoryIsListed(versionsDirectory: string, dirs: seq<string>, isPreRelease: bool)
    ensures SelectedDirectory(versionsDirectory, dirs, isPreRelease).None?
        <==> forall j :: 0 <= j < |dirs| ==> !Considered(dirs[j], isPreRelease)
    ensures SelectedDirectory(versionsDirectory, dirs, isPreRelease).Some? ==>
      exists j :: 0 <= j < |dirs|
        && SelectedDirectory(versionsDirectory, dirs, isPreRelease) == Some(PathJoin(versionsDirectory, dirs[j]))
        && dirs[j] != [] && MatchesDirRegex(dirs[j]) && (isPreRelease || '-' !in dirs[j])
  {
    ScanPicksConsidered(versionsDirectory, dirs, isPreRelease);
    if Scan(versionsDirectory, dirs, isPreRelease).Some? {
      var j :| 0 <= j < |dirs| && Considered(dirs[j], isPreRelease)
        && Scan(versionsDirectory, dirs, isPreRelease) == Some(LatestFor(versionsDirectory, dirs[j]));
      VersionNameIsRegex(dirs[j]);
      SplitSingle(dirs[j], '-');
    }
  }

  /**
    In stable mode the best-so-far is never a pre-release, so the disjunct
    `!isPreRelease && latestIsPreRelease` of the tie-break never holds.
  */
  lemma StableTieBreakIsDead(versionsDirectory: string, dirs: seq<string>, dirFlag: Option<string>)
    requires Scan(versionsDirectory, dirs, false).Some?
    ensures !Scan(versionsDirectory, dirs, false).value.isPreRelease
    ensures !TieBreak(false, dirFlag, Scan(versionsDirectory, dirs, false).value)
  {
    ScanPicksConsidered(versionsDirectory, dirs, false);
  }

  // ---------------------------------------------------------------------------
  // Stable mode: the numerically greatest name wins, the earliest among equals

  /** A name ending in `.` has an empty last part, which `parseInt` reads as `NaN`. */
  predicate EndsWithDot(s: string) { |s| > 0 && s[|s| - 1] == '.' }

  /** No surviving name ends in `.`, so no compared part is `NaN`. */
  predicate NoTrailingDots(dirs: seq<string>, isPreRelease: bool) {
    forall k :: 0 <= k < |dirs| && Considered(dirs[k], isPreRelease) ==> !EndsWithDot(dirs[k])
  }

  /** Every part parses to a number that is not negative. */
  predicate NaturalParts(parts: seq<string>) {
    forall k :: 0 <= k < |parts| ==> ParseInt(parts[k]).Some? && ParseInt(parts[k]).value >= 0
  }

  /** The parsed parts (`NaN` read as 0; used only where no part is `NaN`). */
  function Numbers(parts: seq<string>): seq<int> {
    seq(|parts|, k requires 0 <= k < |parts| =>
      match ParseInt(parts[k]) case Some(v) => v case None => 0)
  }

  function VersionNumbers(dir: string): seq<int> { Numbers(Split(dir, '.')) }

  /** The `i`-th number, zero past the end. */
  function PadAt(ns: seq<int>, i: nat): int { if i < |ns| then ns[i] else 0 }

  /** `a` is greater than `b` from position `i` on, both padded with zeros to the longer length. */
  predicate GreaterFrom(a: seq<int>, b: seq<int>, i: nat)
    decreases Max(|a|, |b|) - i
  {
    && i < Max(|a|, |b|)
    && (PadAt(a, i) > PadAt(b, i) || (PadAt(a, i) == PadAt(b, i) && GreaterFrom(a, b, i + 1)))
  }

  /** Lexicographic order on zero-padded version numbers. */
  predicate VersionGreater(a: seq<int>, b: seq<int>) { GreaterFrom(a, b, 0) }

  lemma {:induction false} GreaterAsymmetric(a: seq<int>, b: seq<int>, i: nat)
    requires GreaterFrom(a, b, i)
    ensures !GreaterFrom(b, a, i)
    decreases Max(|a|, |b|) - i
  {
    if PadAt(a, i) == PadAt(b, i) {
      GreaterAsymmetric(a, b, i + 1);
    }
  }

  /** The order is a strict weak order: `a > b` and not `c > b` give `a > c`. */
  lemma {:induction false} GreaterNegTransitive(a: seq<int>, b: seq<int>, c: seq<int>, i: nat)
    requires GreaterFrom(a, b, i) && !GreaterFrom(c, b, i)
    ensures GreaterFrom(a, c, i)
    decreases Max(|a|, |b|) - i
  {
    if PadAt(a, i) == PadAt(b, i) && PadAt(c, i) == PadAt(b, i) {
      GreaterNegTransitive(a, b, c, i + 1);
    }
  }

  /** Zeros past the end of `a` are never greater than natural numbers. */
  lemma {:induction false} PastEndNotGreater(a: seq<int>, b: seq<int>, i: nat)
    requires i >= |a| && forall k :: 0 <= k < |b| ==> b[k] >= 0
    ensures !GreaterFrom(a, b, i)
    decreases Max(|a|, |b|) - i
  {
    if i < Max(|a|, |b|) {
      PastEndNotGreater(a, b, i + 1);
    }
  }

  /**
    With no `NaN` and no winning tie-break, the inner loop compares the
    zero-padded numbers, although it stops at the candidate's last part.
  */
  lemma {:induction false} BeatsFromIsGreater(parts: seq<string>, latestParts: seq<string>, lastIndex: int, i: nat)
    requires NaturalParts(parts) && NaturalParts(latestParts)
    ensures BeatsFrom(parts, latestParts, lastIndex, false, i)
         == GreaterFrom(Numbers(parts), Numbers(latestParts), i)
    decreases |parts| - i
  {
    var a, b := Numbers(parts), Numbers(latestParts);
    if i < |parts| {
      BeatsFromIsGreater(parts, latestParts, lastIndex, i + 1);
      assert PartValue(parts, i) == Some(PadAt(a, i));
      assert PartValue(latestParts, i) == Some(PadAt(b, i));
    } else {
      PastEndNotGreater(a, b, i);
    }
  }

  /** The parts of a stable version name without a trailing dot are digit runs. */
  lemma StableNameParts(dir: string)
    requires Considered(dir, false) && !EndsWithDot(dir)
    ensures NaturalParts(Split(dir, '.'))
  {
    SplitSingle(dir, '-');
    var p := Split(dir, '.');
    SplitLastEmpty(dir, '.');
    forall k | 0 <= k < |p| ensures ParseInt(p[k]).Some? && ParseInt(p[k]).value >= 0 {
      assert IsDigitRun(p[k]);
      assert p[k] + [] == p[k];
      ParseIntOfDigitRun(p[k], []);
    }
  }

  /** Between stable names without trailing dots, a candidate replaces the latest iff its numbers are greater. */
  lemma StableSupersedes(versionsDirectory: string, dir: string, latestDir: string)
    requires Considered(dir, false) && !EndsWithDot(dir)
    requires Considered(latestDir, false) && !EndsWithDot(latestDir)
    ensures Supersedes(dir, false, LatestFor(versionsDirectory, latestDir))
        <==> VersionGreater(VersionNumbers(dir), VersionNumbers(latestDir))
  {
    StableNameParts(dir);
    StableNameParts(latestDir);
    var parts, latestParts := Split(dir, '.'), Split(latestDir, '.');
    var latest := LatestFor(versionsDirectory, latestDir);
    assert !latest.isPreRelease && latest.versionParts == latestParts;
    assert !TieBreak(false, PreReleaseFlag(dir), latest);
    assert Supersedes(dir, false, latest) == BeatsFrom(parts, latestParts, Max(|parts|, |latestParts|) - 1, false, 0);
    BeatsFromIsGreater(parts, latestParts, Max(|parts|, |latestParts|) - 1, 0);
  }

  /**
    `nums[j]` is flagged, no flagged entry is greater, and every flagged entry
    before it is smaller: the first of the greatest flagged entries.
  */
  ghost predicate IsFirstGreatest(nums: seq<seq<int>>, ok: seq<bool>, j: int)
    requires |ok| == |nums|
  {
    && 0 <= j < |nums| && ok[j]
    && forall k :: 0 <= k < |nums| && ok[k] ==>
      && !VersionGreater(nums[k], nums[j])
      && (k < j ==> VersionGreater(nums[j], nums[k]))
  }

  /** The numbers of each listed name. */
  function Numbered(dirs: seq<string>): (nums: seq<seq<int>>)
    ensures |nums| == |dirs|
  {
    seq(|dirs|, k requires 0 <= k < |dirs| => VersionNumbers(dirs[k]))
  }

  /** Which listed names survive the filters. */
  function Surviving(dirs: seq<string>, isPreRelease: bool): (ok: seq<bool>)
    ensures |ok| == |dirs|
  {
    seq(|dirs|, k requires 0 <= k < |dirs| => Considered(dirs[k], isPreRelease))
  }

  /**
    `dirs[j]` survives stable-mode filtering, no surviving name is numerically
    greater, and every earlier surviving name is numerically smaller.
  */
  ghost predicate IsStableWinner(dirs: seq<string>, j: int) {
    IsFirstGreatest(Numbered(dirs), Surviving(dirs, false), j)
  }

  lemma MappedDropLast(dirs: seq<string>)
    requires |dirs| > 0
    ensures Numbered(DropLast(dirs)) == DropLast(Numbered(dirs))
    ensures Surviving(DropLast(dirs), false) == DropLast(Surviving(dirs, false))
  {
  }

  lemma GreaterIrreflexive(a: seq<int>)
    ensures !VersionGreater(a, a)
  {
    if VersionGreater(a, a) {
      GreaterAsymmetric(a, a, 0);
    }
  }

  /** The first flagged entry is the first greatest so far. */
  lemma FirstGreatestFirst(nums: seq<seq<int>>, ok: seq<bool>)
    requires |ok| == |nums| > 0 && Last(ok)
    requires forall k :: 0 <= k < |ok| - 1 ==> !ok[k]
    ensures IsFirstGreatest(nums, ok, |nums| - 1)
  {
    GreaterIrreflexive(Last(nums));
  }

  /** A new entry that is not greater leaves the first greatest in place. */
  lemma FirstGreatestKept(nums: seq<seq<int>>, ok: seq<bool>, j: int)
    requires |ok| == |nums| > 0 && IsFirstGreatest(DropLast(nums), DropLast(ok), j)
    requires Last(ok) ==> !VersionGreater(Last(nums), nums[j])
    ensures IsFirstGreatest(nums, ok, j)
  {
    var pn, po := DropLast(nums), DropLast(ok);
    assert pn[j] == nums[j];
    forall k | 0 <= k < |nums| && ok[k]
      ensures !VersionGreater(nums[k], nums[j])
      ensures k < j ==> VersionGreater(nums[j], nums[k])
    {
      if k < |pn| {
        assert pn[k] == nums[k] && po[k] == ok[k];
      }
    }
  }

  /** An entry greater than the winner, which is not less than an earlier entry, is greater than that entry. */
  lemma Overtakes(dn: seq<int>, dw: seq<int>, dk: seq<int>)
    requires VersionGreater(dn, dw) && !VersionGreater(dk, dw)
    ensures VersionGreater(dn, dk) && !VersionGreater(dk, dn)
  {
    GreaterNegTransitive(dn, dw, dk, 0);
    GreaterAsymmetric(dn, dk, 0);
  }

  /** A new flagged entry greater than the first greatest is the new first greatest. */
  lemma FirstGreatestReplaced(nums: seq<seq<int>>, ok: seq<bool>, j: int)
    requires |ok| == |nums| > 0 && IsFirstGreatest(DropLast(nums), DropLast(ok), j)
    requires Last(ok) && VersionGreater(Last(nums), nums[j])
    ensures IsFirstGreatest(nums, ok, |nums| - 1)
  {
    var n := |nums| - 1;
    var pn, po := DropLast(nums), DropLast(ok);
    assert pn[j] == nums[j];
    forall k | 0 <= k < |nums| && ok[k]
      ensures !VersionGreater(nums[k], nums[n])
      ensures k < n ==> VersionGreater(nums[n], nums[k])
    {
      if k < n {
        assert pn[k] == nums[k] && po[k] == ok[k];
        Overtakes(nums[n], nums[j], nums[k]);
      } else {
        GreaterIrreflexive(nums[n]);
      }
    }
  }

  /**
    In stable mode, when no surviving name ends in `.`, the selection is the
    numerically greatest surviving name (parts zero-padded to the longer
    length), and among numerically equal ones (say "1.0" and "1.0.0") the
    one listed first.
  */
  lemma {:induction false} StableSelectionIsGreatest(versionsDirectory: string, dirs: seq<string>)
    requires NoTrailingDots(dirs, false)
    requires Scan(versionsDirectory, dirs, false).Some?
    ensures exists j ::
      (IsStableWinner(dirs, j) && Scan(versionsDirectory, dirs, false) == Some(LatestFor(versionsDirectory, dirs[j])))
    decreases |dirs|
  {
    var n := |dirs| - 1;
    var prev, d := DropLast(dirs), dirs[n];
    var nums, ok := Numbered(dirs), Surviving(dirs, false);
    assert forall k :: 0 <= k < |prev| ==> prev[k] == dirs[k];
    MappedDropLast(dirs);
    assert Last(nums) == VersionNumbers(d) && Last(ok) == Considered(d, false);
    if Scan(versionsDirectory, prev, false).None? {
      ScanPicksConsidered(versionsDirectory, prev, false);
      FirstGreatestFirst(nums, ok);
    } else {
      StableSelectionIsGreatest(versionsDirectory, prev);
      var j :| IsStableWinner(prev, j)
        && Scan(versionsDirectory, prev, false) == Some(LatestFor(versionsDirectory, prev[j]));
      assert nums[j] == VersionNumbers(dirs[j]) && ok[j];
      if Considered(d, false) {
        StableSupersedes(versionsDirectory, d, dirs[j]);
      }
      if Considered(d, false) && VersionGreater(VersionNumbers(d), VersionNumbers(dirs[j])) {
        FirstGreatestReplaced(nums, ok, j);
      } else {
        FirstGreatestKept(nums, ok, j);
      }
    }
  }

  // ---------------------------------------------------------------------------
  // The tie-break

  /** When every compared part is equal, the verdict is the tie-break, reached only at the last position. */
  lemma {:induction false} BeatsFromAllEqual(parts: seq<string>, latestParts: seq<string>, lastIndex: int,
                                             tieWins: bool, i: nat)
    requires i <= |parts| && lastIndex >= |parts| - 1
    requires forall k :: i <= k < |parts| ==> NumberEquals(PartValue(parts, k), PartValue(latestParts, k))
    ensures BeatsFrom(parts, latestParts, lastIndex, tieWins, i)
        <==> i < |parts| && tieWins && lastIndex == |parts| - 1
    decreases |parts| - i
  {
    if i < |parts| {
      BeatsFromAllEqual(parts, latestParts, lastIndex, tieWins, i + 1);
    }
  }

  /**
    When the candidate's parts all equal the latest's, it replaces the latest
    only if it reaches the last compared position (it has at least as many
    parts) and the tie-break holds.  In pre-release mode that means: the latest
    is a pre-release and the candidate's tag is greater as a string; so a
    stable candidate never displaces an equal pre-release, and nothing
    displaces an equal stable one.
  */
  lemma EqualPartsTieBreak(dir: string, isPreRelease: bool, latest: Latest)
    requires forall k :: 0 <= k < |Split(dir, '.')| ==>
      NumberEquals(PartValue(Split(dir, '.'), k), PartValue(latest.versionParts, k))
    ensures Supersedes(dir, isPreRelease, latest)
        <==> |Split(dir, '.')| >= |latest.versionParts| && TieBreak(isPreRelease, PreReleaseFlag(dir), latest)
    ensures isPreRelease && Supersedes(dir, isPreRelease, latest) ==>
      && latest.isPreRelease && IsPreReleaseName(dir)
      && FlagGreater(PreReleaseFlag(dir), latest.preReleaseFlag)
  {
    var parts := Split(dir, '.');
    BeatsFromAllEqual(parts, latest.versionParts, Max(|parts|, |latest.versionParts|) - 1,
                      TieBreak(isPreRelease, PreReleaseFlag(dir), latest), 0);
  }

  /** The text before the `-`. */
  function NumberPart(dir: string): string { Split(dir, '-')[0] }

  /**
    A pre-release name's parts read as the parts of its number part: the tag
    only lengthens the last part, and `parseInt` stops at the `-`.
  */
  lemma PreReleaseParts(dir: string)
    requires Considered(dir, true) && IsPreReleaseName(dir) && !EndsWithDot(NumberPart(dir))
    ensures |Split(dir, '.')| == |Split(NumberPart(dir), '.')|
    ensures forall k :: 0 <= k < |Split(dir, '.')| ==>
      ParseInt(Split(NumberPart(dir), '.')[k]).Some?
      && ParseInt(Split(dir, '.')[k]) == ParseInt(Split(NumberPart(dir), '.')[k])
  {
    var halves := Split(dir, '-');
    JoinSplit(dir, '-');
    assert dir == halves[0] + ("-" + halves[1]);
    SplitLastEmpty(halves[0], '.');
    TaggedNumberParts(halves[0], halves[1]);
  }

  /** The parts of `number-tag` parse like those of `number`, for a dotted number without a trailing dot. */
  lemma TaggedNumberParts(number: string, tag: string)
    requires DottedPieces(Split(number, '.')) && Last(Split(number, '.')) != [] && IsWord(tag)
    ensures |Split(number + ("-" + tag), '.')| == |Split(number, '.')|
    ensures forall k :: 0 <= k < |Split(number, '.')| ==>
      ParseInt(Split(number, '.')[k]).Some?
      && ParseInt(Split(number + ("-" + tag), '.')[k]) == ParseInt(Split(number, '.')[k])
  {
    assert '.' !in "-" + tag by {
      forall k | 0 <= k < |tag| ensures tag[k] != '.' { assert IsWordChar(tag[k]); }
    }
    SplitAppendFree(number, "-" + tag, '.');
    var p, q := Split(number, '.'), Split(number + ("-" + tag), '.');
    assert q == DropLast(p) + [Last(p) + ("-" + tag)];
    forall k | 0 <= k < |p|
      ensures ParseInt(p[k]).Some? && ParseInt(q[k]) == ParseInt(p[k])
    {
      assert IsDigitRun(p[k]);
      assert p[k] + [] == p[k];
      ParseIntOfDigitRun(p[k], []);
      if k == |p| - 1 {
        ParseIntOfDigitRun(p[k], "-" + tag);
      } else {
        assert q[k] == p[k];
      }
    }
  }

  /** Between pre-release names with the same number part (no trailing dot), the greater tag wins. */
  lemma SameNumberSupersedes(versionsDirectory: string, dir: string, latestDir: string)
    requires Considered(dir, true) && IsPreReleaseName(dir)
    requires Considered(latestDir, true) && IsPreReleaseName(latestDir)
    requires NumberPart(dir) == NumberPart(latestDir) && !EndsWithDot(NumberPart(dir))
    ensures Supersedes(dir, true, LatestFor(versionsDirectory, latestDir))
        <==> StringGreater(PreReleaseFlag(dir).value, PreReleaseFlag(latestDir).value)
  {
    PreReleaseParts(dir);
    PreReleaseParts(latestDir);
    EqualPartsTieBreak(dir, true, LatestFor(versionsDirectory, latestDir));
  }

  /**
    `dirs[j]` survives pre-release-mode filtering, no surviving name has a
    greater tag, and every earlier surviving name has a smaller one.
  */
  ghost predicate IsTagWinner(dirs: seq<string>, j: int) {
    && 0 <= j < |dirs| && Considered(dirs[j], true)
    && forall k :: 0 <= k < |dirs| && Considered(dirs[k], true) ==>
      && !FlagGreater(PreReleaseFlag(dirs[k]), PreReleaseFlag(dirs[j]))
      && (k < j ==> FlagGreater(PreReleaseFlag(dirs[j]), PreReleaseFlag(dirs[k])))
  }

  lemma FirstTagWinner(dirs: seq<string>)
    requires |dirs| > 0 && Considered(Last(dirs), true) && IsPreReleaseName(Last(dirs))
    requires forall k :: 0 <= k < |dirs| - 1 ==> !Considered(dirs[k], true)
    ensures IsTagWinner(dirs, |dirs| - 1)
  {
    StringGreaterTotal(PreReleaseFlag(Last(dirs)).value, PreReleaseFlag(Last(dirs)).value);
  }

  lemma TagWinnerKept(dirs: seq<string>, j: int)
    requires |dirs| > 0 && IsTagWinner(DropLast(dirs), j)
    requires Considered(Last(dirs), true) ==> !FlagGreater(PreReleaseFlag(Last(dirs)), PreReleaseFlag(dirs[j]))
    ensures IsTagWinner(dirs, j)
  {
    var prev := DropLast(dirs);
    assert forall k :: 0 <= k < |prev| ==> prev[k] == dirs[k];
  }

  lemma TagWinnerReplaced(dirs: seq<string>, j: int)
    requires |dirs| > 0 && IsTagWinner(DropLast(dirs), j)
    requires Considered(Last(dirs), true) && IsPreReleaseName(Last(dirs))
    requires FlagGreater(PreReleaseFlag(Last(dirs)), PreReleaseFlag(dirs[j]))
    requires forall k :: 0 <= k < |dirs| && Considered(dirs[k], true) ==> IsPreReleaseName(dirs[k])
    ensures IsTagWinner(dirs, |dirs| - 1)
  {
    var n := |dirs| - 1;
    var prev := DropLast(dirs);
    var tn, tw := PreReleaseFlag(dirs[n]), PreReleaseFlag(dirs[j]);
    StringGreaterTotal(tn.value, tn.value);
    forall k | 0 <= k < n && Considered(dirs[k], true)
      ensures !FlagGreater(PreReleaseFlag(dirs[k]), tn)
      ensures FlagGreater(tn, PreReleaseFlag(dirs[k]))
    {
      assert prev[k] == dirs[k];
      var tk := PreReleaseFlag(dirs[k]);
      if tk.Some? {
        StringGreaterNegTransitive(tn.value, tw.value, tk.value);
        StringGreaterAsymmetric(tn.value, tk.value);
      }
    }
  }

  /**
    In pre-release mode, when every surviving name is a pre-release of one
    and the same number (without a trailing dot), the selection is the name
    with the greatest tag as a string, the first listed among equal tags:
    "2.0.0-beta2" over "2.0.0-beta1".
  */
  lemma {:induction false} PreReleaseTagDecides(versionsDirectory: string, dirs: seq<string>, number: string)
    requires !EndsWithDot(number)
    requires forall k :: 0 <= k < |dirs| && Considered(dirs[k], true) ==>
      IsPreReleaseName(dirs[k]) && NumberPart(dirs[k]) == number
    requires Scan(versionsDirectory, dirs, true).Some?
    ensures exists j ::
      (IsTagWinner(dirs, j) && Scan(versionsDirectory, dirs, true) == Some(LatestFor(versionsDirectory, dirs[j])))
    decreases |dirs|
  {
    var n := |dirs| - 1;
    var prev, d := DropLast(dirs), dirs[n];
    assert forall k :: 0 <= k < |prev| ==> prev[k] == dirs[k];
    if Scan(versionsDirectory, prev, true).None? {
      ScanPicksConsidered(versionsDirectory, prev, true);
      FirstTagWinner(dirs);
    } else {
      PreReleaseTagDecides(versionsDirectory, prev, number);
      var j :| IsTagWinner(prev, j)
        && Scan(versionsDirectory, prev, true) == Some(LatestFor(versionsDirectory, prev[j]));
      if Considered(d, true) {
        SameNumberSupersedes(versionsDirectory, d, dirs[j]);
      }
      if Considered(d, true) && FlagGreater(PreReleaseFlag(d), PreReleaseFlag(dirs[j])) {
        assert forall k :: 0 <= k < |dirs| && Considered(dirs[k], true) ==> IsPreReleaseName(dirs[k]);
        TagWinnerReplaced(dirs, j);
      } else {
        TagWinnerKept(dirs, j);
      }
    }
  }

  // ---------------------------------------------------------------------------
  // The loop

  /** The four best-so-far variables hold `latest` (only the first two matter while it is `null`). */
  ghost predicate Tracks(directory: Option<string>, parts: Option<seq<string>>, isPreRelease: bool,
                         flag: Option<string>, latest: Option<Latest>)
  {
    match latest
    case None => directory.None? && parts.None?
    case Some(l) =>
      directory == Some(l.directory) && parts == Some(l.versionParts)
      && isPreRelease == l.isPreRelease && flag == l.preReleaseFlag
  }

  lemma ScanPrefixStep(versionsDirectory: string, dirs: seq<string>, i: nat, isPreRelease: bool)
    requires i < |dirs|
    ensures Scan(versionsDirectory, dirs[..i + 1], isPreRelease)
         == Step(versionsDirectory, isPreRelease, Scan(versionsDirectory, dirs[..i], isPreRelease), dirs[i])
  {
    assert DropLast(dirs[..i + 1]) == dirs[..i];
  }

  /**
    The inner loop of `findLatestVersionDirectory` (lib/msca-installer.js:146-178):
    whether the candidate with parts `versionParts` and flag `dirPreReleaseFlag`
    replaces `latest`.
  */
  method IsLaterVersion(versionParts: seq<string>, dirPreReleaseFlag: Option<string>, isPreRelease: bool,
                        latest: Latest)
    returns (isLatest: bool)
    ensures isLatest == BeatsFrom(versionParts, latest.versionParts,
                                  Max(|versionParts|, |latest.versionParts|) - 1,
                                  TieBreak(isPreRelease, dirPreReleaseFlag, latest), 0)
  {
    var latestVersionParts := latest.versionParts;
    var maxVersionParts := |versionParts|;
    if |latestVersionParts| > maxVersionParts {
      maxVersionParts := |latestVersionParts|;
    }
    ghost var tie := TieBreak(isPreRelease, dirPreReleaseFlag, latest);
    isLatest := false;
    var versionPartIndex := 0;
    while versionPartIndex < |versionParts|
      invariant versionPartIndex <= |versionParts|
      invariant !isLatest
      invariant BeatsFrom(versionParts, latestVersionParts, maxVersionParts - 1, tie, 0)
             == BeatsFrom(versionParts, latestVersionParts, maxVersionParts - 1, tie, versionPartIndex)
    {
      var versionPart: Option<int> := Some(0);
      var latestVersionPart: Option<int> := Some(0);
      var isLastVersionPart := versionPartIndex == maxVersionParts - 1;
      if versionPartIndex < |versionParts| {
        versionPart := ParseInt(versionParts[versionPartIndex]);
      }
      if versionPartIndex < |latestVersionParts| {
        latestVersionPart := ParseInt(latestVersionParts[versionPartIndex]);
      }
      if NumberGreater(versionPart, latestVersionPart) {
        isLatest := true;
      } else if NumberEquals(versionPart, latestVersionPart) {
        isLatest := isLastVersionPart
          && ((isPreRelease && latest.isPreRelease && FlagGreater(dirPreReleaseFlag, latest.preReleaseFlag))
              || (!isPreRelease && latest.isPreRelease));
      } else {
        break;
      }
      if isLatest {
        break;
      }
      versionPartIndex := versionPartIndex + 1;
    }
  }

  /**
    `findLatestVersionDirectory(versionsDirectory, isPreRelease)` over the
    listing `dirs` that `getDirectories` returns.
  */
  method FindLatestVersionDirectory(versionsDirectory: string, dirs: seq<string>, isPreRelease: bool)
    returns (latestDirectory: Option<string>)
    ensures latestDirectory == SelectedDirectory(versionsDirectory, dirs, isPreRelease)
    ensures latestDirectory.None? <==> forall j :: 0 <= j < |dirs| ==> !Considered(dirs[j], isPreRelease)
    ensures latestDirectory.Some? ==>
      exists j :: 0 <= j < |dirs| && latestDirectory == Some(PathJoin(versionsDirectory, dirs[j]))
        && dirs[j] != [] && MatchesDirRegex(dirs[j]) && (isPreRelease || '-' !in dirs[j])
  {
    latestDirectory := None;
    var latestVersionParts: Option<seq<string>> := None;
    var latestIsPreRelease := false;
    var latestPreReleaseFlag: Option<string> := None;
    for dirIndex := 0 to |dirs|
      invariant Tracks(latestDirectory, latestVersionParts, latestIsPreRelease, latestPreReleaseFlag,
                       Scan(versionsDirectory, dirs[..dirIndex], isPreRelease))
    {
      ScanPrefixStep(versionsDirectory, dirs, dirIndex, isPreRelease);
      var dir := dirs[dirIndex];
      if dir == [] {
        continue;
      }
      if !IsVersionName(dir) {
        continue;
      }
      var fullVersionParts := Split(dir, '-');
      var dirIsPreRelease := |fullVersionParts| > 1;
      if !isPreRelease && dirIsPreRelease {
        continue;
      }
      var dirPreReleaseFlag: Option<string> := None;
      if dirIsPreRelease {
        dirPreReleaseFlag := Some(fullVersionParts[1]);
      }
      var versionParts := Split(dir, '.');
      var isLatest := latestDirectory.None?;
      if !isLatest {
        isLatest := IsLaterVersion(versionParts, dirPreReleaseFlag, isPreRelease,
          Latest(latestDirectory.value, latestVersionParts.value, latestIsPreRelease, latestPreReleaseFlag));
      }
      if isLatest {
        latestDirectory := Some(PathJoin(versionsDirectory, dir));
        latestVersionParts := Some(versionParts);
        latestIsPreRelease := dirIsPreRelease;
        latestPreReleaseFlag := dirPreReleaseFlag;
      }
    }
    assert dirs[..|dirs|] == dirs;
    SelectedDirectoryIsListed(versionsDirectory, dirs, isPreRelease);
  }
}
