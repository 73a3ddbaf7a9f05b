/**
  Which directory names count as version directories: the regular expression
  `^(\d+\.?){1,6}(\-\w+)?$` of lib/msca-installer.js, first as written (a
  specification), then as a test on the name's `-` and `.` pieces (what the
  selection loop uses), and a proof that the two accept exactly the same names.
*/
module VersionPattern {
  import opened JsText

  // ---------------------------------------------------------------------------
  // The regular expression as written

  /** One repetition of the group `\d+\.?`. */
  predicate IsGroup(g: string) {
    IsDigitRun(g) || (|g| >= 2 && g[|g| - 1] == '.' && IsDigitRun(g[..|g| - 1]))
  }

  function Concat(gs: seq<string>): string {
    if gs == [] then [] else gs[0] + Concat(gs[1..])
  }

  /** The optional suffix `(\-\w+)?`. */
  predicate TagSuffix(t: string) {
    t == [] || (t[0] == '-' && IsWord(t[1..]))
  }

  /** `^(\d+\.?){1,6}(\-\w+)?$` matches `s`: one to six groups, then the optional suffix. */
  ghost predicate MatchesDirRegex(s: string) {
    exists gs: seq<string>, j ::
      && 0 <= j <= |s| && 1 <= |gs| <= 6
      && (forall k :: 0 <= k < |gs| ==> IsGroup(gs[k]))
      && Concat(gs) == s[..j] && TagSuffix(s[j..])
  }

  // ---------------------------------------------------------------------------
  // The same language, read off the pieces of the name

  /** The `.` pieces of a dotted number: digit runs, the last one empty after a trailing dot. */
  predicate DottedPieces(p: seq<string>) {
    && |p| >= 1
    && (forall i :: 0 <= i < |p| - 1 ==> IsDigitRun(p[i]))
    && AllDigits(p[|p| - 1])
    && (p[|p| - 1] == [] ==> |p| >= 2)
  }

  /** How many digit runs the pieces hold (a trailing empty piece holds none). */
  function RunCount(p: seq<string>): nat
    requires |p| >= 1
  {
    if p[|p| - 1] == [] then |p| - 1 else |p|
  }

  /** One to six dot-separated digit runs, with an optional trailing dot. */
  predicate IsDottedNumber(s: string) {
    var p := Split(s, '.');
    DottedPieces(p) && 1 <= RunCount(p) <= 6
  }

  /** A version directory name: a dotted number, optionally followed by `-` and a word. */
  predicate IsVersionName(s: string) {
    var halves := Split(s, '-');
    |halves| <= 2 && IsDottedNumber(halves[0]) && (|halves| == 2 ==> IsWord(halves[1]))
  }

  // ---------------------------------------------------------------------------
  // The two agree

  /** Groups hold only digits and dots. */
  lemma {:induction false} ConcatChars(gs: seq<string>)
    requires forall k :: 0 <= k < |gs| ==> IsGroup(gs[k])
    ensures forall i :: 0 <= i < |Concat(gs)| ==> IsDigit(Concat(gs)[i]) || Concat(gs)[i] == '.'
  {
    if gs != [] {
      ConcatChars(gs[1..]);
      var g, r := gs[0], Concat(gs[1..]);
      assert IsGroup(g);
      forall i | 0 <= i < |g + r| ensures IsDigit((g + r)[i]) || (g + r)[i] == '.' {
        if i < |g| {
          assert (g + r)[i] == g[i];
          if IsDigitRun(g) {
            assert IsDigit(g[i]);
          } else if i < |g| - 1 {
            assert g[i] == g[..|g| - 1][i];
          }
        } else {
          assert (g + r)[i] == r[i - |g|];
        }
      }
    }
  }

  /** One to six groups split on `.` into dotted-number pieces holding at most that many runs. */
  lemma {:induction false} GroupsArePieces(gs: seq<string>)
    requires |gs| >= 1 && forall k :: 0 <= k < |gs| ==> IsGroup(gs[k])
    ensures DottedPieces(Split(Concat(gs), '.')) && 1 <= RunCount(Split(Concat(gs), '.')) <= |gs|
    decreases |gs|
  {
    var g, r := gs[0], Concat(gs[1..]);
    assert Concat(gs) == g + r;
    if |gs| == 1 {
      assert gs[1..] == [] && r == [];
    } else {
      GroupsArePieces(gs[1..]);
    }
    if IsDigitRun(g) {
      RunThenPieces(g, r, |gs| - 1);
    } else {
      var d := g[..|g| - 1];
      assert g + r == d + ['.'] + r;
      DottedRunThenPieces(d, r, |gs| - 1);
    }
  }

  /** A digit run in front of `r` merges into the first of `r`'s pieces. */
  lemma RunThenPieces(g: string, r: string, n: nat)
    requires IsDigitRun(g)
    requires r == [] || (DottedPieces(Split(r, '.')) && 1 <= RunCount(Split(r, '.')) <= n)
    ensures DottedPieces(Split(g + r, '.')) && 1 <= RunCount(Split(g + r, '.')) <= n + 1
  {
    assert '.' !in g by {
      forall k | 0 <= k < |g| ensures g[k] != '.' { assert IsDigit(g[k]); }
    }
    if r == [] {
      assert g + r == g;
      SplitSingle(g, '.');
    } else {
      SplitPrependFree(g, r, '.');
      MergeFirstPiece(g, Split(r, '.'));
    }
  }

  /** Digits put in front of the first piece keep the pieces a dotted number with as many runs. */
  lemma MergeFirstPiece(g: string, q: seq<string>)
    requires IsDigitRun(g) && DottedPieces(q)
    ensures DottedPieces([g + q[0]] + q[1..]) && RunCount([g + q[0]] + q[1..]) == RunCount(q)
  {
    var p := [g + q[0]] + q[1..];
    assert IsDigitRun(g + q[0]) by {
      forall k | 0 <= k < |g + q[0]| ensures IsDigit((g + q[0])[k]) {
        if k >= |g| { assert (g + q[0])[k] == q[0][k - |g|]; }
      }
    }
    assert forall k :: 0 < k < |p| ==> p[k] == q[k];
  }

  /** A digit run and a dot in front of `r` become a piece of their own. */
  lemma DottedRunThenPieces(d: string, r: string, n: nat)
    requires IsDigitRun(d)
    requires r == [] || (DottedPieces(Split(r, '.')) && 1 <= RunCount(Split(r, '.')) <= n)
    ensures DottedPieces(Split(d + ['.'] + r, '.')) && 1 <= RunCount(Split(d + ['.'] + r, '.')) <= n + 1
  {
    assert '.' !in d by {
      forall k | 0 <= k < |d| ensures d[k] != '.' { assert IsDigit(d[k]); }
    }
    SplitAtSeparator(d, r, '.');
    var p, q := Split(d + ['.'] + r, '.'), Split(r, '.');
    assert p == [d] + q;
    forall k | 0 <= k < |p| - 1 ensures IsDigitRun(p[k]) {
      if k > 0 { assert p[k] == q[k - 1]; }
    }
    assert p[|p| - 1] == q[|q| - 1];
  }

  /** The groups that spell out dotted-number pieces: each run with the dot after it. */
  function GroupsOf(p: seq<string>): seq<string>
    requires |p| >= 1
    decreases |p|
  {
    if |p| == 1 then [p[0]]
    else if p[1..] == [[]] then [p[0] + ['.']]
    else [p[0] + ['.']] + GroupsOf(p[1..])
  }

  /** Dotted-number pieces are spelt by as many groups as they hold runs. */
  lemma {:induction false} PiecesAreGroups(p: seq<string>)
    requires DottedPieces(p)
    ensures forall k :: 0 <= k < |GroupsOf(p)| ==> IsGroup(GroupsOf(p)[k])
    ensures |GroupsOf(p)| == RunCount(p)
    ensures Concat(GroupsOf(p)) == Join(p, '.')
    decreases |p|
  {
    var g := p[0] + ['.'];
    assert g[..|g| - 1] == p[0];
    if |p| == 1 {
      assert Concat([p[0]]) == p[0] + Concat([]);
    } else if p[1..] == [[]] {
      assert Concat([g]) == g + Concat([]);
      assert Join(p, '.') == p[0] + ['.'] + Join([[]], '.');
    } else {
      var rest := p[1..];
      assert DottedPieces(rest) by {
        forall k | 0 <= k < |rest| - 1 ensures IsDigitRun(rest[k]) { assert rest[k] == p[k + 1]; }
      }
      PiecesAreGroups(rest);
      var gs := [g] + GroupsOf(rest);
      assert gs[1..] == GroupsOf(rest);
      forall k | 0 <= k < |gs| ensures IsGroup(gs[k]) {
        if k > 0 { assert gs[k] == GroupsOf(rest)[k - 1]; }
      }
      assert Concat(gs) == g + Concat(GroupsOf(rest));
    }
  }

  /** Every name the piece test accepts is matched by the regular expression. */
  lemma VersionNameMatchesRegex(s: string)
    requires IsVersionName(s)
    ensures MatchesDirRegex(s)
  {
    var halves := Split(s, '-');
    JoinSplit(s, '-');
    var h := halves[0];
    var p := Split(h, '.');
    JoinSplit(h, '.');
    PiecesAreGroups(p);
    var gs := GroupsOf(p);
    if |halves| == 1 {
      assert s == h && s[..|s|] == h && s[|s|..] == [];
      assert Concat(gs) == s[..|s|] && TagSuffix(s[|s|..]);
    } else {
      assert s == h + ['-'] + halves[1];
      assert s[..|h|] == h && s[|h|..] == ['-'] + halves[1];
      assert Concat(gs) == s[..|h|] && TagSuffix(s[|h|..]);
    }
  }

  /** One to six groups spell a dotted number, which has no `-`. */
  lemma GroupsAreDottedNumber(gs: seq<string>)
    requires 1 <= |gs| <= 6 && forall k :: 0 <= k < |gs| ==> IsGroup(gs[k])
    ensures IsDottedNumber(Concat(gs)) && '-' !in Concat(gs)
  {
    var h := Concat(gs);
    ConcatChars(gs);
    GroupsArePieces(gs);
    assert '-' !in h by {
      forall k | 0 <= k < |h| ensures h[k] != '-' { assert IsDigit(h[k]) || h[k] == '.'; }
    }
  }

  /** Every name the regular expression matches passes the piece test. */
  lemma RegexMatchIsVersionName(s: string)
    requires MatchesDirRegex(s)
    ensures IsVersionName(s)
  {
    var gs: seq<string>, j :| && 0 <= j <= |s| && 1 <= |gs| <= 6
      && (forall k :: 0 <= k < |gs| ==> IsGroup(gs[k]))
      && Concat(gs) == s[..j] && TagSuffix(s[j..]);
    var h := s[..j];
    GroupsAreDottedNumber(gs);
    if s[j..] == [] {
      assert s == h;
      SplitSingle(s, '-');
    } else {
      var w := s[j + 1..];
      assert s == h + ['-'] + w;
      assert '-' !in w by {
        forall k | 0 <= k < |w| ensures w[k] != '-' { assert IsWordChar(w[k]); }
      }
      SplitAtSeparator(h, w, '-');
      SplitSingle(w, '-');
      assert Split(s, '-') == [h, w];
    }
  }

  /** The piece test accepts exactly the names the regular expression matches. */
  lemma VersionNameIsRegex(s: string)
    ensures IsVersionName(s) <==> MatchesDirRegex(s)
  {
    if IsVersionName(s) { VersionNameMatchesRegex(s); }
    if MatchesDirRegex(s) { RegexMatchIsVersionName(s); }
  }
}
