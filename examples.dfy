/**
  A worked listing for `findLatestVersionDirectory` (lib/msca-installer.js:111-189)
  showing that its result depends on the listing order once a name ends in `.`:
  the empty part after the dot is `NaN` to `parseInt`, and a comparison that
  meets `NaN` always keeps the current best.
*/
module Examples {
  import opened Wrappers
  import opened JsText
  import opened VersionPattern
  import opened VersionSelection

  /** A name `x.y.z` of digit runs, `z` possibly empty, is a stable version name with parts `x`, `y`, `z`. */
  lemma ThreeParts(versionsDirectory: string, x: string, y: string, z: string)
    requires IsDigitRun(x) && IsDigitRun(y) && AllDigits(z)
    ensures var name := x + "." + y + "." + z;
      && Split(name, '.') == [x, y, z]
      && Considered(name, false)
      && LatestFor(versionsDirectory, name) == Latest(PathJoin(versionsDirectory, name), [x, y, z], false, None)
  {
    var name := x + "." + y + "." + z;
    assert '.' !in x && '.' !in y && '.' !in z by {
      assert forall i :: 0 <= i < |x| ==> IsDigit(x[i]);
      assert forall i :: 0 <= i < |y| ==> IsDigit(y[i]);
      assert forall i :: 0 <= i < |z| ==> IsDigit(z[i]);
    }
    assert name == x + ['.'] + (y + ['.'] + z);
    SplitSingle(z, '.');
    SplitAtSeparator(y, z, '.');
    SplitAtSeparator(x, y + ['.'] + z, '.');
    assert '-' !in name by {
      forall i | 0 <= i < |name| ensures name[i] != '-' {
        if i < |x| { assert name[i] == x[i]; }
        else if i == |x| { assert name[i] == '.'; }
        else if i < |x| + 1 + |y| { assert name[i] == y[i - |x| - 1]; }
        else if i == |x| + 1 + |y| { assert name[i] == '.'; }
        else { assert name[i] == z[i - |x| - |y| - 2]; }
      }
    }
    SplitSingle(name, '-');
  }

  lemma SmallParts()
    ensures ParseInt("1") == Some(1) && ParseInt("2") == Some(2) && ParseInt("") == None
  {
    ParseIntOfDigitRun("1", []);
    ParseIntOfDigitRun("2", []);
    assert "1" + [] == "1" && "2" + [] == "2";
    assert "1"[..0] == [] && "2"[..0] == [];
    ParseIntNoDigits("");
  }

  /** "1.2." passes the stable-mode filters; its last part is empty. */
  lemma TrailingDotName()
    ensures Considered("1.2.", false)
    ensures LatestFor("v", "1.2.") == Latest("v/1.2.", ["1", "2", ""], false, None)
  {
    ThreeParts("v", "1", "2", "");
    assert "1" + "." + "2" + "." + "" == "1.2.";
  }

  lemma PlainName()
    ensures Considered("1.2.1", false)
    ensures LatestFor("v", "1.2.1") == Latest("v/1.2.1", ["1", "2", "1"], false, None)
  {
    ThreeParts("v", "1", "2", "1");
    assert "1" + "." + "2" + "." + "1" == "1.2.1";
  }

  /** Whichever of "1.2." and "1.2.1" is listed first is selected. */
  lemma TrailingDotMakesOrderMatter()
    ensures SelectedDirectory("v", ["1.2.", "1.2.1"], false) == Some("v/1.2.")
    ensures SelectedDirectory("v", ["1.2.1", "1.2."], false) == Some("v/1.2.1")
  {
    TrailingDotName();
    PlainName();
    SmallParts();
    var a, b := LatestFor("v", "1.2."), LatestFor("v", "1.2.1");
    assert !BeatsFrom(["1", "2", "1"], ["1", "2", ""], 2, false, 2);
    assert !Supersedes("1.2.1", false, a);
    assert !BeatsFrom(["1", "2", ""], ["1", "2", "1"], 2, false, 2);
    assert !Supersedes("1.2.", false, b);
    assert DropLast(["1.2.", "1.2.1"]) == ["1.2."] && DropLast(["1.2.1", "1.2."]) == ["1.2.1"];
    assert DropLast(["1.2."]) == [] && DropLast(["1.2.1"]) == [];
  }
}
