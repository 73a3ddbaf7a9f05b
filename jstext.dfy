/**
  The parts of JavaScript's string and number semantics the installer relies on:
  `String.prototype.split` with a one-character separator, `parseInt`, the
  relational `>` and `==` on numbers that may be `NaN`, `>` on strings, and
  Node's `path.join`.
*/
module JsText {
  import opened Wrappers

  /** `path.join(directory, name)`: one more path segment (no normalisation). */
  function PathJoin(directory: string, name: string): string {
    directory + "/" + name
  }

  predicate IsDigit(ch: char) { '0' <= ch <= '9' }

  /** The characters of the regular-expression class `\w`. */
  predicate IsWordChar(ch: char) {
    IsDigit(ch) || ('a' <= ch <= 'z') || ('A' <= ch <= 'Z') || ch == '_'
  }

  predicate AllDigits(s: string) { forall i :: 0 <= i < |s| ==> IsDigit(s[i]) }

  /** A non-empty run of decimal digits (`\d+`). */
  predicate IsDigitRun(s: string) { |s| > 0 && AllDigits(s) }

  /** A non-empty run of word characters (`\w+`). */
  predicate IsWord(s: string) { |s| > 0 && forall i :: 0 <= i < |s| ==> IsWordChar(s[i]) }

  // ---------------------------------------------------------------------------
  // split / join

  /** `s.split(c)`: the pieces of `s` between occurrences of `c`, in order. */
  function Split(s: string, c: char): (pieces: seq<string>)
    ensures |pieces| >= 1
  {
    if s == [] then [[]]
    else
      var rest := Split(s[1..], c);
      if s[0] == c then [[]] + rest
      else [[s[0]] + rest[0]] + rest[1..]
  }

  function Last<T>(s: seq<T>): T requires |s| > 0 { s[|s| - 1] }

  function DropLast<T>(s: seq<T>): seq<T> requires |s| > 0 { s[..|s| - 1] }

  /** `pieces.join(c)`. */
  function Join(pieces: seq<string>, c: char): string
    requires |pieces| >= 1
    decreases |pieces|
  {
    if |pieces| == 1 then pieces[0] else pieces[0] + [c] + Join(pieces[1..], c)
  }

  /** Splitting and joining again with the same separator gives back the string. */
  lemma {:induction false} JoinSplit(s: string, c: char)
    ensures Join(Split(s, c), c) == s
  {
    if s != [] {
      JoinSplit(s[1..], c);
      var rest := Split(s[1..], c);
      if s[0] == c {
        JoinAfterSeparator(rest, c);
      } else {
        JoinAfterChar(s[0], rest, c);
      }
      assert s == [s[0]] + s[1..];
    }
  }

  /** An empty first piece contributes just the separator. */
  lemma JoinAfterSeparator(rest: seq<string>, c: char)
    requires |rest| >= 1
    ensures Join([[]] + rest, c) == [c] + Join(rest, c)
  {
    var p := [[]] + rest;
    assert p[0] == [] && p[1..] == rest;
  }

  /** A character in front of the first piece comes first in the joined string. */
  lemma JoinAfterChar(ch: char, rest: seq<string>, c: char)
    requires |rest| >= 1
    ensures Join([[ch] + rest[0]] + rest[1..], c) == [ch] + Join(rest, c)
  {
    var p := [[ch] + rest[0]] + rest[1..];
    assert p[0] == [ch] + rest[0] && p[1..] == rest[1..];
    if |rest| > 1 {
      assert Join(p, c) == ([ch] + rest[0]) + [c] + Join(rest[1..], c);
      assert Join(rest, c) == rest[0] + [c] + Join(rest[1..], c);
    }
  }

  /** No piece contains the separator. */
  lemma {:induction false} SplitPiecesOmitSeparator(s: string, c: char)
    ensures forall i :: 0 <= i < |Split(s, c)| ==> c !in Split(s, c)[i]
  {
    if s != [] {
      SplitPiecesOmitSeparator(s[1..], c);
    }
  }

  /** There is a single piece exactly when the separator does not occur. */
  lemma {:induction false} SplitSingle(s: string, c: char)
    ensures |Split(s, c)| == 1 <==> c !in s
    ensures c !in s ==> Split(s, c) == [s]
  {
    if s != [] {
      SplitSingle(s[1..], c);
      assert s == [s[0]] + s[1..];
    }
  }

  /** Splitting `a c b` where `a` is free of `c` puts `a` first and then the pieces of `b`. */
  lemma {:induction false} SplitAtSeparator(a: string, b: string, c: char)
    requires c !in a
    ensures Split(a + [c] + b, c) == [a] + Split(b, c)
    decreases |a|
  {
    var s := a + [c] + b;
    if a == [] {
      assert s[1..] == b;
    } else {
      assert s[1..] == a[1..] + [c] + b;
      SplitAtSeparator(a[1..], b, c);
      assert [a[0]] + a[1..] == a;
    }
  }

  /** Prepending a `c`-free head only lengthens the first piece. */
  lemma {:induction false} SplitPrependFree(d: string, t: string, c: char)
    requires c !in d
    ensures Split(d + t, c) == [d + Split(t, c)[0]] + Split(t, c)[1..]
    decreases |d|
  {
    if d == [] {
      assert d + t == t && d + Split(t, c)[0] == Split(t, c)[0];
      assert [Split(t, c)[0]] + Split(t, c)[1..] == Split(t, c);
    } else {
      assert (d + t)[1..] == d[1..] + t;
      SplitPrependFree(d[1..], t, c);
      assert [d[0]] + (d[1..] + Split(t, c)[0]) == d + Split(t, c)[0];
    }
  }

  /** Appending a `c`-free tail only lengthens the last piece. */
  lemma {:induction false} SplitAppendFree(a: string, t: string, c: char)
    requires c !in t
    ensures Split(a + t, c) == DropLast(Split(a, c)) + [Last(Split(a, c)) + t]
    decreases |a|
  {
    if a == [] {
      SplitSingle(t, c);
      assert a + t == t;
    } else {
      assert (a + t)[1..] == a[1..] + t;
      SplitAppendFree(a[1..], t, c);
      SplitAppendFreeStep(a, t, c);
    }
  }

  /** The inductive step of SplitAppendFree: from the tail `a[1..]` to `a`. */
  lemma {:induction false} SplitAppendFreeStep(a: string, t: string, c: char)
    requires a != [] && c !in t
    requires Split(a[1..] + t, c) == DropLast(Split(a[1..], c)) + [Last(Split(a[1..], c)) + t]
    ensures Split(a + t, c) == DropLast(Split(a, c)) + [Last(Split(a, c)) + t]
  {
    var s := a + t;
    assert s[0] == a[0] && s[1..] == a[1..] + t;
    var rest, rest' := Split(a[1..], c), Split(s[1..], c);
    if a[0] == c {
      assert Split(a, c) == [[]] + rest;
      assert Split(s, c) == [[]] + rest';
      EmptyPieceAppend(rest, rest', t);
    } else {
      assert Split(a, c) == [[a[0]] + rest[0]] + rest[1..];
      assert Split(s, c) == [[a[0]] + rest'[0]] + rest'[1..];
      ConsPieceAppend(a[0], rest, rest', t);
    }
  }

  /** An empty first piece in front commutes with lengthening the last piece. */
  lemma EmptyPieceAppend(rest: seq<string>, rest': seq<string>, t: string)
    requires |rest| >= 1 && rest' == DropLast(rest) + [Last(rest) + t]
    ensures [[]] + rest' == DropLast([[]] + rest) + [Last([[]] + rest) + t]
  {
    assert DropLast([[]] + rest) == [[]] + DropLast(rest);
  }

  /** Gluing a character onto the first piece commutes with lengthening the last piece. */
  lemma ConsPieceAppend(x: char, rest: seq<string>, rest': seq<string>, t: string)
    requires |rest| >= 1 && rest' == DropLast(rest) + [Last(rest) + t]
    ensures [[x] + rest'[0]] + rest'[1..]
         == DropLast([[x] + rest[0]] + rest[1..]) + [Last([[x] + rest[0]] + rest[1..]) + t]
  {
    if |rest| == 1 {
      assert rest' == [rest[0] + t];
      assert [x] + rest'[0] == ([x] + rest[0]) + t;
    } else {
      assert DropLast(rest) == [rest[0]] + DropLast(rest[1..]);
      assert rest'[0] == rest[0];
      assert rest'[1..] == DropLast(rest[1..]) + [Last(rest[1..]) + t];
      assert DropLast([[x] + rest[0]] + rest[1..]) == [[x] + rest[0]] + DropLast(rest[1..]);
    }
  }

  /** The last piece is empty exactly when `s` is empty or ends with the separator. */
  lemma {:induction false} SplitLastEmpty(s: string, c: char)
    ensures Split(s, c)[|Split(s, c)| - 1] == [] <==> (s == [] || s[|s| - 1] == c)
  {
    if s != [] {
      SplitLastEmpty(s[1..], c);
    }
  }

  // ---------------------------------------------------------------------------
  // parseInt

  function DigitValue(ch: char): nat
    requires IsDigit(ch)
  {
    (ch as int) - ('0' as int)
  }

  predicate IsHexDigit(ch: char) { IsDigit(ch) || ('a' <= ch <= 'f') || ('A' <= ch <= 'F') }

  function HexDigitValue(ch: char): nat
    requires IsHexDigit(ch)
  {
    if IsDigit(ch) then DigitValue(ch)
    else if 'a' <= ch <= 'f' then (ch as int) - ('a' as int) + 10
    else (ch as int) - ('A' as int) + 10
  }

  /** The longest prefix of `s` made of decimal digits. */
  function LeadingDigits(s: string): (d: string)
    ensures AllDigits(d) && d <= s
    ensures |d| < |s| ==> !IsDigit(s[|d|])
  {
    if s != [] && IsDigit(s[0]) then [s[0]] + LeadingDigits(s[1..]) else []
  }

  /** The longest prefix of `s` made of hexadecimal digits. */
  function LeadingHexDigits(s: string): (d: string)
    ensures (forall i :: 0 <= i < |d| ==> IsHexDigit(d[i])) && d <= s
  {
    if s != [] && IsHexDigit(s[0]) then [s[0]] + LeadingHexDigits(s[1..]) else []
  }

  /** The value of a decimal numeral, most significant digit first. */
  function DecimalValue(d: string): nat
    requires AllDigits(d)
  {
    if d == [] then 0 else 10 * DecimalValue(d[..|d| - 1]) + DigitValue(d[|d| - 1])
  }

  function HexValue(d: string): nat
    requires forall i :: 0 <= i < |d| ==> IsHexDigit(d[i])
  {
    if d == [] then 0 else 16 * HexValue(d[..|d| - 1]) + HexDigitValue(d[|d| - 1])
  }

  /** `parseInt` after the sign: a `0x` prefix selects base 16; no digit at all is `NaN`. */
  function ParseMagnitude(s: string): Option<nat>
  {
    if |s| >= 2 && s[0] == '0' && (s[1] == 'x' || s[1] == 'X') then
      var h := LeadingHexDigits(s[2..]);
      if h == [] then None else Some(HexValue(h))
    else
      var d := LeadingDigits(s);
      if d == [] then None else Some(DecimalValue(d))
  }

  /** `parseInt(s)` with no radix; `None` is `NaN`. */
  function ParseInt(s: string): Option<int>
  {
    if |s| > 0 && (s[0] == '-' || s[0] == '+') then
      match ParseMagnitude(s[1..])
      case None => None
      case Some(m) =>
        var v: int := if s[0] == '-' then 0 - (m as int) else m as int;
        Some(v)
    else
      match ParseMagnitude(s)
      case None => None
      case Some(m) => Some(m)
  }

  lemma {:induction false} LeadingDigitsOfRun(d: string, t: string)
    requires AllDigits(d)
    requires t == [] || !IsDigit(t[0])
    ensures LeadingDigits(d + t) == d
    decreases |d|
  {
    if d != [] {
      assert (d + t)[1..] == d[1..] + t;
      LeadingDigitsOfRun(d[1..], t);
      assert [d[0]] + d[1..] == d;
    } else {
      assert d + t == t;
    }
  }

  /**
    `parseInt` reads only the leading digits of a part: a digit run followed by
    nothing or by a `-` parses to the value of the digit run, which is not negative.
  */
  lemma ParseIntOfDigitRun(d: string, t: string)
    requires IsDigitRun(d)
    requires t == [] || t[0] == '-'
    ensures ParseInt(d + t) == Some(DecimalValue(d))
  {
    LeadingDigitsOfRun(d, t);
    var s := d + t;
    assert s[0] == d[0];
    if |s| >= 2 && s[0] == '0' {
      assert s[1] == (if |d| >= 2 then d[1] else t[0]);
    }
  }

  /** A part with no digit (for example the empty part after a trailing dot) is `NaN`. */
  lemma ParseIntNoDigits(s: string)
    requires s == [] || (s[0] != '+' && s[0] != '-' && !IsDigit(s[0]))
    ensures ParseInt(s) == None
  {
  }

  // ---------------------------------------------------------------------------
  // relational operators

  /** `a > b` on numbers: false whenever either side is `NaN`. */
  predicate NumberGreater(a: Option<int>, b: Option<int>) {
    a.Some? && b.Some? && a.value > b.value
  }

  /** `a == b` on numbers: false whenever either side is `NaN`. */
  predicate NumberEquals(a: Option<int>, b: Option<int>) {
    a.Some? && b.Some? && a.value == b.value
  }

  /** `a > b` on strings: code-unit order, a proper prefix being smaller. */
  predicate StringGreater(a: string, b: string) {
    if b == [] then a != []
    else if a == [] then false
    else a[0] > b[0] || (a[0] == b[0] && StringGreater(a[1..], b[1..]))
  }

  /** String `>` is a strict weak order: if `a > b` and not `c > b`, then `a > c`. */
  lemma {:induction false} StringGreaterNegTransitive(a: string, b: string, c: string)
    requires StringGreater(a, b) && !StringGreater(c, b)
    ensures StringGreater(a, c)
    decreases |b|
  {
    if b != [] && c != [] && a[0] == b[0] && c[0] == b[0] {
      StringGreaterNegTransitive(a[1..], b[1..], c[1..]);
    }
  }

  lemma {:induction false} StringGreaterAsymmetric(a: string, b: string)
    requires StringGreater(a, b)
    ensures !StringGreater(b, a)
    decreases |a|
  {
    if a != [] && b != [] && a[0] == b[0] {
      StringGreaterAsymmetric(a[1..], b[1..]);
    }
  }

  /** String `>` is irreflexive and total on distinct strings. */
  lemma {:induction false} StringGreaterTotal(a: string, b: string)
    ensures !StringGreater(a, a)
    ensures a != b ==> StringGreater(a, b) || StringGreater(b, a)
  {
    if a != [] {
      StringGreaterTotal(a[1..], a[1..]);
      if b != [] {
        StringGreaterTotal(a[1..], b[1..]);
        if a[0] == b[0] && a[1..] == b[1..] {
          assert a == [a[0]] + a[1..] && b == [b[0]] + b[1..];
        }
      }
    }
  }
}
