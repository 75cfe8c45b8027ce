/**
 * The JavaScript string built-ins the core relies on, on strings modelled as
 * `seq<char>`: `String.prototype.split` with a non-empty string separator,
 * `String.prototype.replaceAll` with a non-empty string pattern and a literal
 * replacement, and `String(n)` for a non-negative integer.
 */
module JsString {

  /** `s.startsWith(t)`. */
  predicate StartsWith(s: string, t: string) {
    |t| <= |s| && s[..|t|] == t
  }

  /** `s.includes(t)`: `t` occurs somewhere in `s`. */
  predicate Contains(s: string, t: string)
    decreases |s|
  {
    StartsWith(s, t) || (|s| > 0 && Contains(s[1..], t))
  }

  /** `parts.join(sep)`. */
  function Join(parts: seq<string>, sep: string): string
    decreases |parts|
  {
    if |parts| == 0 then ""
    else if |parts| == 1 then parts[0]
    else parts[0] + sep + Join(parts[1..], sep)
  }

  /** Prepending a character to the first part prepends it to the joined string. */
  lemma JoinConsFirst(c: char, parts: seq<string>, sep: string)
    requires |parts| >= 1
    ensures Join([[c] + parts[0]] + parts[1..], sep) == [c] + Join(parts, sep)
  {
    var ps := [[c] + parts[0]] + parts[1..];
    assert ps[1..] == parts[1..];
  }

  /** A prefix of a string that does not start with `t` does not start with `t` either. */
  lemma PrefixNotStartsWith(p: string, s: string, t: string)
    requires !StartsWith(s, t)
    requires |p| <= |s| && s[..|p|] == p
    ensures !StartsWith(p, t)
  {
    if |t| <= |p| {
      assert s[..|t|] == p[..|t|];
    }
  }

  /**
   * `s.split(sep)`: the pieces between the occurrences of `sep` found scanning
   * from the left, each occurrence ending where the next search begins.
   * Joining the pieces with `sep` gives `s` back, there is always at least one
   * piece, and no piece contains `sep`.
   */
  function SplitOn(s: string, sep: string): (parts: seq<string>)
    requires |sep| > 0
    ensures |parts| >= 1
    ensures Join(parts, sep) == s
    ensures forall i :: 0 <= i < |parts| ==> !Contains(parts[i], sep)
    decreases |s|
  {
    if StartsWith(s, sep) then
      var rest := SplitOn(s[|sep|..], sep);
      SplitAtSeparator(s, sep, rest);
      SplitAtSeparatorClean(sep, rest);
      [""] + rest
    else if s == [] then
      [s]
    else
      var rest := SplitOn(s[1..], sep);
      SplitPastCharacter(s, sep, rest);
      SplitPastCharacterClean(s, sep, rest);
      [[s[0]] + rest[0]] + rest[1..]
  }

  /** A string starting with the separator: an empty piece, then the pieces of the rest. */
  lemma SplitAtSeparator(s: string, sep: string, rest: seq<string>)
    requires StartsWith(s, sep)
    requires |rest| >= 1 && Join(rest, sep) == s[|sep|..]
    ensures Join([""] + rest, sep) == s
  {
    var parts := [""] + rest;
    assert parts[0] == "" && parts[1..] == rest;
    assert Join(parts, sep) == parts[0] + sep + Join(parts[1..], sep);
    assert parts[0] + sep == sep;
    assert s == s[..|sep|] + s[|sep|..];
  }

  /** The empty piece in front holds no separator, and neither does any piece of the rest. */
  lemma SplitAtSeparatorClean(sep: string, rest: seq<string>)
    requires |sep| > 0
    requires forall i :: 0 <= i < |rest| ==> !Contains(rest[i], sep)
    ensures var parts := [""] + rest;
      forall i :: 0 <= i < |parts| ==> !Contains(parts[i], sep)
  {
    var parts := [""] + rest;
    assert !Contains(parts[0], sep);
    forall i | 1 <= i < |parts| ensures !Contains(parts[i], sep) {
      assert parts[i] == rest[i - 1];
    }
  }

  /** A string not starting with the separator: its first character joins the first piece of the rest. */
  lemma SplitPastCharacter(s: string, sep: string, rest: seq<string>)
    requires s != [] && |rest| >= 1 && Join(rest, sep) == s[1..]
    ensures Join([[s[0]] + rest[0]] + rest[1..], sep) == s
  {
    JoinConsFirst(s[0], rest, sep);
    assert s == [s[0]] + s[1..];
  }

  /** Growing the first piece by a character that starts no separator keeps every piece free of it. */
  lemma SplitPastCharacterClean(s: string, sep: string, rest: seq<string>)
    requires |sep| > 0 && s != [] && !StartsWith(s, sep)
    requires |rest| >= 1 && Join(rest, sep) == s[1..]
    requires forall i :: 0 <= i < |rest| ==> !Contains(rest[i], sep)
    ensures var parts := [[s[0]] + rest[0]] + rest[1..];
      forall i :: 0 <= i < |parts| ==> !Contains(parts[i], sep)
  {
    var parts := [[s[0]] + rest[0]] + rest[1..];
    FirstPieceClean(s, sep, rest);
    assert parts[0] == [s[0]] + rest[0];
    forall i | 1 <= i < |parts| ensures !Contains(parts[i], sep) {
      assert parts[i] == rest[i];
    }
  }

  /** The first piece, grown by the first character, still holds no separator. */
  lemma FirstPieceClean(s: string, sep: string, rest: seq<string>)
    requires |sep| > 0 && s != [] && !StartsWith(s, sep)
    requires |rest| >= 1 && Join(rest, sep) == s[1..] && !Contains(rest[0], sep)
    ensures !Contains([s[0]] + rest[0], sep)
  {
    var first := [s[0]] + rest[0];
    JoinPrefix(rest, sep);
    assert s[..|first|] == first;
    PrefixNotStartsWith(first, s, sep);
    assert first[1..] == rest[0];
  }

  /** The first part is a prefix of the joined string. */
  lemma JoinPrefix(parts: seq<string>, sep: string)
    requires |parts| >= 1
    ensures |parts[0]| <= |Join(parts, sep)|
    ensures Join(parts, sep)[..|parts[0]|] == parts[0]
  {
  }

  /**
   * The pieces are cut at the leftmost occurrences: no occurrence of `sep`
   * starts inside the first piece, and when there are more pieces, one starts
   * right after it and the remaining pieces are the split of what follows.
   */
  lemma {:induction false} SplitOnFirstDivider(s: string, sep: string)
    requires |sep| > 0
    ensures var parts := SplitOn(s, sep);
      && (forall k :: 0 <= k < |parts[0]| ==> !StartsWith(s[k..], sep))
      && (|parts| == 1 ==> parts[0] == s)
      && (|parts| > 1 ==>
            && |parts[0]| + |sep| <= |s|
            && StartsWith(s[|parts[0]|..], sep)
            && parts[1..] == SplitOn(s[|parts[0]| + |sep|..], sep))
    decreases |s|
  {
    var parts := SplitOn(s, sep);
    if StartsWith(s, sep) {
      var rest := SplitOn(s[|sep|..], sep);
      assert parts == [""] + rest;
      assert parts[1..] == rest;
      assert s[0..] == s;
    } else if s != [] {
      var t := s[1..];
      var rest := SplitOn(t, sep);
      SplitOnFirstDivider(t, sep);
      assert parts == [[s[0]] + rest[0]] + rest[1..];
      assert |parts| == |rest|;
      forall k | 0 <= k < |parts[0]| ensures !StartsWith(s[k..], sep) {
        if k > 0 {
          assert s[k..] == t[k - 1..];
        }
      }
      if |parts| > 1 {
        assert s[|parts[0]|..] == t[|rest[0]|..];
        assert s[|parts[0]| + |sep|..] == t[|rest[0]| + |sep|..];
        assert parts[1..] == rest[1..];
      }
    }
  }

  /** A string that does not contain the separator splits into itself alone. */
  lemma {:induction false} SplitOnAbsent(s: string, sep: string)
    requires |sep| > 0
    requires !Contains(s, sep)
    ensures SplitOn(s, sep) == [s]
    decreases |s|
  {
    if s != [] {
      SplitOnAbsent(s[1..], sep);
      assert [s[0]] + s[1..] == s;
    }
  }

  /**
   * The character at index `j` of `sep` occurs nowhere else in `sep` and not
   * at all in `a`: no occurrence of `sep` can start inside `a`.
   */
  predicate AnchoredOutside(a: string, sep: string, j: nat) {
    && j < |sep|
    && (forall k :: 0 <= k < |sep| && k != j ==> sep[k] != sep[j])
    && sep[j] !in a
  }

  /** Under `AnchoredOutside`, a string `a + sep + b` splits first at the end of `a`. */
  lemma {:induction false} SplitOnAround(a: string, sep: string, b: string, j: nat)
    requires |sep| > 0
    requires AnchoredOutside(a, sep, j)
    ensures SplitOn(a + sep + b, sep) == [a] + SplitOn(b, sep)
    decreases |a|
  {
    var s := a + sep + b;
    if a == [] {
      assert s == sep + b && s[..|sep|] == sep && s[|sep|..] == b;
    } else {
      assert s[j] != sep[j] by {
        if j < |a| {
          assert s[j] == a[j];
        } else {
          assert s[j] == sep[j - |a|];
        }
      }
      assert !StartsWith(s, sep);
      assert a[1..] + sep + b == s[1..];
      assert AnchoredOutside(a[1..], sep, j) by {
        forall k | 0 <= k < |a[1..]| ensures a[1..][k] != sep[j] {
          assert a[1..][k] == a[k + 1];
        }
      }
      SplitOnAround(a[1..], sep, b, j);
      assert [a[0]] + a[1..] == a;
    }
  }

  /** Under `AnchoredOutside`, `a` contains no occurrence of `sep`. */
  lemma {:induction false} AnchoredAbsent(a: string, sep: string, j: nat)
    requires |sep| > 0
    requires AnchoredOutside(a, sep, j)
    ensures !Contains(a, sep)
    decreases |a|
  {
    if |sep| <= |a| {
      assert a[..|sep|][j] == a[j];
    }
    if a != [] {
      assert AnchoredOutside(a[1..], sep, j) by {
        forall k | 0 <= k < |a[1..]| ensures a[1..][k] != sep[j] {
          assert a[1..][k] == a[k + 1];
        }
      }
      AnchoredAbsent(a[1..], sep, j);
    }
  }

  /**
   * `s.replaceAll(pattern, replacement)` with a literal replacement: every
   * occurrence of `pattern` found scanning from the left is replaced, and the
   * scan resumes after the replaced occurrence.
   */
  function ReplaceAll(s: string, pattern: string, replacement: string): (r: string)
    requires |pattern| > 0
    ensures !Contains(s, pattern) ==> r == s
    decreases |s|
  {
    if StartsWith(s, pattern) then
      replacement + ReplaceAll(s[|pattern|..], pattern, replacement)
    else if s == [] then
      s
    else
      assert s == [s[0]] + s[1..];
      [s[0]] + ReplaceAll(s[1..], pattern, replacement)
  }

  /**
   * Replacing every occurrence is splitting on the pattern and joining with
   * the replacement: the two built-ins agree on which occurrences they find.
   */
  lemma {:induction false} ReplaceAllIsSplitJoin(s: string, pattern: string, replacement: string)
    requires |pattern| > 0
    ensures ReplaceAll(s, pattern, replacement) == Join(SplitOn(s, pattern), replacement)
    decreases |s|
  {
    if StartsWith(s, pattern) {
      ReplaceAllIsSplitJoin(s[|pattern|..], pattern, replacement);
      var rest := SplitOn(s[|pattern|..], pattern);
      var parts := [""] + rest;
      assert SplitOn(s, pattern) == parts;
      assert parts[0] == "" && parts[1..] == rest;
      assert Join(parts, replacement) == parts[0] + replacement + Join(parts[1..], replacement);
      assert parts[0] + replacement == replacement;
    } else if s != [] {
      ReplaceAllIsSplitJoin(s[1..], pattern, replacement);
      var rest := SplitOn(s[1..], pattern);
      assert SplitOn(s, pattern) == [[s[0]] + rest[0]] + rest[1..];
      JoinConsFirst(s[0], rest, replacement);
    }
  }

  /** Under `AnchoredOutside` on both sides, the one occurrence of `pattern` is replaced. */
  lemma ReplaceAround(a: string, pattern: string, b: string, replacement: string, j: nat)
    requires |pattern| > 0
    requires AnchoredOutside(a, pattern, j) && AnchoredOutside(b, pattern, j)
    ensures ReplaceAll(a + pattern + b, pattern, replacement) == a + replacement + b
  {
    ReplaceAllIsSplitJoin(a + pattern + b, pattern, replacement);
    SplitOnAround(a, pattern, b, j);
    AnchoredAbsent(b, pattern, j);
    SplitOnAbsent(b, pattern);
  }

  /** `String(d)` for one decimal digit. */
  function DigitChar(d: nat): (c: char)
    requires d < 10
    ensures '0' <= c <= '9' && c as int - '0' as int == d
  {
    ('0' as int + d) as char
  }

  /** `String(n)` for a non-negative integer: its decimal digits, no leading zero. */
  function DecimalString(n: nat): (r: string)
    ensures |r| >= 1
    ensures forall i :: 0 <= i < |r| ==> '0' <= r[i] <= '9'
    ensures |r| > 1 ==> r[0] != '0'
    decreases n
  {
    if n < 10 then [DigitChar(n)] else DecimalString(n / 10) + [DigitChar(n % 10)]
  }

  /** The number a string of decimal digits denotes. */
  function DecimalValue(s: string): nat
    requires forall i :: 0 <= i < |s| ==> '0' <= s[i] <= '9'
    decreases |s|
  {
    if s == [] then 0
    else 10 * DecimalValue(s[..|s| - 1]) + (s[|s| - 1] as int - '0' as int)
  }

  /** Reading back the decimal rendering gives the number. */
  lemma {:induction false} DecimalRoundTrip(n: nat)
    ensures DecimalValue(DecimalString(n)) == n
    decreases n
  {
    if n >= 10 {
      DecimalRoundTrip(n / 10);
      var r := DecimalString(n);
      assert r[..|r| - 1] == DecimalString(n / 10);
    }
  }
}
