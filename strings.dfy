/**
 * The JavaScript string operations the catalog code relies on, restricted to
 * ASCII: `trim`/`trimEnd`, the `\s` class, `toLowerCase`, `endsWith`,
 * `split` on one character, `Array.prototype.join`, `indexOf`, and the
 * decimal rendering of a non-negative integer in a template string.
 */
module Strings {
  import opened Wrappers

  /** ASCII members of `\s` (and of what `trim` removes): TAB, LF, VT, FF, CR and space. */
  predicate IsSpace(c: char) {
    c == ' ' || ('\t' <= c <= '\r')
  }

  predicate IsUpper(c: char) {
    'A' <= c <= 'Z'
  }

  predicate NoSpace(s: string) {
    forall i :: 0 <= i < |s| ==> !IsSpace(s[i])
  }

  /** `toLowerCase` on one ASCII character. */
  function ToLower(c: char): (r: char)
    ensures !IsUpper(r)
    ensures IsSpace(r) <==> IsSpace(c)
    ensures !IsUpper(c) ==> r == c
    ensures IsUpper(c) ==> 'a' <= r <= 'z'
  {
    if IsUpper(c) then (c as int + 32) as char else c
  }

  /** `toLowerCase` on an ASCII string. */
  function Lower(s: string): (r: string)
    ensures |r| == |s|
    ensures forall i :: 0 <= i < |s| ==> r[i] == ToLower(s[i])
  {
    seq(|s|, i requires 0 <= i < |s| => ToLower(s[i]))
  }

  /** Lower-casing works character by character. */
  lemma LowerAppend(a: string, b: string)
    ensures Lower(a + b) == Lower(a) + Lower(b)
  {
  }

  /** Leading whitespace removed. */
  function TrimStart(s: string): (r: string)
    ensures |r| <= |s| && r == s[|s| - |r|..]
    ensures r == [] || !IsSpace(r[0])
    ensures forall i :: 0 <= i < |s| - |r| ==> IsSpace(s[i])
    ensures |s| > 0 && IsSpace(s[0]) ==> |r| < |s|
  {
    if |s| > 0 && IsSpace(s[0]) then TrimStart(s[1..]) else s
  }

  /** `trimEnd`: trailing whitespace removed. */
  function TrimEnd(s: string): (r: string)
    ensures |r| <= |s| && r == s[..|r|]
    ensures r == [] || !IsSpace(r[|r| - 1])
    ensures forall i :: |r| <= i < |s| ==> IsSpace(s[i])
  {
    if |s| > 0 && IsSpace(s[|s| - 1]) then TrimEnd(s[..|s| - 1]) else s
  }

  /** Nothing to trim at the end of a string that ends in a non-space character. */
  lemma TrimEndKeeps(s: string)
    requires s != [] && !IsSpace(s[|s| - 1])
    ensures TrimEnd(s) == s
  {
  }

  /** One trailing space after a non-space character is all that `trimEnd` removes. */
  lemma TrimEndOneSpace(s: string)
    requires s != [] && !IsSpace(s[|s| - 1])
    ensures TrimEnd(s + " ") == s
  {
    assert (s + " ")[..|s|] == s;
  }

  /** `trim`: whitespace removed at both ends. */
  function Trim(s: string): (r: string)
    ensures r == [] || (!IsSpace(r[0]) && !IsSpace(r[|r| - 1]))
    ensures r == [] <==> forall i :: 0 <= i < |s| ==> IsSpace(s[i])
    ensures exists i: nat :: TrimmedAt(s, r, i)
  {
    var t := TrimStart(s);
    SliceTrimmedAt(s, t, TrimEnd(t));
    TrimEnd(t)
  }

  /**
   * A prefix `r` of a suffix `t` of `s`, with only whitespace before `t` and
   * after `r`, is a part of `s` with whitespace around it.
   */
  lemma SliceTrimmedAt(s: string, t: string, r: string)
    requires |t| <= |s| && t == s[|s| - |t|..]
    requires forall k :: 0 <= k < |s| - |t| ==> IsSpace(s[k])
    requires |r| <= |t| && r == t[..|r|]
    requires forall k :: |r| <= k < |t| ==> IsSpace(t[k])
    ensures TrimmedAt(s, r, |s| - |t|)
  {
    var i := |s| - |t|;
    forall k | i + |r| <= k < |s| ensures IsSpace(s[k]) {
      assert t[k - i] == s[k];
    }
  }

  /** `r` is the part of `s` at offset `i`, and everything of `s` before and after it is whitespace. */
  predicate TrimmedAt(s: string, r: string, i: nat) {
    && i + |r| <= |s|
    && r == s[i..i + |r|]
    && (forall k :: 0 <= k < i ==> IsSpace(s[k]))
    && (forall k :: i + |r| <= k < |s| ==> IsSpace(s[k]))
  }

  /** A string that starts and ends with a non-space character is its own trim. */
  lemma TrimOfTrimmed(s: string)
    requires s != [] && !IsSpace(s[0]) && !IsSpace(s[|s| - 1])
    ensures Trim(s) == s
  {
    assert TrimStart(s) == s;
  }

  /** Trimming introduces no character. */
  lemma TrimAbsent(s: string, c: char)
    requires c !in s
    ensures c !in Trim(s)
  {
    var t0 := TrimStart(s);
    assert t0 == s[|s| - |t0|..];
    assert Trim(s) == t0[..|Trim(s)|];
  }

  lemma TrimNoSpace(s: string)
    requires NoSpace(s)
    ensures Trim(s) == s
  {
    if s != [] {
      TrimOfTrimmed(s);
    }
  }

  predicate EndsWith(s: string, suffix: string) {
    |suffix| <= |s| && s[|s| - |suffix|..] == suffix
  }

  /** `parts.join(sep)`: the empty list joins to the empty string. */
  function Join(parts: seq<string>, sep: string): string
  {
    if |parts| == 0 then []
    else if |parts| == 1 then parts[0]
    else parts[0] + sep + Join(parts[1..], sep)
  }

  /** Appending one more part appends the separator and that part. */
  lemma {:induction false} JoinSnoc(parts: seq<string>, p: string, sep: string)
    requires |parts| >= 1
    ensures Join(parts + [p], sep) == Join(parts, sep) + sep + p
  {
    if |parts| == 1 {
      assert (parts + [p])[1..] == [p];
    } else {
      assert (parts + [p])[1..] == parts[1..] + [p];
      JoinSnoc(parts[1..], p, sep);
    }
  }

  /** A join starts with its first part and ends with its last one. */
  lemma {:induction false} JoinEnds(parts: seq<string>, sep: string)
    requires |parts| >= 1
    ensures |parts[0]| <= |Join(parts, sep)| && Join(parts, sep)[..|parts[0]|] == parts[0]
    ensures EndsWith(Join(parts, sep), parts[|parts| - 1])
  {
    if |parts| > 1 {
      JoinEnds(parts[1..], sep);
      var j := Join(parts[1..], sep);
      var r := parts[0] + sep + j;
      assert r[|r| - |j|..] == j;
    }
  }

  /** `s.split(sep)` for a one-character separator: always at least one piece. */
  function Split(s: string, sep: char): (parts: seq<string>)
    ensures |parts| >= 1
    ensures forall i :: 0 <= i < |parts| ==> sep !in parts[i]
    ensures Join(parts, [sep]) == s
  {
    if s == [] then [[]]
    else
      var rest := Split(s[1..], sep);
      if s[0] == sep then
        assert s == [sep] + s[1..];
        [[]] + rest
      else
        assert ([[s[0]] + rest[0]] + rest[1..])[1..] == rest[1..];
        [[s[0]] + rest[0]] + rest[1..]
  }

  /** A string without the separator splits into itself alone. */
  lemma {:induction false} SplitNoSep(s: string, sep: char)
    requires sep !in s
    ensures Split(s, sep) == [s]
  {
    if s != [] {
      SplitNoSep(s[1..], sep);
    }
  }

  /** The piece before the first separator is split off first. */
  lemma {:induction false} SplitCons(p: string, sep: char, t: string)
    requires sep !in p
    ensures Split(p + [sep] + t, sep) == [p] + Split(t, sep)
  {
    if p == [] {
      assert ([sep] + t)[1..] == t;
    } else {
      assert (p + [sep] + t)[1..] == p[1..] + [sep] + t;
      SplitCons(p[1..], sep, t);
      var rest := Split(p[1..] + [sep] + t, sep);
      assert rest[0] == p[1..] && rest[1..] == Split(t, sep);
      assert [p[0]] + p[1..] == p;
    }
  }

  /** Splitting undoes joining, when no piece holds the separator. */
  lemma {:induction false} SplitJoin(parts: seq<string>, sep: char)
    requires |parts| >= 1
    requires forall i :: 0 <= i < |parts| ==> sep !in parts[i]
    ensures Split(Join(parts, [sep]), sep) == parts
  {
    if |parts| == 1 {
      SplitNoSep(parts[0], sep);
    } else {
      SplitJoin(parts[1..], sep);
      SplitCons(parts[0], sep, Join(parts[1..], [sep]));
      assert parts == [parts[0]] + parts[1..];
    }
  }

  /** `s.replace(/\s+/g, '-')`: every maximal run of whitespace becomes one `-`. */
  function CollapseSpaces(s: string): (r: string)
    ensures NoSpace(r)
    decreases |s|
  {
    if s == [] then []
    else if IsSpace(s[0]) then
      var rest := CollapseSpaces(TrimStart(s));
      NoSpaceCons('-', rest);
      "-" + rest
    else
      var rest := CollapseSpaces(s[1..]);
      NoSpaceCons(s[0], rest);
      [s[0]] + rest
  }

  lemma NoSpaceCons(c: char, s: string)
    requires !IsSpace(c) && NoSpace(s)
    ensures NoSpace([c] + s)
  {
    forall i | 0 <= i < |[c] + s| ensures !IsSpace(([c] + s)[i]) {
      if i > 0 {
        assert ([c] + s)[i] == s[i - 1];
      }
    }
  }

  /** The collapse introduces no character other than `-`. */
  lemma {:induction false} CollapseSpacesIntroducesOnlyDash(s: string, c: char)
    requires c !in s && c != '-'
    ensures c !in CollapseSpaces(s)
    decreases |s|
  {
    if s != [] {
      if IsSpace(s[0]) {
        var t := TrimStart(s);
        assert c !in t by {
          assert t == s[|s| - |t|..];
        }
        CollapseSpacesIntroducesOnlyDash(t, c);
      } else {
        assert c !in s[1..];
        CollapseSpacesIntroducesOnlyDash(s[1..], c);
      }
    }
  }

  /** A leading stretch without whitespace is kept as it is. */
  lemma {:induction false} CollapseSpacesAppend(a: string, s: string)
    requires NoSpace(a)
    ensures CollapseSpaces(a + s) == a + CollapseSpaces(s)
  {
    if a != [] {
      var t := a + s;
      assert t[0] == a[0] && !IsSpace(t[0]);
      assert t[1..] == a[1..] + s;
      assert CollapseSpaces(t) == [t[0]] + CollapseSpaces(t[1..]);
      assert NoSpace(a[1..]);
      CollapseSpacesAppend(a[1..], s);
      assert a == [a[0]] + a[1..];
    } else {
      assert a + s == s;
    }
  }

  /** A string without whitespace is left as it is. */
  lemma CollapseSpacesOfNoSpace(s: string)
    requires NoSpace(s)
    ensures CollapseSpaces(s) == s
  {
    CollapseSpacesAppend(s, []);
    assert s + [] == s;
  }

  /** Leading whitespace before a non-space character is all that `TrimStart` removes. */
  lemma {:induction false} TrimStartOfSpaces(w: string, b: string)
    requires forall i :: 0 <= i < |w| ==> IsSpace(w[i])
    requires b != [] && !IsSpace(b[0])
    ensures TrimStart(w + b) == b
  {
    if w == [] {
      assert w + b == b;
    } else {
      assert (w + b)[1..] == w[1..] + b;
      TrimStartOfSpaces(w[1..], b);
    }
  }

  /** A leading run of whitespace becomes a single `-`, and the rest, from its first non-space character, is collapsed on its own. */
  lemma CollapseSpacesRunThen(w: string, b: string)
    requires b != [] && !IsSpace(b[0])
    requires |w| > 0 && forall i :: 0 <= i < |w| ==> IsSpace(w[i])
    ensures CollapseSpaces(w + b) == "-" + CollapseSpaces(b)
  {
    assert (w + b)[0] == w[0];
    TrimStartOfSpaces(w, b);
  }

  /** A string of whitespace only, a trailing run included, becomes a single `-`. */
  lemma CollapseSpacesOfSpaces(w: string)
    requires |w| > 0 && forall i :: 0 <= i < |w| ==> IsSpace(w[i])
    ensures CollapseSpaces(w) == "-"
  {
    assert TrimStart(w) == [];
  }

  /** A leading run of whitespace before a word without whitespace becomes a single `-`. */
  lemma CollapseSpacesLeadingRun(w: string, b: string)
    requires NoSpace(b) && b != []
    requires |w| > 0 && forall i :: 0 <= i < |w| ==> IsSpace(w[i])
    ensures CollapseSpaces(w + b) == "-" + b
  {
    CollapseSpacesRunThen(w, b);
    CollapseSpacesOfNoSpace(b);
  }


  /** A run of whitespace between two words without whitespace becomes a single `-`. */
  lemma CollapseSpacesRun(a: string, w: string, b: string)
    requires NoSpace(a) && NoSpace(b) && b != []
    requires |w| > 0 && forall i :: 0 <= i < |w| ==> IsSpace(w[i])
    ensures CollapseSpaces(a + w + b) == a + "-" + b
  {
    CollapseSpacesLeadingRun(w, b);
    CollapseSpacesAppend(a, w + b);
    assert a + w + b == a + (w + b);
    assert a + ("-" + b) == a + "-" + b;
  }

  /** `s.replace(/a/g, b)` for one character. */
  function ReplaceChar(s: string, a: char, b: char): (r: string)
    ensures |r| == |s|
    ensures forall i :: 0 <= i < |s| ==> r[i] == if s[i] == a then b else s[i]
  {
    seq(|s|, i requires 0 <= i < |s| => if s[i] == a then b else s[i])
  }

  /** Replacing one character by another introduces no third one. */
  lemma ReplaceCharAbsent(s: string, a: char, b: char, c: char)
    requires c !in s && c != b
    ensures c !in ReplaceChar(s, a, b)
  {
    var r := ReplaceChar(s, a, b);
    forall i | 0 <= i < |r| ensures r[i] != c {
      assert s[i] in s;
    }
  }

  predicate OccursAt(s: string, pat: string, i: nat) {
    i + |pat| <= |s| && s[i..i + |pat|] == pat
  }

  /** A pattern absent before position `n` does not occur in the first `n` characters. */
  lemma NoOccurrenceInPrefix(s: string, pat: string, n: nat)
    requires |pat| > 0 && n <= |s|
    requires forall j :: 0 <= j < n ==> !OccursAt(s, pat, j)
    ensures forall j :: 0 <= j <= n ==> !OccursAt(s[..n], pat, j)
  {
    var t := s[..n];
    assert |t| == n;
    forall j | 0 <= j <= n ensures !OccursAt(t, pat, j) {
      if j + |pat| <= n {
        assert j < n;
        assert !OccursAt(s, pat, j);
        assert t[j..j + |pat|] == s[j..j + |pat|];
      }
    }
  }

  /** The first position at or after `from` where `pat` occurs. */
  function IndexOfFrom(s: string, pat: string, from: nat): (r: Option<nat>)
    requires from <= |s|
    ensures r.Some? ==> from <= r.value && OccursAt(s, pat, r.value)
    ensures r.Some? ==> forall j :: from <= j < r.value ==> !OccursAt(s, pat, j)
    ensures r.None? ==> forall j :: from <= j <= |s| ==> !OccursAt(s, pat, j)
    decreases |s| - from
  {
    if OccursAt(s, pat, from) then Some(from)
    else if from == |s| then None
    else IndexOfFrom(s, pat, from + 1)
  }

  /** `s.indexOf(pat)`, with None for -1. */
  function IndexOf(s: string, pat: string): Option<nat>
  {
    IndexOfFrom(s, pat, 0)
  }

  predicate IsDigit(c: char) {
    '0' as int <= c as int <= '9' as int
  }

  function DigitChar(d: nat): (c: char)
    requires d < 10
    ensures IsDigit(c) && c as int - '0' as int == d
  {
    ('0' as int + d) as char
  }

  /** The decimal rendering of `${n}` for a non-negative integer: no leading zeros. */
  function NatToString(n: nat): (r: string)
    ensures |r| >= 1
    ensures forall i :: 0 <= i < |r| ==> IsDigit(r[i])
    ensures r[0] == '0' ==> r == "0"
  {
    if n < 10 then [DigitChar(n)]
    else NatToString(n / 10) + [DigitChar(n % 10)]
  }

  /** The value of a string of decimal digits. */
  function DigitsValue(s: string): nat
    requires forall i :: 0 <= i < |s| ==> IsDigit(s[i])
  {
    if s == [] then 0
    else
      assert IsDigit(s[|s| - 1]);
      DigitsValue(s[..|s| - 1]) * 10 + (s[|s| - 1] as int - '0' as int)
  }

  /** The length of the run of digits a string starts with. */
  function DigitRun(s: string): (k: nat)
    ensures k <= |s|
  {
    if s != [] && IsDigit(s[0]) then 1 + DigitRun(s[1..]) else 0
  }

  /** Digits followed by a non-digit: the run is exactly the digits. */
  lemma {:induction false} DigitRunOfDigits(d: string, rest: string)
    requires forall i :: 0 <= i < |d| ==> IsDigit(d[i])
    requires rest == [] || !IsDigit(rest[0])
    ensures DigitRun(d + rest) == |d|
  {
    if d == [] {
      assert d + rest == rest;
    } else {
      assert (d + rest)[1..] == d[1..] + rest;
      DigitRunOfDigits(d[1..], rest);
    }
  }

  /** Reading the digits back gives the number that was rendered. */
  lemma {:induction false} NatToStringValue(n: nat)
    ensures DigitsValue(NatToString(n)) == n
  {
    if n >= 10 {
      NatToStringValue(n / 10);
      var s := NatToString(n);
      assert s[..|s| - 1] == NatToString(n / 10);
    }
  }

  /** Different numbers render differently. */
  lemma NatToStringInjective(m: nat, n: nat)
    requires NatToString(m) == NatToString(n)
    ensures m == n
  {
    NatToStringValue(m);
    NatToStringValue(n);
  }
}
