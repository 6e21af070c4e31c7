/** Options: the value-or-nothing results used across the model. */
module Wrappers {
  datatype Option<+T> = None | Some(value: T)
}

/**
 * Characters and strings as the JavaScript runtime sees them: the whitespace set
 * shared by the regular-expression class `\s` and `String.prototype.trim`,
 * ASCII case folding (what the `i` flag does for a non-Unicode pattern),
 * `split`/`join` on one separator character, and runs of characters of a class.
 */
module Text {
  import opened Wrappers

  /** LineTerminator of ECMAScript: what `.` does not match and what `^`/`$` see in multiline mode. */
  predicate IsLineTerminator(c: char) {
    c == '\n' || c == '\r' || c == '\U{2028}' || c == '\U{2029}'
  }

  /** WhiteSpace plus LineTerminator of ECMAScript: the class `\s` and the characters `trim` removes. */
  predicate IsSpace(c: char) {
    IsLineTerminator(c) || c == '\t' || c == '\U{B}' || c == '\U{C}' || c == ' ' ||
    c == '\U{A0}' || c == '\U{FEFF}' || c == '\U{1680}' || ('\U{2000}' <= c <= '\U{200A}') ||
    c == '\U{202F}' || c == '\U{205F}' || c == '\U{3000}'
  }

  predicate IsNewline(c: char) { c == '\n' }

  predicate IsDigit(c: char) { '0' <= c <= '9' }

  predicate IsAsciiLetter(c: char) { ('a' <= c <= 'z') || ('A' <= c <= 'Z') }

  /** The class `\w`. */
  predicate IsWordChar(c: char) { IsAsciiLetter(c) || IsDigit(c) || c == '_' }

  predicate IsHexDigit(c: char) { IsDigit(c) || ('a' <= c <= 'f') || ('A' <= c <= 'F') }

  function ToLowerChar(c: char): (d: char)
    ensures !('A' <= d <= 'Z')
    ensures IsAsciiLetter(c) <==> IsAsciiLetter(d)
  {
    if 'A' <= c <= 'Z' then (c as int - 'A' as int + 'a' as int) as char else c
  }

  /** Lower-casing of ASCII letters; every other character is left as it is. */
  function ToLower(s: string): (r: string)
    ensures |r| == |s|
    ensures forall i | 0 <= i < |s| :: r[i] == ToLowerChar(s[i])
  {
    if s == [] then [] else [ToLowerChar(s[0])] + ToLower(s[1..])
  }

  /** Equality up to ASCII case, as a backreference or a literal compares under the `i` flag. */
  predicate EqualsIgnoreCase(a: string, b: string) {
    |a| == |b| && forall i | 0 <= i < |a| :: ToLowerChar(a[i]) == ToLowerChar(b[i])
  }

  predicate StartsWith(s: string, p: string) {
    |p| <= |s| && s[..|p|] == p
  }

  predicate EndsWith(s: string, p: string) {
    |p| <= |s| && s[|s| - |p|..] == p
  }

  /** `p` occurs in `s` at index `i`. */
  predicate MatchesAt(s: string, i: nat, p: string) {
    i + |p| <= |s| && s[i..i + |p|] == p
  }

  predicate Contains(s: string, p: string) {
    exists i | 0 <= i <= |s| :: MatchesAt(s, i, p)
  }

  /** A string without `p` does not have it at its start nor anywhere in its tail. */
  lemma NotContainsTail(s: string, p: string)
    requires s != [] && !Contains(s, p)
    ensures !StartsWith(s, p) && !Contains(s[1..], p)
  {
    assert !MatchesAt(s, 0, p);
    forall i | 0 <= i <= |s| - 1 ensures !MatchesAt(s[1..], i, p) {
      assert !MatchesAt(s, i + 1, p);
      if i + |p| <= |s| - 1 {
        assert s[1..][i..i + |p|] == s[i + 1..i + 1 + |p|];
      }
    }
  }

  /** The leftmost index at or after `from` where `p` occurs in `s` (`indexOf`). */
  function FindFrom(s: string, p: string, from: nat): (r: Option<nat>)
    ensures r.Some? ==> from <= r.value && MatchesAt(s, r.value, p)
    ensures r.Some? ==> forall k | from <= k < r.value :: !MatchesAt(s, k, p)
    ensures r.None? ==> forall k | from <= k <= |s| :: !MatchesAt(s, k, p)
    decreases |s| - from
  {
    if from + |p| > |s| then None
    else if MatchesAt(s, from, p) then Some(from)
    else FindFrom(s, p, from + 1)
  }

  /** The index of the first `c` in `s` at or after `from` (`indexOf` for one character). */
  function IndexOfChar(s: string, c: char, from: nat): (r: Option<nat>)
    ensures r.Some? ==> from <= r.value < |s| && s[r.value] == c
    ensures r.Some? ==> forall k | from <= k < r.value :: s[k] != c
    ensures r.None? ==> forall k | from <= k < |s| :: s[k] != c
    decreases |s| - from
  {
    if from >= |s| then None
    else if s[from] == c then Some(from)
    else IndexOfChar(s, c, from + 1)
  }

  // ---------------------------------------------------------------- trimming

  /** The number of whitespace characters at the start of `s`. */
  function LeadSpaces(s: string): (n: nat)
    ensures n <= |s|
    ensures forall i | 0 <= i < n :: IsSpace(s[i])
    ensures n < |s| ==> !IsSpace(s[n])
  {
    if s == [] || !IsSpace(s[0]) then 0 else 1 + LeadSpaces(s[1..])
  }

  /** The number of whitespace characters at the end of `s`. */
  function TrailSpaces(s: string): (n: nat)
    ensures n <= |s|
    ensures forall i | |s| - n <= i < |s| :: IsSpace(s[i])
    ensures n < |s| ==> !IsSpace(s[|s| - 1 - n])
  {
    if s == [] || !IsSpace(s[|s| - 1]) then 0 else 1 + TrailSpaces(s[..|s| - 1])
  }

  /** A string with no whitespace at either end. */
  predicate Trimmed(s: string) {
    s == [] || (!IsSpace(s[0]) && !IsSpace(s[|s| - 1]))
  }

  /** `String.prototype.trim`: the slice of `s` between its leading and trailing whitespace. */
  function Trim(s: string): (r: string)
    ensures Trimmed(r)
    ensures r == [] <==> forall i | 0 <= i < |s| :: IsSpace(s[i])
    ensures r != [] ==> LeadSpaces(s) + |r| <= |s| && r == s[LeadSpaces(s)..LeadSpaces(s) + |r|]
    ensures r != [] ==> forall i | LeadSpaces(s) + |r| <= i < |s| :: IsSpace(s[i])
  {
    var a := LeadSpaces(s);
    if a == |s| then []
    else
      var b := |s| - TrailSpaces(s);
      s[a..b]
  }

  /** A string with no whitespace at either end is its own trim. */
  lemma TrimTrimmed(s: string)
    requires Trimmed(s)
    ensures Trim(s) == s
  {
    if s != [] {
      assert LeadSpaces(s) == 0 && TrailSpaces(s) == 0;
      assert s[0..|s|] == s;
    }
  }

  /** `s` ends in one line feed with no whitespace before it. */
  predicate EndsInOneLineFeed(s: string) {
    EndsWith(s, "\n") && (|s| == 1 || !IsSpace(s[|s| - 2]))
  }

  /** A trimmed text with a line feed appended ends in exactly that one line feed. */
  lemma TrimLineFeed(s: string)
    ensures EndsInOneLineFeed(Trim(s) + "\n")
  {
    var t := Trim(s);
    var r := t + "\n";
    assert r[|r| - 1..] == "\n";
    if |r| > 1 {
      assert r[|r| - 2] == t[|t| - 1];
    }
  }

  /** Trimming keeps a bound on runs. */
  lemma TrimRuns(s: string, inClass: char -> bool, bound: nat)
    requires RunsAtMost(s, inClass, bound)
    ensures RunsAtMost(Trim(s), inClass, bound)
  {
    var r := Trim(s);
    if r != [] {
      RunsAtMostSlice(s, LeadSpaces(s), LeadSpaces(s) + |r|, inClass, bound);
    }
  }

  /** `' '.repeat(n)`. */
  function Spaces(n: nat): (r: string)
    ensures |r| == n
    ensures forall i | 0 <= i < n :: r[i] == ' '
  {
    if n == 0 then [] else [' '] + Spaces(n - 1)
  }

  // ------------------------------------------------------------ split and join

  /** `s.split(sep)` for a one-character separator: the pieces between separators, in order. */
  function Split(s: string, sep: char): (r: seq<string>)
    ensures |r| >= 1
    ensures forall k | 0 <= k < |r| :: sep !in r[k]
  {
    if s == [] then [""]
    else
      var rest := Split(s[1..], sep);
      if s[0] == sep then [""] + rest else [[s[0]] + rest[0]] + rest[1..]
  }

  /** `parts.join(sep)`. */
  function Join(parts: seq<string>, sep: char): string {
    if |parts| == 0 then ""
    else if |parts| == 1 then parts[0]
    else parts[0] + [sep] + Join(parts[1..], sep)
  }

  /** Splitting loses nothing: joining the pieces back gives the original text. */
  lemma {:induction false} JoinSplit(s: string, sep: char)
    ensures Join(Split(s, sep), sep) == s
  {
    if s != [] {
      var rest := Split(s[1..], sep);
      JoinSplit(s[1..], sep);
      if s[0] == sep {
        assert ([""] + rest)[1..] == rest;
      } else {
        var r := [[s[0]] + rest[0]] + rest[1..];
        if |rest| == 1 {
          assert r == [[s[0]] + rest[0]];
        } else {
          assert r[1..] == rest[1..];
          assert Join(rest, sep) == rest[0] + [sep] + Join(rest[1..], sep);
        }
      }
    }
  }

  /** A slice splits at any index inside it. */
  lemma SliceSplit(s: string, i: nat, j: nat, k: nat)
    requires i <= j <= k <= |s|
    ensures s[i..k] == s[i..j] + s[j..k]
  {
  }

  /** Concatenation of a sequence of strings. */
  function Concat(parts: seq<string>): string {
    if parts == [] then "" else parts[0] + Concat(parts[1..])
  }

  lemma {:induction false} ConcatAppend(a: seq<string>, b: seq<string>)
    ensures Concat(a + b) == Concat(a) + Concat(b)
  {
    if a != [] {
      assert (a + b)[1..] == a[1..] + b;
      ConcatAppend(a[1..], b);
    } else {
      assert a + b == b;
    }
  }

  // ------------------------------------------------------------------ decimals

  function DigitChar(d: nat): (c: char)
    requires d < 10
    ensures IsDigit(c)
  {
    ('0' as int + d) as char
  }

  function DigitValue(c: char): nat
    requires IsDigit(c)
  {
    c as int - '0' as int
  }

  /** `String(n)` for a natural number: decimal digits, no leading zero. */
  function Decimal(n: nat): (r: string)
    ensures r != []
    ensures forall i | 0 <= i < |r| :: IsDigit(r[i])
  {
    if n < 10 then [DigitChar(n)] else Decimal(n / 10) + [DigitChar(n % 10)]
  }

  /** The value of a string of decimal digits. */
  function DecimalValue(s: string): nat
    requires forall i | 0 <= i < |s| :: IsDigit(s[i])
  {
    if s == [] then 0 else 10 * DecimalValue(s[..|s| - 1]) + DigitValue(s[|s| - 1])
  }

  lemma {:induction false} DecimalRoundTrip(n: nat)
    ensures DecimalValue(Decimal(n)) == n
  {
    if n >= 10 {
      var r := Decimal(n);
      assert r[..|r| - 1] == Decimal(n / 10);
      DecimalRoundTrip(n / 10);
    }
  }

  /** Different numbers have different decimal spellings. */
  lemma DecimalInjective(m: nat, n: nat)
    requires Decimal(m) == Decimal(n)
    ensures m == n
  {
    DecimalRoundTrip(m);
    DecimalRoundTrip(n);
  }

  // ---------------------------------------------------------------------- runs

  /** The length of the run of `inClass` characters that starts `s`. */
  function LeadRun(s: string, inClass: char -> bool): (n: nat)
    ensures n <= |s|
    ensures forall i | 0 <= i < n :: inClass(s[i])
    ensures n < |s| ==> !inClass(s[n])
  {
    if s == [] || !inClass(s[0]) then 0 else 1 + LeadRun(s[1..], inClass)
  }

  /** The length of the run of `inClass` characters that starts at index `i`. */
  function RunAt(s: string, i: nat, inClass: char -> bool): nat
    requires i <= |s|
  {
    LeadRun(s[i..], inClass)
  }

  /** No run of `inClass` characters in `s` is longer than `bound`. */
  predicate RunsAtMost(s: string, inClass: char -> bool, bound: nat) {
    forall i | 0 <= i < |s| :: RunAt(s, i, inClass) <= bound
  }

  /** A run is determined by the characters it covers and the one after it. */
  lemma {:induction false} LeadRunUnique(s: string, inClass: char -> bool, n: nat)
    requires n <= |s|
    requires forall i | 0 <= i < n :: inClass(s[i])
    requires n < |s| ==> !inClass(s[n])
    ensures LeadRun(s, inClass) == n
  {
  }

  /** Runs that start in the right operand of a concatenation are the runs of that operand. */
  lemma RunAtRight(a: string, b: string, j: nat, inClass: char -> bool)
    requires j <= |b|
    ensures RunAt(a + b, |a| + j, inClass) == RunAt(b, j, inClass)
  {
    assert (a + b)[|a| + j..] == b[j..];
  }

  /** A run that starts in the left operand stops inside it, or goes on into the right operand. */
  lemma {:induction false} RunAtLeft(a: string, b: string, i: nat, inClass: char -> bool)
    requires i <= |a|
    ensures RunAt(a + b, i, inClass) ==
      if RunAt(a, i, inClass) < |a| - i then RunAt(a, i, inClass)
      else |a| - i + LeadRun(b, inClass)
  {
    var n := RunAt(a, i, inClass);
    var s := (a + b)[i..];
    if n < |a| - i {
      LeadRunUnique(s, inClass, n);
    } else {
      var m := LeadRun(b, inClass);
      forall k | 0 <= k < |a| - i + m ensures inClass(s[k]) {
        if k < |a| - i {
          assert s[k] == a[i..][k];
        } else {
          assert s[k] == b[k - (|a| - i)];
        }
      }
      if |a| - i + m < |s| {
        assert s[|a| - i + m] == b[m];
      }
      LeadRunUnique(s, inClass, |a| - i + m);
    }
  }

  /** A run inside a slice is no longer than the run at the same place in the whole string. */
  lemma {:induction false} RunAtSlice(s: string, lo: nat, hi: nat, i: nat, inClass: char -> bool)
    requires lo <= hi <= |s| && i <= hi - lo
    ensures RunAt(s[lo..hi], i, inClass) <= RunAt(s, lo + i, inClass)
  {
    var t := s[lo..hi][i..];
    var u := s[lo + i..];
    var n := LeadRun(t, inClass);
    assert forall k | 0 <= k < n :: u[k] == t[k];
  }

  /** Slicing keeps a bound on runs. */
  lemma RunsAtMostSlice(s: string, lo: nat, hi: nat, inClass: char -> bool, bound: nat)
    requires lo <= hi <= |s|
    requires RunsAtMost(s, inClass, bound)
    ensures RunsAtMost(s[lo..hi], inClass, bound)
  {
    forall i | 0 <= i < hi - lo ensures RunAt(s[lo..hi], i, inClass) <= bound {
      RunAtSlice(s, lo, hi, i, inClass);
    }
  }
}
