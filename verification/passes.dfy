/**
 * The global regular-expression replacements of the formatter
 * (apps/web/app/components/tools/minifier/formatter.worker.ts), one function
 * per pattern. Each scans left to right as `String.prototype.replace` with the
 * `g` flag does: at each position it tries the pattern, greedy or lazy as
 * written; on a match it emits the replacement and resumes after the match,
 * otherwise it copies one character and moves on.
 */
module Passes {
  import opened Wrappers
  import opened Text

  // ------------------------------------------------------------- runs of a class

  /**
   * `s.replace(/C{min,}/g, w)` for a character class C: every maximal run of
   * at least `min` characters of the class becomes `w`.
   */
  function ReplaceRuns(s: string, inClass: char -> bool, min: nat, w: string): string
    requires min >= 1
    decreases |s|
  {
    if s == [] then []
    else
      var n := LeadRun(s, inClass);
      if n >= min then w + ReplaceRuns(s[n..], inClass, min, w)
      else [s[0]] + ReplaceRuns(s[1..], inClass, min, w)
  }

  /** Every character of the result comes from `w` or from the input, and a class character only survives inside a short run. */
  lemma {:induction false} ReplaceRunsChars(s: string, inClass: char -> bool, min: nat, w: string, c: char)
    requires min >= 1
    requires c in ReplaceRuns(s, inClass, min, w)
    ensures c in w || (c in s && (!inClass(c) || min > 1))
  {
    var n := LeadRun(s, inClass);
    if n >= min {
      if c !in w {
        ReplaceRunsChars(s[n..], inClass, min, w, c);
      }
    } else if c != s[0] {
      ReplaceRunsChars(s[1..], inClass, min, w, c);
    }
  }

  /** A text that does not start with a class character keeps its first character. */
  lemma ReplaceRunsFirst(s: string, inClass: char -> bool, min: nat, w: string)
    requires min >= 1 && s != [] && !inClass(s[0])
    ensures ReplaceRuns(s, inClass, min, w) != [] && ReplaceRuns(s, inClass, min, w)[0] == s[0]
  {
  }

  /** A run shorter than `min` at the start is left as it is. */
  lemma {:induction false} ReplaceRunsShortLead(s: string, inClass: char -> bool, min: nat, w: string)
    requires min >= 1
    requires LeadRun(s, inClass) < min
    ensures LeadRun(ReplaceRuns(s, inClass, min, w), inClass) == LeadRun(s, inClass)
  {
    if s != [] && inClass(s[0]) {
      ReplaceRunsShortLead(s[1..], inClass, min, w);
    }
  }

  /**
   * When `w` is made of class characters, no run in the result is longer
   * than `w` or than the longest run that was left alone (`min - 1`).
   */
  lemma {:induction false} ReplaceRunsBounded(s: string, inClass: char -> bool, min: nat, w: string)
    requires min >= 1
    requires forall i | 0 <= i < |w| :: inClass(w[i])
    ensures RunsAtMost(ReplaceRuns(s, inClass, min, w), inClass, if |w| < min then min - 1 else |w|)
    decreases |s|
  {
    if s != [] {
      var n := LeadRun(s, inClass);
      if n >= min {
        ReplaceRunsBounded(s[n..], inClass, min, w);
        LongRunBounded(s, inClass, min, w);
      } else {
        ReplaceRunsBounded(s[1..], inClass, min, w);
        ShortRunBounded(s, inClass, min, w);
      }
    }
  }

  /** A replaced run: `w` is followed by text that does not start with a class character. */
  lemma LongRunBounded(s: string, inClass: char -> bool, min: nat, w: string)
    requires min >= 1 && s != [] && LeadRun(s, inClass) >= min
    requires forall i | 0 <= i < |w| :: inClass(w[i])
    requires RunsAtMost(ReplaceRuns(s[LeadRun(s, inClass)..], inClass, min, w), inClass, if |w| < min then min - 1 else |w|)
    ensures RunsAtMost(ReplaceRuns(s, inClass, min, w), inClass, if |w| < min then min - 1 else |w|)
  {
    var bound := if |w| < min then min - 1 else |w|;
    var n := LeadRun(s, inClass);
    var rest := s[n..];
    var r := ReplaceRuns(rest, inClass, min, w);
    var out := ReplaceRuns(s, inClass, min, w);
    assert out == w + r;
    if rest != [] {
      ReplaceRunsFirst(rest, inClass, min, w);
    }
    assert LeadRun(r, inClass) == 0;
    forall i | 0 <= i < |out| ensures RunAt(out, i, inClass) <= bound {
      if i < |w| {
        RunAtLeft(w, r, i, inClass);
        LeadRunUnique(w[i..], inClass, |w| - i);
      } else {
        RunAtRight(w, r, i - |w|, inClass);
      }
    }
  }

  /** A copied character: its run is a short run left alone. */
  lemma ShortRunBounded(s: string, inClass: char -> bool, min: nat, w: string)
    requires min >= 1 && s != [] && LeadRun(s, inClass) < min
    requires forall i | 0 <= i < |w| :: inClass(w[i])
    requires RunsAtMost(ReplaceRuns(s[1..], inClass, min, w), inClass, if |w| < min then min - 1 else |w|)
    ensures RunsAtMost(ReplaceRuns(s, inClass, min, w), inClass, if |w| < min then min - 1 else |w|)
  {
    var bound := if |w| < min then min - 1 else |w|;
    var r := ReplaceRuns(s[1..], inClass, min, w);
    var out := ReplaceRuns(s, inClass, min, w);
    assert out == [s[0]] + r;
    forall i | 0 <= i < |out| ensures RunAt(out, i, inClass) <= bound {
      if i == 0 {
        RunAtLeft([s[0]], r, 0, inClass);
        if inClass(s[0]) {
          ReplaceRunsShortLead(s[1..], inClass, min, w);
          assert LeadRun(s, inClass) == 1 + LeadRun(s[1..], inClass);
        }
      } else {
        RunAtRight([s[0]], r, i - 1, inClass);
      }
    }
  }

  /** A text with no run of `min` or more class characters passes through unchanged. */
  lemma {:induction false} ReplaceRunsShort(s: string, inClass: char -> bool, min: nat, w: string)
    requires min >= 1
    requires RunsAtMost(s, inClass, min - 1)
    ensures ReplaceRuns(s, inClass, min, w) == s
    decreases |s|
  {
    if s != [] {
      assert RunAt(s, 0, inClass) == LeadRun(s, inClass);
      RunsAtMostSlice(s, 1, |s|, inClass, min - 1);
      assert s[1..|s|] == s[1..];
      ReplaceRunsShort(s[1..], inClass, min, w);
    }
  }

  // --------------------------------------------------- comments between delimiters

  /**
   * `s.replace(/OPEN[\s\S]*?CLOSE/g, '')`: from each `open`, everything up to
   * and including the first `close` after it is removed; an `open` that is
   * never closed stays.
   */
  function StripDelimited(s: string, open: string, close: string): (r: string)
    requires open != []
    ensures |r| <= |s|
    decreases |s|
  {
    if s == [] then []
    else if StartsWith(s, open) then
      match FindFrom(s, close, |open|)
      case Some(j) => StripDelimited(s[j + |close|..], open, close)
      case None => [s[0]] + StripDelimited(s[1..], open, close)
    else [s[0]] + StripDelimited(s[1..], open, close)
  }

  /** Text without an opening delimiter passes through unchanged. */
  lemma {:induction false} StripDelimitedNoOpen(s: string, open: string, close: string)
    requires open != [] && !Contains(s, open)
    ensures StripDelimited(s, open, close) == s
  {
    if s != [] {
      NotContainsTail(s, open);
      StripDelimitedNoOpen(s[1..], open, close);
    }
  }

  /** `/\/\*[\s\S]*?\*\//g` → `''`. */
  function StripBlockComments(s: string): string {
    StripDelimited(s, "/*", "*/")
  }

  /** `/<!--[\s\S]*?-->/g` → `''`. */
  function StripHtmlComments(s: string): string {
    StripDelimited(s, "<!--", "-->")
  }

  /** The end of the line that contains index `i`: the next line terminator, or the end of the text. */
  function LineEnd(s: string, i: nat): (e: nat)
    requires i <= |s|
    ensures i <= e <= |s|
    ensures e < |s| ==> IsLineTerminator(s[e])
    ensures forall k | i <= k < e :: !IsLineTerminator(s[k])
    decreases |s| - i
  {
    if i == |s| || IsLineTerminator(s[i]) then i else LineEnd(s, i + 1)
  }

  /**
   * `s.replace(/(^|[^:])\/\/(?!\/).*$|^\s*\/\/.*$/gm, '$1')`: line comments
   * (a `//` not preceded by `:` and not followed by a third `/`, or a line
   * that holds only whitespace and a comment) are cut off up to the end of
   * their line; the character captured before `//` is kept. `atLineStart`
   * says whether `^` matches at the current position (the start of the text
   * or just after a line terminator).
   */
  function StripLineComments(s: string, atLineStart: bool): (r: string)
    ensures |r| <= |s|
    decreases |s|
  {
    if s == [] then []
    else if atLineStart && StartsWith(s, "//") && !(|s| > 2 && s[2] == '/') then
      StripLineComments(s[LineEnd(s, 2)..], false)
    else if s[0] != ':' && |s| >= 3 && s[1] == '/' && s[2] == '/' && !(|s| > 3 && s[3] == '/') then
      [s[0]] + StripLineComments(s[LineEnd(s, 3)..], false)
    else if atLineStart && MatchesAt(s, LeadSpaces(s), "//") then
      StripLineComments(s[LineEnd(s, LeadSpaces(s) + 2)..], false)
    else [s[0]] + StripLineComments(s[1..], IsLineTerminator(s[0]))
  }

  /** Text without `//` passes through the line-comment pass unchanged. */
  lemma {:induction false} StripLineCommentsNone(s: string, atLineStart: bool)
    requires !Contains(s, "//")
    ensures StripLineComments(s, atLineStart) == s
  {
    if s != [] {
      NotContainsTail(s, "//");
      if |s| >= 3 {
        assert !MatchesAt(s[1..], 0, "//");
        assert s[1..][0..2] == s[1..3];
      }
      assert !MatchesAt(s, LeadSpaces(s), "//");
      StripLineCommentsNone(s[1..], IsLineTerminator(s[0]));
    }
  }

  /** `stripJsComments`: block comments first, then line comments. */
  function StripJsComments(s: string): (r: string)
    ensures |r| <= |s|
  {
    StripLineComments(StripBlockComments(s), true)
  }

  // ------------------------------------------------------ whitespace and punctuation

  /** `/\s+/g` → `' '`. */
  function CollapseSpace(s: string): string {
    ReplaceRuns(s, IsSpace, 1, " ")
  }

  /** `/\s{2,}/g` → `' '`. */
  function CollapseWideSpace(s: string): string {
    ReplaceRuns(s, IsSpace, 2, " ")
  }

  predicate IsBlank(c: char) { c == '\t' || c == ' ' }

  predicate IsSpaceChar(c: char) { c == ' ' }

  /** `/[\t ]+/g` → `' '`. */
  function CollapseBlanks(s: string): string {
    ReplaceRuns(s, IsBlank, 1, " ")
  }

  /** `/\n{3,}/g` → `'\n\n'`. */
  function CapBlankLines(s: string): string {
    ReplaceRuns(s, IsNewline, 3, "\n\n")
  }

  /** `/\n{2,}/g` → `'\n'`. */
  function MergeNewlines(s: string): string {
    ReplaceRuns(s, IsNewline, 2, "\n")
  }

  // `/ *\n */g` → `'\n'`: spaces on either side of a line feed go.
  function TrimAroundNewlines(s: string): (r: string)
    ensures forall c | c in r :: c in s
    decreases |s|
  {
    if s == [] then []
    else
      var k := LeadRun(s, IsSpaceChar);
      if k < |s| && s[k] == '\n' then
        var rest := s[k + 1..];
        var r := TrimAroundNewlines(rest[LeadRun(rest, IsSpaceChar)..]);
        assert forall c | c in r :: c in s by {
          forall c | c in r ensures c in s {
            var i :| 0 <= i < |rest[LeadRun(rest, IsSpaceChar)..]| && rest[LeadRun(rest, IsSpaceChar)..][i] == c;
            assert s[k + 1 + LeadRun(rest, IsSpaceChar) + i] == c;
          }
        }
        "\n" + r
      else
        var r := TrimAroundNewlines(s[1..]);
        assert forall c | c in r :: c in s by {
          forall c | c in r ensures c in s {
            var i :| 0 <= i < |s[1..]| && s[1..][i] == c;
            assert s[1 + i] == c;
          }
        }
        [s[0]] + r
  }

  // `s.replace(/\s*([P])\s*/g, '$1')`: whitespace on either side of a
  // punctuation character of the class P goes.
  function SqueezeAround(s: string, isPunct: char -> bool): string
    decreases |s|
  {
    if s == [] then []
    else
      var n := LeadSpaces(s);
      if n < |s| && isPunct(s[n]) then
        var rest := s[n + 1..];
        [s[n]] + SqueezeAround(rest[LeadSpaces(rest)..], isPunct)
      else [s[0]] + SqueezeAround(s[1..], isPunct)
  }

  /** `/;}/g` → `'}'`. */
  function FoldSemicolons(s: string): string
    decreases |s|
  {
    if s == [] then []
    else if StartsWith(s, ";}") then "}" + FoldSemicolons(s[2..])
    else [s[0]] + FoldSemicolons(s[1..])
  }

  /** Reference reading of the fold: keep every character except a `;` that stands right before a `}`. */
  function DropSemicolonsBeforeBraces(s: string): string {
    if s == [] then []
    else (if s[0] == ';' && |s| > 1 && s[1] == '}' then [] else [s[0]]) + DropSemicolonsBeforeBraces(s[1..])
  }

  /** The fold deletes exactly the semicolons that stand before a closing brace. */
  lemma {:induction false} FoldSemicolonsDeletes(s: string)
    ensures FoldSemicolons(s) == DropSemicolonsBeforeBraces(s)
  {
    if s != [] {
      if StartsWith(s, ";}") {
        FoldSemicolonsDeletes(s[2..]);
        assert s[1..][1..] == s[2..];
      } else {
        FoldSemicolonsDeletes(s[1..]);
      }
    }
  }

  /** Text without `;}` passes through the fold unchanged. */
  lemma {:induction false} FoldSemicolonsNone(s: string)
    requires !Contains(s, ";}")
    ensures FoldSemicolons(s) == s
  {
    if s != [] {
      NotContainsTail(s, ";}");
      FoldSemicolonsNone(s[1..]);
    }
  }

  /** `/>\s+</g` → `'><'`. */
  function CloseGaps(s: string): string
    decreases |s|
  {
    if s == [] then []
    else if s[0] == '>' && 0 < LeadSpaces(s[1..]) && LeadSpaces(s[1..]) + 1 < |s| && s[LeadSpaces(s[1..]) + 1] == '<' then
      "><" + CloseGaps(s[LeadSpaces(s[1..]) + 2..])
    else [s[0]] + CloseGaps(s[1..])
  }

  /** `s.replace(/([B])/g, '$1\n')`: a line feed after every character of the class B. */
  function BreakAfter(s: string, isBreak: char -> bool): string {
    if s == [] then []
    else (if isBreak(s[0]) then [s[0], '\n'] else [s[0]]) + BreakAfter(s[1..], isBreak)
  }

  /** `s.replace(/X/g, w)` for a single character X. */
  function ReplaceChar(s: string, x: char, w: string): string {
    if s == [] then []
    else (if s[0] == x then w else [s[0]]) + ReplaceChar(s[1..], x, w)
  }

  // `s.replace(/X\s*/g, w)`: the character X and the whitespace after it become `w`.
  function ReplaceCharAndSpaces(s: string, x: char, w: string): string
    decreases |s|
  {
    if s == [] then []
    else if s[0] == x then w + ReplaceCharAndSpaces(s[1..][LeadSpaces(s[1..])..], x, w)
    else [s[0]] + ReplaceCharAndSpaces(s[1..], x, w)
  }

  /** Text where no `>` is followed by whitespace passes through unchanged. */
  lemma {:induction false} CloseGapsNone(s: string)
    requires forall i | 0 <= i < |s| - 1 :: s[i] == '>' ==> !IsSpace(s[i + 1])
    ensures CloseGaps(s) == s
  {
    if s != [] {
      assert s[0] == '>' && |s| > 1 ==> !IsSpace(s[1..][0]);
      forall i | 0 <= i < |s[1..]| - 1 ensures s[1..][i] == '>' ==> !IsSpace(s[1..][i + 1]) {
        assert s[1..][i] == s[i + 1] && s[1..][i + 1] == s[i + 2];
      }
      CloseGapsNone(s[1..]);
    }
  }

  /** Text without whitespace passes through the squeeze unchanged. */
  lemma {:induction false} SqueezeAroundNone(s: string, isPunct: char -> bool)
    requires forall i | 0 <= i < |s| :: !IsSpace(s[i])
    ensures SqueezeAround(s, isPunct) == s
  {
    if s != [] {
      assert LeadSpaces(s) == 0;
      assert LeadSpaces(s[1..]) == 0 by {
        if |s| > 1 {
          assert s[1..][0] == s[1];
        }
      }
      assert s[1..][0..] == s[1..];
      SqueezeAroundNone(s[1..], isPunct);
    }
  }
}
