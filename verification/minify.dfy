/**
 * The minifiers and the generic normaliser of the formatter
 * (apps/web/app/components/tools/minifier/formatter.worker.ts), each a
 * chain of the global replacements of `Passes`.
 */
module Minify {
  import opened Wrappers
  import opened Text
  import opened Passes
  import opened Blocks
  import opened Protect

  // ---------------------------------------------------------------- normalise

  /** `normalizeGeneric`: blanks collapse, spaces around line feeds go, blank lines are capped at one, the ends are trimmed and a line feed is appended. */
  function NormalizeGeneric(s: string): string {
    Trim(CapBlankLines(TrimAroundNewlines(CollapseBlanks(s)))) + "\n"
  }

  /** A tab never survives normalising: the first pass turns every run of blanks into one space and no later pass brings a tab back. */
  lemma NormalizeNoTab(s: string)
    ensures '\t' !in NormalizeGeneric(s)
  {
    var a := CollapseBlanks(s);
    if '\t' in a {
      ReplaceRunsChars(s, IsBlank, 1, " ", '\t');
    }
    var b := TrimAroundNewlines(a);
    var c := CapBlankLines(b);
    if '\t' in c {
      ReplaceRunsChars(b, IsNewline, 3, "\n\n", '\t');
    }
    assert NormalizeGeneric(s) == Trim(c) + "\n";
  }

  /** A trimmed text followed by one line feed has no longer run of line feeds than the text had. */
  lemma AppendLineFeedRuns(t: string, bound: nat)
    requires Trimmed(t) && 1 <= bound
    requires RunsAtMost(t, IsNewline, bound)
    ensures RunsAtMost(t + "\n", IsNewline, bound)
  {
    forall i | 0 <= i < |t + "\n"| ensures RunAt(t + "\n", i, IsNewline) <= bound {
      if i < |t| {
        RunAtLeft(t, "\n", i, IsNewline);
        if RunAt(t, i, IsNewline) >= |t| - i {
          assert t[i..][|t| - i - 1] == t[|t| - 1];
        }
      } else {
        RunAtRight(t, "\n", 0, IsNewline);
        assert LeadRun("\n"[1..], IsNewline) == 0;
      }
    }
  }

  /** Normalised text has no run of three or more line feeds. */
  lemma NormalizeBlankLines(s: string)
    ensures RunsAtMost(NormalizeGeneric(s), IsNewline, 2)
  {
    var c := CapBlankLines(TrimAroundNewlines(CollapseBlanks(s)));
    ReplaceRunsBounded(TrimAroundNewlines(CollapseBlanks(s)), IsNewline, 3, "\n\n");
    TrimRuns(c, IsNewline, 2);
    AppendLineFeedRuns(Trim(c), 2);
  }

  /** Normalised text ends with exactly one line feed, appended after the trim. */
  lemma NormalizeEnds(s: string)
    ensures EndsInOneLineFeed(NormalizeGeneric(s))
  {
    TrimLineFeed(CapBlankLines(TrimAroundNewlines(CollapseBlanks(s))));
  }

  // ----------------------------------------------------------------- minJs, minCss

  /** The characters `\s*([{}();,:+\-*\/%=<>!?&|[\]])\s*` squeezes whitespace around. */
  predicate IsJsPunct(c: char) {
    c in "{}();,:+-*/%=<>!?&|[]"
  }

  /** The characters `\s*([{}:;,\(\)])\s*` squeezes whitespace around. */
  predicate IsCssPunct(c: char) {
    c in "{}:;,()"
  }

  /** `minJs`: comments go, whitespace runs become one space, whitespace around punctuation goes, `;}` folds to `}`, and the ends are trimmed. */
  function MinJs(s: string): (r: string)
    ensures Trimmed(r)
  {
    Trim(FoldSemicolons(SqueezeAround(CollapseSpace(StripJsComments(s)), IsJsPunct)))
  }

  /** `minCss`: as `minJs` with CSS comments and CSS punctuation. */
  function MinCss(s: string): (r: string)
    ensures Trimmed(r)
  {
    Trim(FoldSemicolons(SqueezeAround(CollapseSpace(StripBlockComments(s)), IsCssPunct)))
  }

  /** Text without whitespace has every run of whitespace at most zero long. */
  lemma NoSpaceRuns(s: string)
    requires forall i | 0 <= i < |s| :: !IsSpace(s[i])
    ensures RunsAtMost(s, IsSpace, 0)
  {
    forall i | 0 <= i < |s| ensures RunAt(s, i, IsSpace) <= 0 {
      assert s[i..][0] == s[i];
    }
  }

  /** Already minified CSS (no whitespace, no comment, no `;}`) is left as it is. */
  lemma MinCssFixpoint(s: string)
    requires forall i | 0 <= i < |s| :: !IsSpace(s[i])
    requires !Contains(s, "/*") && !Contains(s, ";}")
    ensures MinCss(s) == s
  {
    StripDelimitedNoOpen(s, "/*", "*/");
    NoSpaceRuns(s);
    ReplaceRunsShort(s, IsSpace, 1, " ");
    SqueezeAroundNone(s, IsCssPunct);
    FoldSemicolonsNone(s);
    TrimTrimmed(s);
  }

  /** Already minified JavaScript (no whitespace, no comment, no `;}`) is left as it is. */
  lemma MinJsFixpoint(s: string)
    requires forall i | 0 <= i < |s| :: !IsSpace(s[i])
    requires !Contains(s, "/*") && !Contains(s, "//") && !Contains(s, ";}")
    ensures MinJs(s) == s
  {
    StripDelimitedNoOpen(s, "/*", "*/");
    StripLineCommentsNone(s, true);
    NoSpaceRuns(s);
    ReplaceRunsShort(s, IsSpace, 1, " ");
    SqueezeAroundNone(s, IsJsPunct);
    FoldSemicolonsNone(s);
    TrimTrimmed(s);
  }

  // ------------------------------------------------------------------- minHtml

  /** The HTML passes of `minHtml`: comments go, whitespace between tags goes, and every run of two or more whitespace characters becomes one space. */
  function HtmlSqueeze(h: string): string {
    CollapseWideSpace(CloseGaps(StripHtmlComments(h)))
  }

  /**
   * `minHtml` as written: `protectBlocks` is called without an `after`
   * callback, so it hands the document back with its blocks in place, and
   * the HTML passes then run over the blocks' contents as well.
   */
  function MinHtml(s: string): (r: string)
    ensures Trimmed(r)
  {
    Trim(HtmlSqueeze(ProtectSpec(s, KeepInner, None)))
  }

  /** `minHtml` with the HTML passes given to `protectBlocks` as its callback, so that they only see the text around the blocks. */
  function MinHtmlProtected(s: string): (r: string)
    ensures Trimmed(r)
  {
    Trim(ProtectSpec(s, KeepInner, Some(HtmlSqueeze)))
  }

  /** As written, `minHtml` leaves no two whitespace characters side by side anywhere, inside `<script>` and `<style>` included. */
  lemma MinHtmlSquashesAll(s: string)
    ensures RunsAtMost(MinHtml(s), IsSpace, 1)
  {
    var h := CloseGaps(StripHtmlComments(ProtectSpec(s, KeepInner, None)));
    ReplaceRunsBounded(h, IsSpace, 2, " ");
    TrimRuns(CollapseWideSpace(h), IsSpace, 1);
  }

  /** Two whitespace characters side by side start a run of at least two. */
  lemma TwoSpaces(t: string, i: nat)
    requires i + 1 < |t| && IsSpace(t[i]) && IsSpace(t[i + 1])
    ensures RunAt(t, i, IsSpace) >= 2
  {
    assert t[i..][1..] == t[i + 1..];
    assert t[i + 1..][0] == t[i + 1];
  }

  /** As written, `minHtml` changes every document that has two whitespace characters side by side, wherever they stand. */
  lemma MinHtmlChangesDoubleSpace(s: string, i: nat)
    requires i + 1 < |s| && IsSpace(s[i]) && IsSpace(s[i + 1])
    ensures MinHtml(s) != s
  {
    MinHtmlSquashesAll(s);
    TwoSpaces(s, i);
  }

  /** As written, `minHtml` changes the contents of a style block whose rule holds two spaces. */
  lemma MinHtmlAltersStyle(ex: string)
    requires ex == "<style>a  b</style>"
    ensures MinHtml(ex) != ex
  {
    assert IsSpace(ex[8]) && IsSpace(ex[9]);
    MinHtmlChangesDoubleSpace(ex, 8);
  }

  lemma ExampleTag(ex: string)
    requires ex == "<style>a  b</style>"
    ensures TagLength(ex, 1) == 5
  {
    assert ex[1..7][1] == 't';
    assert !NameAt(ex, 1, "script");
    assert ex[1..6] == [ex[1], ex[2], ex[3], ex[4], ex[5]];
    assert NameAt(ex, 1, "style");
  }

  lemma ExampleClose(ex: string)
    requires ex == "<style>a  b</style>"
    ensures FindClose(ex, 1, 5, 7) == Some(11)
  {
    assert ex[13..18] == [ex[13], ex[14], ex[15], ex[16], ex[17]];
    assert ex[1..6] == [ex[1], ex[2], ex[3], ex[4], ex[5]];
    assert ClosesAt(ex, 11, 1, 5);
    assert !ClosesAt(ex, 7, 1, 5) && !ClosesAt(ex, 8, 1, 5) && !ClosesAt(ex, 9, 1, 5) && !ClosesAt(ex, 10, 1, 5);
  }

  /** The block pattern matches the whole example at index 0. */
  lemma ExampleMatch(ex: string)
    requires ex == "<style>a  b</style>"
    ensures MatchAt(ex, 0) == Some(Hit(0, 19, Block("style", "", "a  b", "style")))
  {
    ExampleTag(ex);
    ExampleClose(ex);
    assert |ex| == 19 && ex[0] == '<';
    assert IndexOfChar(ex, '>', 6) == Some(6);
    assert ex[1..6] == [ex[1], ex[2], ex[3], ex[4], ex[5]];
    assert ex[13..18] == [ex[13], ex[14], ex[15], ex[16], ex[17]];
    assert ex[7..11] == [ex[7], ex[8], ex[9], ex[10]];
    assert ex[1..6] == "style" && ex[13..18] == "style" && ex[7..11] == "a  b" && ex[6..6] == "";
    assert !IsWordChar(ex[6]);
    var n := TagLength(ex, 1);
    var q := 1 + n;
    assert !(n == 0 || q >= |ex| || IsWordChar(ex[q]));
    var a := IndexOfChar(ex, '>', q).value;
    assert a == 6;
    var j := FindClose(ex, 1, n, a + 1).value;
    assert j == 11;
    assert MatchAt(ex, 0) == Some(Hit(0, j + n + 3, Block(ex[1..q], ex[q..a], ex[a + 1..j], ex[j + 2..j + 2 + n])));
  }

  /** The example is one style block with nothing around it. */
  lemma ExampleSplit(ex: string)
    requires ex == "<style>a  b</style>"
    ensures SplitFrom(ex, 0) == [Plain(""), Protected(Block("style", "", "a  b", "style")), Plain("")]
  {
    ExampleMatch(ex);
    var h := Hit(0, 19, Block("style", "", "a  b", "style"));
    assert NextBlock(ex, 0) == Some(h);
    assert NextBlock(ex, 19) == None;
    assert ex[19..] == "";
    assert SplitFrom(ex, 19) == [Plain("")];
    assert SplitFrom(ex, 0) == [Plain(ex[0..0]), Protected(h.block)] + [Plain("")];
  }

  /** Where there is no block to protect, the two readings of `minHtml` agree. */
  lemma MinHtmlReadingsAgree(s: string)
    requires NextBlock(s, 0).None?
    ensures MinHtmlProtected(s) == MinHtml(s)
  {
    ProtectNoBlocks(s, KeepInner, HtmlSqueeze);
    ProtectNoBlocks(s, KeepInner, Identity);
    assert ProtectSpec(s, KeepInner, None) == ProtectSpec(s, KeepInner, Some(Identity));
  }

  function Identity(h: string): string {
    h
  }

  /** The placeholder of the first block goes through the HTML passes unchanged. */
  lemma SqueezeKeepsKey()
    ensures HtmlSqueeze(Key(0)) == Key(0)
  {
    var k := Key(0);
    assert k == "__SNAPPO_BLOCK_0__";
    assert forall i | 0 <= i < |k| :: k[i] != '<' && k[i] != '>' && !IsSpace(k[i]);
    assert !Contains(k, "<!--") by {
      forall i | 0 <= i <= |k| ensures !MatchesAt(k, i, "<!--") {
        if i + 4 <= |k| {
          assert k[i..i + 4][0] == k[i];
        }
      }
    }
    StripDelimitedNoOpen(k, "<!--", "-->");
    CloseGapsNone(k);
    NoSpaceRuns(k);
    ReplaceRunsShort(k, IsSpace, 2, " ");
  }

  /** A document that is one block with empty text around it: masked it is the first key, restored it is the block's stored text, and rendered it is the block's text. */
  lemma OneBlock(segs: seq<Segment>, b: Block, onInner: (string, string) -> string)
    requires segs == [Plain(""), Protected(b), Plain("")]
    ensures Masked(segs, 0) == Key(0) && BlocksOf(segs) == [b] && PlainsMarkerFree(segs)
    ensures Unmasked(segs, onInner) == Stored(b, onInner)
    ensures Render(segs) == Source(b)
  {
    var s1 := segs[1..];
    var s2 := s1[1..];
    assert s1 == [Protected(b), Plain("")] && s2 == [Plain("")] && s2[1..] == [];
    assert Masked(s2[1..], 1) == "" && Unmasked(s2[1..], onInner) == "" && BlocksOf(s2[1..]) == [];
    assert Masked(s2, 1) == "" + Masked(s2[1..], 1);
    assert Unmasked(s2, onInner) == "" + Unmasked(s2[1..], onInner);
    assert BlocksOf(s2) == [] + BlocksOf(s2[1..]);
    assert Render(s2[1..]) == "";
    assert Render(s2) == "" + Render(s2[1..]);
    assert Masked(s1, 0) == Key(0) + Masked(s2, 1);
    assert Masked(segs, 0) == "" + Masked(s1, 0);
    assert Unmasked(s1, onInner) == Stored(b, onInner) + Unmasked(s2, onInner);
    assert Unmasked(segs, onInner) == "" + Unmasked(s1, onInner);
    assert Render(s1) == Source(b) + Render(s2);
    assert Render(segs) == "" + Render(s1);
    assert BlocksOf(s1) == [b] + BlocksOf(s2);
    assert BlocksOf(segs) == [] + BlocksOf(s1);
    assert !Contains("", KeyPrefix);
  }

  /** With the HTML passes given to `protectBlocks` as the callback, a document that is one block closed with its name as opened comes through untouched. */
  lemma MinHtmlProtectedKeepsBlock(s: string, b: Block)
    requires SplitFrom(s, 0) == [Plain(""), Protected(b), Plain("")] && b.closeTag == b.tag
    ensures MinHtmlProtected(s) == s
  {
    var segs := SplitFrom(s, 0);
    OneBlock(segs, b, KeepInner);
    SqueezeKeepsKey();
    ProtectAfter(s, KeepInner, HtmlSqueeze, segs);
    SplitRoundTrip(s, 0);
    assert Stored(b, KeepInner) == Source(b);
    assert s[0..] == s;
    SourceTrimmed(b);
    TrimTrimmed(s);
  }

  /** The text of a block starts with `<` and ends with `>`. */
  lemma SourceTrimmed(b: Block)
    ensures Trimmed(Source(b))
  {
    var s := Source(b);
    assert s == "<" + (b.tag + b.attrs + ">" + b.inner + "</" + b.closeTag) + ">";
    assert s[0] == '<' && s[|s| - 1] == '>';
  }

  /** With the HTML passes given to `protectBlocks` as the callback, the style block of the example comes through untouched. */
  lemma MinHtmlProtectedKeepsStyle(ex: string)
    requires ex == "<style>a  b</style>"
    ensures MinHtmlProtected(ex) == ex
  {
    ExampleSplit(ex);
    MinHtmlProtectedKeepsBlock(ex, Block("style", "", "a  b", "style"));
  }
}
