/**
 * The prettifiers of the formatter
 * (apps/web/app/components/tools/minifier/formatter.worker.ts): `prettyJs`
 * and `prettyCss` cut the code into lines and indent each line by the brace
 * depth; `prettyHtml` cuts the markup into tags and text and indents each by
 * the element depth. In both machines the depth is a natural number: a
 * closing line or tag steps it down before printing, never below zero, and
 * an opening line or tag steps it up after printing.
 */
module Pretty {
  import opened Wrappers
  import opened Text
  import opened Passes

  /** `Math.max(0, depth - 1)`. */
  function Decrement(depth: nat): nat {
    if depth == 0 then 0 else depth - 1
  }

  /** A line with its leading whitespace removed. */
  function Dedent(line: string): string {
    line[LeadSpaces(line)..]
  }

  /** Removing the indentation put in front of a line that does not start with whitespace gives the line back. */
  lemma DedentSpaces(n: nat, t: string)
    requires t == [] || !IsSpace(t[0])
    ensures Dedent(Spaces(n) + t) == t
  {
    var line := Spaces(n) + t;
    LeadRunUnique(line, IsSpace, n);
    assert forall i | 0 <= i < n :: IsSpace(line[i]);
    if n < |line| {
      assert line[n] == t[0];
    }
    LeadSpacesIsRun(line);
    assert line[n..] == t;
  }

  /** `LeadSpaces` is the run of whitespace at the start. */
  lemma {:induction false} LeadSpacesIsRun(s: string)
    ensures LeadSpaces(s) == LeadRun(s, IsSpace)
    decreases |s|
  {
    if s != [] && IsSpace(s[0]) {
      LeadSpacesIsRun(s[1..]);
    }
  }

  // ------------------------------------------------------------- line passes

  /** `{`, `}` and `;`: `prettyJs` breaks the line after each of them. */
  predicate IsJsBreak(c: char) { c == '{' || c == '}' || c == ';' }

  /** The lines `prettyJs` lays out: comments stripped, a line feed after each brace and semicolon, `, ` for each comma and the whitespace after it, runs of line feeds merged. */
  function JsLines(s: string): (lines: seq<string>)
    ensures forall k | 0 <= k < |lines| :: '\n' !in lines[k]
  {
    Split(MergeNewlines(ReplaceCharAndSpaces(BreakAfter(StripJsComments(s), IsJsBreak), ',', ", ")), '\n')
  }

  /** The lines `prettyCss` lays out: comments stripped, a line feed after each `}`, ` {` and a line feed for each `{`, a line feed for the whitespace after each `;`, runs of line feeds merged. */
  function CssLines(s: string): (lines: seq<string>)
    ensures forall k | 0 <= k < |lines| :: '\n' !in lines[k]
  {
    var broken := ReplaceChar(ReplaceChar(StripBlockComments(s), '}', "}\n"), '{', " {\n");
    Split(MergeNewlines(ReplaceCharAndSpaces(broken, ';', ";\n")), '\n')
  }

  // --------------------------------------------------------- the brace machine

  /** `/^}/` in `prettyJs` and `line.startsWith('}')` in `prettyCss`. */
  predicate ClosesBlock(line: string) { StartsWith(line, "}") }

  /** `line.endsWith('{')` in `prettyCss`. */
  predicate OpensBlock(line: string) { EndsWith(line, "{") }

  /** `/{\s*$/` in `prettyJs`: a `{` followed by nothing but whitespace. */
  predicate OpensBlockJs(line: string) {
    var n := TrailSpaces(line);
    n < |line| && line[|line| - 1 - n] == '{'
  }

  /** On the trimmed lines the machine tests, the opening test of `prettyJs` is the one of `prettyCss`, so one machine serves both. */
  lemma OpensBlockTrimmed(line: string)
    requires Trimmed(line)
    ensures OpensBlockJs(line) <==> OpensBlock(line)
  {
    if line != [] {
      assert TrailSpaces(line) == 0;
      assert line[|line| - 1..] == [line[|line| - 1]];
    }
  }

  /** The depth a non-blank line is printed at: one less for a closing line, clamped at zero. */
  function PrintDepth(depth: nat, line: string): nat {
    if ClosesBlock(line) then Decrement(depth) else depth
  }

  /** The depth after a line: a blank line changes nothing, an opening line goes one deeper than it was printed. */
  function NextDepth(depth: nat, line: string): nat {
    if line == "" then depth else PrintDepth(depth, line) + (if OpensBlock(line) then 1 else 0)
  }

  /** The output line for a trimmed line: blank stays blank, otherwise two spaces per level of its printed depth. */
  function IndentLine(depth: nat, line: string): string {
    if line == "" then "" else Spaces(2 * PrintDepth(depth, line)) + line
  }

  /** The lines laid out from depth `depth`, each trimmed first. */
  function Indented(lines: seq<string>, depth: nat): (out: seq<string>)
    ensures |out| == |lines|
  {
    if lines == [] then []
    else [IndentLine(depth, Trim(lines[0]))] + Indented(lines[1..], NextDepth(depth, Trim(lines[0])))
  }

  /** Reference reading of the machine by position: the depth before line `k` folds the lines before it. */
  function DepthBefore(lines: seq<string>, depth: nat, k: nat): nat
    requires k <= |lines|
  {
    if k == 0 then depth else NextDepth(DepthBefore(lines, depth, k - 1), Trim(lines[k - 1]))
  }

  lemma {:induction false} DepthBeforeShift(lines: seq<string>, depth: nat, k: nat)
    requires 0 < k <= |lines|
    ensures DepthBefore(lines, depth, k) == DepthBefore(lines[1..], NextDepth(depth, Trim(lines[0])), k - 1)
  {
    if k > 1 {
      DepthBeforeShift(lines, depth, k - 1);
      assert lines[1..][k - 2] == lines[k - 1];
    }
  }

  /**
   * Line `k` of the layout is blank when the trimmed line is, and otherwise is the trimmed line
   * behind two spaces per level of the depth in force before it, stepped down first when it closes.
   */
  lemma {:induction false} IndentedAt(lines: seq<string>, depth: nat, k: nat)
    requires k < |lines|
    ensures Trim(lines[k]) == "" ==> Indented(lines, depth)[k] == ""
    ensures Trim(lines[k]) != "" ==> Indented(lines, depth)[k] == Spaces(2 * PrintDepth(DepthBefore(lines, depth, k), Trim(lines[k]))) + Trim(lines[k])
    decreases k
  {
    if k > 0 {
      var next := NextDepth(depth, Trim(lines[0]));
      IndentedAt(lines[1..], next, k - 1);
      DepthBeforeShift(lines, depth, k);
      assert lines[1..][k - 1] == lines[k];
      assert Indented(lines, depth)[k] == Indented(lines[1..], next)[k - 1];
    }
  }

  /** Only the indentation changes: every line of the layout, dedented, is the trimmed input line. */
  lemma IndentedText(lines: seq<string>, depth: nat, k: nat)
    requires k < |lines|
    ensures Dedent(Indented(lines, depth)[k]) == Trim(lines[k])
  {
    IndentedAt(lines, depth, k);
    var t := Trim(lines[k]);
    if t == "" {
      assert Dedent("") == "";
    } else {
      DedentSpaces(2 * PrintDepth(DepthBefore(lines, depth, k), t), t);
    }
  }

  /** A closing line right after an opening line is printed at the opening line's indentation. */
  lemma CloseAlignsWithOpen(lines: seq<string>, depth: nat, k: nat)
    requires k + 1 < |lines|
    requires OpensBlock(Trim(lines[k])) && ClosesBlock(Trim(lines[k + 1]))
    ensures Indented(lines, depth)[k] == Spaces(2 * PrintDepth(DepthBefore(lines, depth, k), Trim(lines[k]))) + Trim(lines[k])
    ensures Indented(lines, depth)[k + 1] == Spaces(2 * PrintDepth(DepthBefore(lines, depth, k), Trim(lines[k]))) + Trim(lines[k + 1])
  {
    IndentedAt(lines, depth, k);
    IndentedAt(lines, depth, k + 1);
  }

  /** Without an opening line the depth stays at zero. */
  lemma {:induction false} FlatDepth(lines: seq<string>, k: nat)
    requires k <= |lines|
    requires forall j | 0 <= j < |lines| :: !OpensBlock(Trim(lines[j]))
    ensures DepthBefore(lines, 0, k) == 0
  {
    if k > 0 {
      FlatDepth(lines, k - 1);
      var t := Trim(lines[k - 1]);
      assert !OpensBlock(t);
      ZeroStays(t);
      assert DepthBefore(lines, 0, k) == NextDepth(DepthBefore(lines, 0, k - 1), t);
    }
  }

  lemma ZeroStays(line: string)
    requires !OpensBlock(line)
    ensures NextDepth(0, line) == 0
  {
  }

  /** Without an opening line the layout is the trimmed lines themselves. */
  lemma FlatWithoutOpeners(lines: seq<string>, k: nat)
    requires k < |lines|
    requires forall j | 0 <= j < |lines| :: !OpensBlock(Trim(lines[j]))
    ensures Indented(lines, 0)[k] == Trim(lines[k])
  {
    FlatDepth(lines, k);
    IndentedAt(lines, 0, k);
    assert Spaces(0) == "";
  }

  lemma IndentStep(lines: seq<string>, i: nat, depth: nat, out: seq<string>)
    requires i < |lines|
    ensures out + Indented(lines[i..], depth)
         == (out + [IndentLine(depth, Trim(lines[i]))]) + Indented(lines[i + 1..], NextDepth(depth, Trim(lines[i])))
  {
    assert lines[i..][1..] == lines[i + 1..];
  }

  /** The loop of `prettyJs` and `prettyCss`: each line trimmed, then indented by the brace depth. */
  method IndentByBraces(lines: seq<string>) returns (out: seq<string>)
    ensures out == Indented(lines, 0)
  {
    var depth: nat := 0;
    out := [];
    for i := 0 to |lines|
      invariant out + Indented(lines[i..], depth) == Indented(lines, 0)
    {
      var line := Trim(lines[i]);
      IndentStep(lines, i, depth, out);
      ghost var before := depth;
      if line == "" {
        out := out + [""];
      } else {
        if StartsWith(line, "}") {
          depth := if depth == 0 then 0 else depth - 1;
        }
        out := out + [Spaces(2 * depth) + line];
        if EndsWith(line, "{") {
          depth := depth + 1;
        }
      }
      assert out[|out| - 1] == IndentLine(before, line) && depth == NextDepth(before, line);
    }
    assert lines[|lines|..] == [];
  }

  /** `prettyJs(s)`. */
  function JsLayout(s: string): string {
    Trim(Join(Indented(JsLines(s), 0), '\n')) + "\n"
  }

  /** `prettyCss(s)`. */
  function CssLayout(s: string): string {
    Trim(Join(Indented(CssLines(s), 0), '\n')) + "\n"
  }

  method PrettyJs(s: string) returns (r: string)
    ensures r == JsLayout(s)
  {
    var out := IndentByBraces(JsLines(s));
    r := Trim(Join(out, '\n')) + "\n";
  }

  method PrettyCss(s: string) returns (r: string)
    ensures r == CssLayout(s)
  {
    var out := IndentByBraces(CssLines(s));
    r := Trim(Join(out, '\n')) + "\n";
  }

  // ------------------------------------------------------------- HTML tokens

  /** `<[^>]+>` at index `i`: a `<`, at least one character other than `>`, then the first `>`; the index after it. */
  function TagEnd(s: string, i: nat): (r: Option<nat>)
    requires i < |s|
    ensures r.Some? ==> i + 3 <= r.value <= |s| && s[i] == '<' && s[r.value - 1] == '>'
    ensures r.Some? ==> forall k | i < k < r.value - 1 :: s[k] != '>'
  {
    if s[i] != '<' then None
    else
      match IndexOfChar(s, '>', i + 1)
      case Some(g) => if g > i + 1 then Some(g + 1) else None
      case None => None
  }

  /** `s.split(/(<[^>]+>)/g)` from `start`, scanning at `i`: the text before each tag, the tag, and the text after the last one. */
  function SplitTags(s: string, start: nat, i: nat): seq<string>
    requires start <= i <= |s|
    decreases |s| - i
  {
    if i == |s| then [s[start..]]
    else
      match TagEnd(s, i)
      case Some(e) => [s[start..i], s[i..e]] + SplitTags(s, e, e)
      case None => SplitTags(s, start, i + 1)
  }

  /** `.filter(Boolean)`: the non-empty pieces, in order. */
  function NonEmpty(parts: seq<string>): (r: seq<string>)
    ensures forall k | 0 <= k < |r| :: r[k] != ""
  {
    if parts == [] then []
    else (if parts[0] == "" then [] else [parts[0]]) + NonEmpty(parts[1..])
  }

  /** The tokens of `prettyHtml`. */
  function HtmlTokens(s: string): (tokens: seq<string>)
    ensures forall k | 0 <= k < |tokens| :: tokens[k] != ""
  {
    NonEmpty(SplitTags(s, 0, 0))
  }

  lemma ConcatPair(a: string, b: string, rest: seq<string>)
    ensures Concat([a, b] + rest) == a + b + Concat(rest)
  {
    assert ([a, b] + rest)[1..] == [b] + rest;
    assert ([b] + rest)[1..] == rest;
  }

  /** The pieces of the split, put back together, are the text from `start`. */
  lemma {:induction false} SplitTagsRoundTrip(s: string, start: nat, i: nat)
    requires start <= i <= |s|
    ensures Concat(SplitTags(s, start, i)) == s[start..]
    decreases |s| - i
  {
    if i == |s| {
      assert [s[start..]][1..] == [];
    } else {
      match TagEnd(s, i)
      case Some(e) =>
        SplitTagsRoundTrip(s, e, e);
        ConcatPair(s[start..i], s[i..e], SplitTags(s, e, e));
        assert s[start..] == s[start..i] + s[i..e] + s[e..];
      case None =>
        SplitTagsRoundTrip(s, start, i + 1);
    }
  }

  lemma {:induction false} NonEmptyConcat(parts: seq<string>)
    ensures Concat(NonEmpty(parts)) == Concat(parts)
  {
    if parts != [] {
      NonEmptyConcat(parts[1..]);
      ConcatAppend(if parts[0] == "" then [] else [parts[0]], NonEmpty(parts[1..]));
      assert [parts[0]][1..] == [];
    }
  }

  /** Tokenising loses nothing: the tokens, put back together, are the text. */
  lemma HtmlTokensRoundTrip(s: string)
    ensures Concat(HtmlTokens(s)) == s
  {
    SplitTagsRoundTrip(s, 0, 0);
    NonEmptyConcat(SplitTags(s, 0, 0));
  }

  // ------------------------------------------------------------ the tag machine

  /** The elements `prettyHtml` treats as void. */
  const Voids: set<string> := {"area", "base", "br", "col", "embed", "hr", "img", "input", "link", "meta", "param", "source", "track", "wbr"}

  /** `[a-zA-Z0-9:-]`. */
  predicate IsNameChar(c: char) { IsAsciiLetter(c) || IsDigit(c) || c == ':' || c == '-' }

  /** `/^<\/\w/`. */
  predicate IsClosingTag(t: string) {
    |t| >= 3 && t[0] == '<' && t[1] == '/' && IsWordChar(t[2])
  }

  /** `/^<\/?([a-zA-Z0-9:-]+)/` lower-cased, or the empty name when it does not match. */
  function TagName(t: string): string {
    if |t| == 0 || t[0] != '<' then ""
    else
      var p := if |t| > 1 && t[1] == '/' then 2 else 1;
      ToLower(t[p..][..LeadRun(t[p..], IsNameChar)])
  }

  /** `/\/>$/.test(t) || voids.has(tag)`. */
  predicate SelfClosing(t: string) {
    EndsWith(t, "/>") || TagName(t) in Voids
  }

  /** The depth a tag token is printed at: one less for a closing tag, clamped at zero. */
  function TagDepth(depth: nat, t: string): nat {
    if IsClosingTag(t) then Decrement(depth) else depth
  }

  /** The depth after a token: text changes nothing; a tag that neither closes nor closes itself goes one deeper. */
  function AfterToken(depth: nat, t: string): nat {
    if !StartsWith(t, "<") then depth
    else if !IsClosingTag(t) && !SelfClosing(t) then TagDepth(depth, t) + 1
    else TagDepth(depth, t)
  }

  /** What one token prints: trimmed text unless blank, or the tag, behind two spaces per level. */
  function TokenLines(depth: nat, t: string): seq<string> {
    if !StartsWith(t, "<") then (if Trim(t) == "" then [] else [Spaces(2 * depth) + Trim(t)])
    else [Spaces(2 * TagDepth(depth, t)) + t]
  }

  /** The tokens laid out from depth `depth`. */
  function LaidOut(tokens: seq<string>, depth: nat): seq<string> {
    if tokens == [] then []
    else TokenLines(depth, tokens[0]) + LaidOut(tokens[1..], AfterToken(depth, tokens[0]))
  }

  /** What a token contributes once the indentation is taken away. */
  function Content(tokens: seq<string>): seq<string> {
    if tokens == [] then []
    else
      var t := tokens[0];
      (if StartsWith(t, "<") then [t] else if Trim(t) == "" then [] else [Trim(t)]) + Content(tokens[1..])
  }

  /** Every line with its indentation removed. */
  function Dedented(lines: seq<string>): (r: seq<string>)
    ensures |r| == |lines|
  {
    if lines == [] then [] else [Dedent(lines[0])] + Dedented(lines[1..])
  }

  lemma {:induction false} DedentedAppend(a: seq<string>, b: seq<string>)
    ensures Dedented(a + b) == Dedented(a) + Dedented(b)
  {
    if a != [] {
      assert (a + b)[1..] == a[1..] + b;
      DedentedAppend(a[1..], b);
    } else {
      assert a + b == b;
    }
  }

  lemma TokenContent(depth: nat, t: string)
    ensures Dedented(TokenLines(depth, t)) == (if StartsWith(t, "<") then [t] else if Trim(t) == "" then [] else [Trim(t)])
  {
    if StartsWith(t, "<") {
      DedentSpaces(2 * TagDepth(depth, t), t);
      assert Dedented([Spaces(2 * TagDepth(depth, t)) + t]) == [Dedent(Spaces(2 * TagDepth(depth, t)) + t)];
    } else if Trim(t) != "" {
      DedentSpaces(2 * depth, Trim(t));
      assert Dedented([Spaces(2 * depth) + Trim(t)]) == [Dedent(Spaces(2 * depth) + Trim(t))];
    }
  }

  /** Only the indentation changes: the layout, dedented, is every tag and every non-blank trimmed text, in order. */
  lemma {:induction false} LaidOutContent(tokens: seq<string>, depth: nat)
    ensures Dedented(LaidOut(tokens, depth)) == Content(tokens)
  {
    if tokens != [] {
      var t := tokens[0];
      LaidOutContent(tokens[1..], AfterToken(depth, t));
      DedentedAppend(TokenLines(depth, t), LaidOut(tokens[1..], AfterToken(depth, t)));
      TokenContent(depth, t);
    }
  }

  /** Void elements, tags ending in `/>` and closing tags never raise the depth: markup made only of these is laid out flat. */
  lemma {:induction false} FlatWithoutOpeningTags(tokens: seq<string>)
    requires forall k | 0 <= k < |tokens| :: StartsWith(tokens[k], "<") ==> IsClosingTag(tokens[k]) || SelfClosing(tokens[k])
    ensures LaidOut(tokens, 0) == Content(tokens)
  {
    if tokens != [] {
      var t := tokens[0];
      var rest := tokens[1..];
      assert AfterToken(0, t) == 0;
      FlatToken(t);
      assert forall k | 0 <= k < |rest| :: rest[k] == tokens[k + 1];
      FlatWithoutOpeningTags(rest);
    }
  }

  lemma FlatToken(t: string)
    ensures TokenLines(0, t) == (if StartsWith(t, "<") then [t] else if Trim(t) == "" then [] else [Trim(t)])
  {
    assert TagDepth(0, t) == 0;
    assert Spaces(0) + t == t;
    assert Spaces(0) + Trim(t) == Trim(t);
  }

  /** An element that opens and is closed right away: both tags are printed at the depth in force, and the depth comes back to it. */
  lemma OpenThenClose(o: string, c: string, rest: seq<string>, depth: nat)
    requires StartsWith(o, "<") && !IsClosingTag(o) && !SelfClosing(o) && IsClosingTag(c)
    ensures LaidOut([o, c] + rest, depth) == [Spaces(2 * depth) + o, Spaces(2 * depth) + c] + LaidOut(rest, depth)
  {
    var tokens := [o, c] + rest;
    assert tokens[1..] == [c] + rest;
    assert tokens[1..][1..] == rest;
    assert StartsWith(c, "<") by {
      assert c[..1] == "<";
    }
  }

  lemma TokenStep(tokens: seq<string>, i: nat, depth: nat, out: seq<string>)
    requires i < |tokens|
    ensures out + LaidOut(tokens[i..], depth)
         == (out + TokenLines(depth, tokens[i])) + LaidOut(tokens[i + 1..], AfterToken(depth, tokens[i]))
  {
    assert tokens[i..][1..] == tokens[i + 1..];
  }

  lemma LaidOutDone(tokens: seq<string>, depth: nat, out: seq<string>)
    requires out + LaidOut(tokens[|tokens|..], depth) == LaidOut(tokens, 0)
    ensures out == LaidOut(tokens, 0)
  {
    assert tokens[|tokens|..] == [];
  }

  /** The text `prettyHtml` tokenises: comments stripped, whitespace between tags closed up. */
  function HtmlSource(s: string): string {
    CloseGaps(StripHtmlComments(s))
  }

  /** `prettyHtml(s)`. */
  function HtmlLayout(s: string): string {
    Trim(CapBlankLines(Join(LaidOut(HtmlTokens(HtmlSource(s)), 0), '\n'))) + "\n"
  }

  /** `prettyHtml`: the loop over the tokens keeping the element depth. */
  method PrettyHtml(s: string) returns (r: string)
    ensures r == HtmlLayout(s)
  {
    var tokens := HtmlTokens(HtmlSource(s));
    var depth: nat := 0;
    var out: seq<string> := [];
    for i := 0 to |tokens|
      invariant out + LaidOut(tokens[i..], depth) == LaidOut(tokens, 0)
    {
      var t := tokens[i];
      TokenStep(tokens, i, depth, out);
      ghost var before := depth;
      ghost var printed := out;
      if !StartsWith(t, "<") {
        var txt := Trim(t);
        if txt != "" {
          out := out + [Spaces(2 * depth) + txt];
        }
      } else {
        var isClose := IsClosingTag(t);
        var tag := TagName(t);
        var self := EndsWith(t, "/>") || tag in Voids;
        if isClose {
          depth := if depth == 0 then 0 else depth - 1;
        }
        out := out + [Spaces(2 * depth) + t];
        if !isClose && !self {
          depth := depth + 1;
        }
      }
      assert out == printed + TokenLines(before, t) && depth == AfterToken(before, t);
    }
    LaidOutDone(tokens, depth, out);
    r := Trim(CapBlankLines(Join(out, '\n'))) + "\n";
  }

  /** Every prettifier ends its output with exactly one line feed, after the trim. */
  lemma LayoutsEnd(s: string)
    ensures EndsInOneLineFeed(JsLayout(s)) && EndsInOneLineFeed(CssLayout(s)) && EndsInOneLineFeed(HtmlLayout(s))
  {
    TrimLineFeed(Join(Indented(JsLines(s), 0), '\n'));
    TrimLineFeed(Join(Indented(CssLines(s), 0), '\n'));
    TrimLineFeed(CapBlankLines(Join(LaidOut(HtmlTokens(HtmlSource(s)), 0), '\n')));
  }
}
