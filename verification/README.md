# Formatter and colour engines, modelled in Dafny

This project models two client-side libraries of a web tool collection.

**The code formatter** (`formatter.worker.ts`) takes `{ src, lang, action }`.
- It resolves `auto` by a cascade of tests (blank, mixed, html, json, css, javascript).
- `normalize` and `generic` text always get the whitespace normaliser. Otherwise the chosen language's minifier or prettifier runs.
- The minifiers and comment strippers are chains of regular-expression replacements. Each replacement is written out as a character-level function with the same leftmost, greedy or lazy matching as JavaScript. Whitespace is the full ECMAScript set used by `\s` and `trim`.
- The prettifiers are loops that keep a brace or element depth that never goes below zero.
- Mixed markup works in three steps:
  1. `transformBlocks` cuts out `<script>` and `<style>` blocks, rewrites their code, and stitches the document back together;
  2. `protectBlocks` swaps each block for a numbered placeholder `__SNAPPO_BLOCK_n__` while the HTML pass runs;
  3. the placeholders are then looked up again.

**The colour engine** (`color.ts`) covers the integer-valued parts:
- clamping;
- hex encoding and decoding;
- the hex branch of `parseColor`;
- squared distance;
- the palette builders `mono` and `shadesTints`, with the HSL conversions as parameters;
- the k-means quantiser `kmeansTopColors`.

JavaScript numbers are modelled as exact reals plus `NaN` and the infinities, wherever a non-finite value changes the outcome.

Each loop of the source is a method proved against a specification function:
- `IndentByBraces` and `PrettyHtml`;
- `ProtectBlocks` and `TransformBlocks`;
- `Mono`, `ShadesTints`;
- `OpaquePixels`, `NearestCentroid`, `AssignAll`, `Accumulate`, `UpdateCentroids`, `Cluster`.

The properties are lemmas about those functions. k-means keeps its `centroids`, `assignment` and `sums` in arrays that it updates in place, as the source does.

Modules (one file each):
- `Wrappers` and `Text` (`text.dfy`): characters, trim, split and join, decimal numerals.
- `Passes`: the regex replacements.
- `Replace`: `String.prototype.replace` with a callback.
- `Blocks`: the block pattern, the placeholder keys and the restore pass.
- `Protect`: `protectBlocks` and `transformBlocks`.
- `Minify`.
- `Pretty`.
- `MixedMarkup` (`mixed.dfy`).
- `Detect`.
- `Dispatch`.
- `Color`.
- `KMeans`.

Where the prose description of the system and the code disagree, the model follows the code:
- **Blocks in `minHtml`.** The description says that HTML minification shields `<script>`/`<style>` contents. In the code it does not (see Findings). `Dispatch.Format`, `Dispatch.HandleMessage` and `MixedMarkup.MinMixed` call `minHtml` as written. The corrected reading, `Minify.MinHtmlProtected`, stands beside it and is used only to state the Finding.
- **Order of `shadesTints`.** The description calls the result "`steps` progressively darker values …, the original color, `steps` progressively lighter values" and also "ordered dark→original→light". The code emits the shades lightest first, each darker than the one before. That matches the first phrase, and the second holds group by group: shades, then the original, then tints. Read as a ramp whose lightness rises throughout, the second phrase does not hold. The intent is ambiguous. The model follows the code and proves the other reading beside it (see Findings).
- **End-to-end minify examples.** The description's examples keep a `;` before `}` (`function f(){return 1;}`, `.a{color:red;}`). The code folds every `;}` to `}` (formatter.worker.ts lines 69 and 103), and `Minify.MinJs`/`Minify.MinCss` do the same.
- **`monochrome` with a `NaN` count.** The description gives `monochrome` a count of at least one. The code's `Math.max(1, Math.floor(NaN))` is `NaN`, so the loop never runs and no colour comes back. `Color.Steps` says so.

## Model

| member | source | states |
|---|---|---|
| `Text.Trim` | apps/web/app/components/tools/minifier/formatter.worker.ts:83 | the result has no whitespace at either end; it is empty exactly when the input is all whitespace; otherwise it is the slice of the input that starts after the leading whitespace and leaves only whitespace after it |
| `Text.Split` | apps/web/app/components/tools/minifier/formatter.worker.ts:79 | `split('\n')` gives at least one piece, and no piece holds the separator |
| `Text.JoinSplit` | apps/web/app/components/tools/minifier/formatter.worker.ts:92 | joining the split pieces with the separator gives the text back |
| `Text.TrimLineFeed` | apps/web/app/components/tools/minifier/formatter.worker.ts:49 | a trimmed text with `'\n'` appended ends in exactly one line feed |
| `Passes.ReplaceRunsBounded` | apps/web/app/components/tools/minifier/formatter.worker.ts:48 | replacing every run of at least `min` class characters by a string of class characters leaves no run longer than that string or `min - 1` |
| `Passes.ReplaceRunsShort` | apps/web/app/components/tools/minifier/formatter.worker.ts:46-48 | text with no run of `min` class characters passes through a run replacement unchanged |
| `Passes.StripDelimited` | apps/web/app/components/tools/minifier/formatter.worker.ts:96 | removing `/*…*/` (lazy) never lengthens the text |
| `Passes.StripDelimitedNoOpen` | apps/web/app/components/tools/minifier/formatter.worker.ts:96 | text without an opening delimiter is unchanged by the comment strip |
| `Passes.LineEnd` | apps/web/app/components/tools/minifier/formatter.worker.ts:62 | the `.*$` of a multiline pattern stops at the first line terminator, or at the end |
| `Passes.StripLineComments` | apps/web/app/components/tools/minifier/formatter.worker.ts:62 | removing `//` comments never lengthens the text |
| `Passes.StripLineCommentsNone` | apps/web/app/components/tools/minifier/formatter.worker.ts:62 | text without `//` is unchanged by the line-comment pass |
| `Passes.StripJsComments` | apps/web/app/components/tools/minifier/formatter.worker.ts:61-63 | `stripJsComments` never lengthens the text |
| `Passes.TrimAroundNewlines` | apps/web/app/components/tools/minifier/formatter.worker.ts:47 | `/ *\n */g → '\n'` only deletes: every output character occurs in the input |
| `Passes.FoldSemicolonsDeletes` | apps/web/app/components/tools/minifier/formatter.worker.ts:69 | the `;}` fold deletes exactly the semicolons that stand before a `}` (compared with an independent character-by-character definition) |
| `Passes.FoldSemicolonsNone` | apps/web/app/components/tools/minifier/formatter.worker.ts:103 | text without `;}` is unchanged by the fold |
| `Passes.CloseGapsNone` | apps/web/app/components/tools/minifier/formatter.worker.ts:133 | text where no `>` is followed by whitespace is unchanged by `/>\s+</g → '><'` |
| `Passes.SqueezeAroundNone` | apps/web/app/components/tools/minifier/formatter.worker.ts:68 | text without whitespace is unchanged by the squeeze around punctuation |
| `Replace.NoMatch` | apps/web/app/components/tools/minifier/formatter.worker.ts:238 | a global replace whose pattern matches nowhere returns the string unchanged |
| `Replace.Unchanged` | apps/web/app/components/tools/minifier/formatter.worker.ts:238 | a callback that gives every match back as it was (`map.get(k) \|\| k` on a missing key) leaves the string as it is |
| `Replace.AtMatch` | apps/web/app/components/tools/minifier/formatter.worker.ts:229-236 | at a match the callback's result is emitted and the scan resumes after the match |
| `Replace.Step` | apps/web/app/components/tools/minifier/formatter.worker.ts:229-236 | text without a match, then a match, then the rest: the text is kept, the match goes through the callback, the rest is replaced on its own |
| `Blocks.TagLength` | apps/web/app/components/tools/minifier/formatter.worker.ts:199 | `(script\|style)` under the `i` flag matches a block name of that length, or nothing |
| `Blocks.FindClose` | apps/web/app/components/tools/minifier/formatter.worker.ts:199 | the lazy `[\s\S]*?` stops at the first closing tag `</\1>` at or after the contents' start |
| `Blocks.MatchAt` | apps/web/app/components/tools/minifier/formatter.worker.ts:199 | a match at an index covers exactly the text of a well-formed block there: name, attributes starting at a word boundary, contents, closing tag with the same name up to case |
| `Blocks.NextBlock` | apps/web/app/components/tools/minifier/formatter.worker.ts:201 | `re.exec` with the `g` flag finds the leftmost match at or after `lastIndex`, and none exists before it |
| `Blocks.SplitFrom` | apps/web/app/components/tools/minifier/formatter.worker.ts:201-216 | a document splits into plain text and blocks that alternate, starting and ending with plain text |
| `Blocks.SplitRoundTrip` | apps/web/app/components/tools/minifier/formatter.worker.ts:206-216 | the segments, rendered back in order, give the text they were cut from |
| `Blocks.SplitBlocksWellFormed` | apps/web/app/components/tools/minifier/formatter.worker.ts:199-205 | every block the split finds is well formed |
| `Blocks.KeyInjective` | apps/web/app/components/tools/minifier/formatter.worker.ts:232 | placeholders issued with different counters are different |
| `Blocks.KeyMatch` | apps/web/app/components/tools/minifier/formatter.worker.ts:238 | `/__SNAPPO_BLOCK_\d+__/` matches within the text and is longer than its prefix |
| `Blocks.KeyAt` | apps/web/app/components/tools/minifier/formatter.worker.ts:238 | a placeholder written into a text is matched there in full |
| `Blocks.KeyAgree` | apps/web/app/components/tools/minifier/formatter.worker.ts:238 | what the placeholder pattern matches at an index depends only on the text from that index on |
| `Blocks.NoKeyInside` | apps/web/app/components/tools/minifier/formatter.worker.ts:238 | no placeholder match starts inside text that lacks the key prefix |
| `Blocks.RestorePlain` | apps/web/app/components/tools/minifier/formatter.worker.ts:238 | text without placeholders comes back from the restore pass unchanged |
| `Blocks.RestoreStep` | apps/web/app/components/tools/minifier/formatter.worker.ts:238 | text, a placeholder and the rest: the text stays, the placeholder is looked up, the rest is restored |
| `Blocks.RestoreEmpty` | apps/web/app/components/tools/minifier/formatter.worker.ts:238 | with an empty map every placeholder is kept as it is (`\|\| k`), so the text is unchanged |
| `Protect.Stored` | apps/web/app/components/tools/minifier/formatter.worker.ts:233 | what is stored for a block starts with `<` |
| `Protect.TableKeysFrom` | apps/web/app/components/tools/minifier/formatter.worker.ts:232 | the keys issued from counter `idx` on never include a key with a smaller number |
| `Protect.TableLookup` | apps/web/app/components/tools/minifier/formatter.worker.ts:232-233 | the key of the `n`-th block is in the map and looks up that block's stored text |
| `Protect.TableHolds` | apps/web/app/components/tools/minifier/formatter.worker.ts:233-238 | every block's key looks up that block's stored text |
| `Protect.RestoreMasked` | apps/web/app/components/tools/minifier/formatter.worker.ts:238 | restoring the masked document gives the plain text in order, with each placeholder replaced by its own block, once |
| `Protect.ProtectAfter` | apps/web/app/components/tools/minifier/formatter.worker.ts:237-238 | when the `after` callback keeps the placeholders and the text between them key-free, the result is its output with each block put back in its place |
| `Protect.ProtectNoAfter` | apps/web/app/components/tools/minifier/formatter.worker.ts:237 | without a callback each block comes back as stored, the text between them untouched |
| `Protect.ProtectNoBlocks` | apps/web/app/components/tools/minifier/formatter.worker.ts:229-238 | a document without blocks is handed whole to the callback, and its output is returned as it is |
| `Protect.UnmaskedKeep` | apps/web/app/components/tools/minifier/formatter.worker.ts:233 | blocks stored with their contents kept render as written, when each closes with the name spelled as it opened |
| `Protect.ProtectIdentity` | apps/web/app/components/tools/minifier/formatter.worker.ts:131 | `protectBlocks(s, inner => inner)` with no callback returns `s`, for key-free documents whose blocks close as they open |
| `Protect.MaskStep` | apps/web/app/components/tools/minifier/formatter.worker.ts:229-236 | one block of the replace adds the text before it and its key to the output |
| `Protect.TableStep` | apps/web/app/components/tools/minifier/formatter.worker.ts:232-233 | one block of the replace adds its key and stored text to the map |
| `Protect.ProtectBlocks` | apps/web/app/components/tools/minifier/formatter.worker.ts:222-239 | the method's result is the masked document, passed through the callback, then restored from the map it built |
| `Protect.BlockNameLower` | apps/web/app/components/tools/minifier/formatter.worker.ts:202 | a block name in any case lowers to `script` or `style` |
| `Protect.OpenTag` | apps/web/app/components/tools/minifier/formatter.worker.ts:203 | `m[0].slice(0, m[0].indexOf('>') + 1)` is the opening tag as written |
| `Protect.RewrittenAt` | apps/web/app/components/tools/minifier/formatter.worker.ts:206-216 | the `k`-th part is the `k`-th plain stretch unchanged or the piece for the `k`-th block: the order of the document is kept |
| `Protect.FrameShape` | apps/web/app/components/tools/minifier/formatter.worker.ts:213 | a piece is `open + "\n"`, the transformed code, then `"\n" + close`, with the second line feed added only when the code does not already end in one |
| `Protect.PieceShape` | apps/web/app/components/tools/minifier/formatter.worker.ts:202-213 | a block's piece starts with its opening tag and a line feed, carries the transformed code, and ends with a line feed and `</script>` or `</style>` in lower case |
| `Protect.PieceFallback` | apps/web/app/components/tools/minifier/formatter.worker.ts:208-212 | when a block's transform throws, its original code stands right after the opening tag and line feed |
| `Protect.RewriteStep` | apps/web/app/components/tools/minifier/formatter.worker.ts:206-214 | one block of the loop adds the text before it and its piece to the parts |
| `Protect.TransformBlocks` | apps/web/app/components/tools/minifier/formatter.worker.ts:192-220 | the method's result is the parts joined, stripped of HTML comments, and passed through `protectBlocks` with the HTML transform |
| `Protect.BlockPiece` | apps/web/app/components/tools/minifier/formatter.worker.ts:202-213 | one pass of the loop body builds exactly the block's piece: the opening tag as written, the transformed code (or the code when the transform throws) ending in a newline, the lower-case closing tag |
| `Protect.TransformNoBlocks` | apps/web/app/components/tools/minifier/formatter.worker.ts:216-219 | a document without blocks is stripped of comments and handed to `protectBlocks` as it is |
| `Minify.NormalizeNoTab` | apps/web/app/components/tools/minifier/formatter.worker.ts:46 | normalised text contains no tab |
| `Minify.NormalizeBlankLines` | apps/web/app/components/tools/minifier/formatter.worker.ts:47-48 | normalised text has no run of three or more line feeds |
| `Minify.NormalizeEnds` | apps/web/app/components/tools/minifier/formatter.worker.ts:49 | normalised text ends with exactly one line feed, appended after the trim |
| `Minify.MinJs` | apps/web/app/components/tools/minifier/formatter.worker.ts:65-71 | minified JavaScript has no whitespace at either end |
| `Minify.MinCss` | apps/web/app/components/tools/minifier/formatter.worker.ts:99-105 | minified CSS has no whitespace at either end |
| `Minify.MinJsFixpoint` | apps/web/app/components/tools/minifier/formatter.worker.ts:65-71 | JavaScript with no whitespace, comment or `;}` is its own minification |
| `Minify.MinCssFixpoint` | apps/web/app/components/tools/minifier/formatter.worker.ts:99-105 | CSS with no whitespace, comment or `;}` is its own minification |
| `Minify.MinHtml` | apps/web/app/components/tools/minifier/formatter.worker.ts:130-135 | `minHtml` as written has no whitespace at either end |
| `Minify.MinHtmlSquashesAll` | apps/web/app/components/tools/minifier/formatter.worker.ts:133 | as written, no two whitespace characters stay side by side anywhere, inside blocks included |
| `Minify.MinHtmlChangesDoubleSpace` | apps/web/app/components/tools/minifier/formatter.worker.ts:131-134 | as written, every document with two adjacent whitespace characters is changed, wherever they stand |
| `Minify.MinHtmlAltersStyle` | apps/web/app/components/tools/minifier/formatter.worker.ts:130-135 | as written, `<style>a  b</style>` is changed: the block's contents are not protected |
| `Minify.ExampleMatch` | apps/web/app/components/tools/minifier/formatter.worker.ts:230 | the block pattern matches all of `<style>a  b</style>` |
| `Minify.MinHtmlProtected` | apps/web/app/components/tools/minifier/formatter.worker.ts:130-135 | the corrected `minHtml` has no whitespace at either end |
| `Minify.MinHtmlReadingsAgree` | apps/web/app/components/tools/minifier/formatter.worker.ts:130-135 | without a block, the corrected and the as-written `minHtml` agree |
| `Minify.MinHtmlProtectedKeepsBlock` | apps/web/app/components/tools/minifier/formatter.worker.ts:130-135 | the corrected `minHtml` leaves a document that is a single block untouched |
| `Minify.MinHtmlProtectedKeepsStyle` | apps/web/app/components/tools/minifier/formatter.worker.ts:130-135 | the corrected `minHtml` leaves `<style>a  b</style>` untouched |
| `Pretty.DedentSpaces` | apps/web/app/components/tools/minifier/formatter.worker.ts:89 | removing the indentation from `'  '.repeat(d) + line` gives the line back |
| `Pretty.JsLines` | apps/web/app/components/tools/minifier/formatter.worker.ts:74-79 | the lines `prettyJs` walks contain no line feed |
| `Pretty.CssLines` | apps/web/app/components/tools/minifier/formatter.worker.ts:108-114 | the lines `prettyCss` walks contain no line feed |
| `Pretty.OpensBlockTrimmed` | apps/web/app/components/tools/minifier/formatter.worker.ts:90 | on a trimmed line `/{\s*$/` and `endsWith('{')` agree, so one machine serves both prettifiers |
| `Pretty.Indented` | apps/web/app/components/tools/minifier/formatter.worker.ts:82-91 | the layout has one output line per input line |
| `Pretty.IndentedAt` | apps/web/app/components/tools/minifier/formatter.worker.ts:84-90 | a blank line prints empty; any other prints `2 × depth` spaces then the trimmed line, the depth lowered first (never below 0) for a line starting with `}` |
| `Pretty.IndentedText` | apps/web/app/components/tools/minifier/formatter.worker.ts:83-89 | only indentation changes: each output line, dedented, is the trimmed input line |
| `Pretty.CloseAlignsWithOpen` | apps/web/app/components/tools/minifier/formatter.worker.ts:88-90 | a `}` line right after a `{` line prints at the `{` line's indentation |
| `Pretty.FlatWithoutOpeners` | apps/web/app/components/tools/minifier/formatter.worker.ts:88-90 | with no line ending in `{` the depth stays 0 and each line prints trimmed, unindented |
| `Pretty.IndentByBraces` | apps/web/app/components/tools/minifier/formatter.worker.ts:80-91 | the loop's output equals the layout specification from depth 0 |
| `Pretty.PrettyJs` | apps/web/app/components/tools/minifier/formatter.worker.ts:73-93 | `prettyJs` equals its layout specification |
| `Pretty.PrettyCss` | apps/web/app/components/tools/minifier/formatter.worker.ts:107-128 | `prettyCss` equals its layout specification |
| `Pretty.TagEnd` | apps/web/app/components/tools/minifier/formatter.worker.ts:157 | `<[^>]+>` spans a `<`, at least one non-`>` character, and the first `>` |
| `Pretty.NonEmpty` | apps/web/app/components/tools/minifier/formatter.worker.ts:158 | `.filter(Boolean)` keeps no empty piece |
| `Pretty.HtmlTokens` | apps/web/app/components/tools/minifier/formatter.worker.ts:155-158 | no token is empty |
| `Pretty.HtmlTokensRoundTrip` | apps/web/app/components/tools/minifier/formatter.worker.ts:155-158 | tokenising loses nothing: the tokens concatenate back to the text |
| `Pretty.LaidOutContent` | apps/web/app/components/tools/minifier/formatter.worker.ts:161-174 | only indentation changes: the layout, dedented, is every tag and every non-blank trimmed text, in order |
| `Pretty.FlatWithoutOpeningTags` | apps/web/app/components/tools/minifier/formatter.worker.ts:167-173 | void elements, `/>` tags and closing tags never raise the depth: markup of only these is laid out flat |
| `Pretty.OpenThenClose` | apps/web/app/components/tools/minifier/formatter.worker.ts:171-173 | an opening tag followed by a closing tag prints both at the same depth and returns to it |
| `Pretty.PrettyHtml` | apps/web/app/components/tools/minifier/formatter.worker.ts:137-181 | `prettyHtml` equals its layout specification |
| `Pretty.LayoutsEnd` | apps/web/app/components/tools/minifier/formatter.worker.ts:92 | every prettifier's output ends in exactly one line feed, appended after the trim |
| `MixedMarkup.MinMixed` | apps/web/app/components/tools/minifier/formatter.worker.ts:186-188 | `minMixed` is `transformBlocks` with `minJs`, `minCss` and `minHtml` as written |
| `MixedMarkup.PrettyMixed` | apps/web/app/components/tools/minifier/formatter.worker.ts:183-185 | `prettyMixed` is `transformBlocks` with `prettyJs`, `prettyCss` and `prettyHtml` |
| `MixedMarkup.BlockAt` | apps/web/app/components/tools/minifier/formatter.worker.ts:199-202 | each block of a document is well formed and of kind script or style |
| `MixedMarkup.MinMixedBlock` | apps/web/app/components/tools/minifier/formatter.worker.ts:187 | in `minMixed` script code goes through `minJs` and style code through `minCss`, framed by its tags |
| `MixedMarkup.PrettyMixedBlock` | apps/web/app/components/tools/minifier/formatter.worker.ts:184 | in `prettyMixed` script code goes through `prettyJs` and style code through `prettyCss`, framed by its tags |
| `MixedMarkup.MixedWithoutBlocks` | apps/web/app/components/tools/minifier/formatter.worker.ts:217-219 | markup without blocks is minified and prettified as HTML after its comments are stripped |
| `Detect.DetectLanguage` | apps/web/app/components/tools/minifier/formatter.worker.ts:25-41 | detection never answers `auto` |
| `Detect.BlankIsGeneric` | apps/web/app/components/tools/minifier/formatter.worker.ts:26-27 | the answer is `generic` exactly when the input is all whitespace |
| `Detect.DetectTrimmed` | apps/web/app/components/tools/minifier/formatter.worker.ts:26 | only the trimmed text matters |
| `Detect.JsonOnlyForBrackets` | apps/web/app/components/tools/minifier/formatter.worker.ts:33-38 | the parser is consulted only for text starting with `{` or `[`, and `json` is answered only when it parses |
| `Detect.NoAngleNoMarkup` | apps/web/app/components/tools/minifier/formatter.worker.ts:28-32 | without `<` the answer is neither `html` nor `mixed` |
| `Detect.FunctionIsNotCss` | apps/web/app/components/tools/minifier/formatter.worker.ts:39 | text mentioning `function` is never `css` |
| `Detect.NamedTag` | apps/web/app/components/tools/minifier/formatter.worker.ts:28-30 | `<name>` with a letter name is an HTML tag and opens an element of that name |
| `Detect.BlockTagIsMixed` | apps/web/app/components/tools/minifier/formatter.worker.ts:28-31 | a `<script>` or `<style>` tag makes the answer `mixed`, checked before `html` |
| `Dispatch.Resolve` | apps/web/app/components/tools/minifier/formatter.worker.ts:10 | the picked language is never `auto`, and any language other than `auto` is kept |
| `Dispatch.HandleMessage` | apps/web/app/components/tools/minifier/formatter.worker.ts:7-23 | the handler, running the prettifier and mixed loops, replies as the dispatch specification does |
| `Dispatch.HtmlMinifyReply` | apps/web/app/components/tools/minifier/formatter.worker.ts:16 | an `html` + `minify` request replies with `minHtml` as written |
| `Dispatch.HtmlMinifySquashes` | apps/web/app/components/tools/minifier/formatter.worker.ts:16 | the `html` + `minify` reply never has two whitespace characters side by side, inside `<script>`/`<style>` included |
| `Dispatch.HtmlMinifyAltersStyle` | apps/web/app/components/tools/minifier/formatter.worker.ts:16 | minifying `<style>a  b</style>` as `html` does not give the document back |
| `Dispatch.NormalizeOverrides` | apps/web/app/components/tools/minifier/formatter.worker.ts:12 | `normalize` gives `normalizeGeneric(src)`, whatever the language |
| `Dispatch.GenericNormalizes` | apps/web/app/components/tools/minifier/formatter.worker.ts:12 | `generic` gives `normalizeGeneric(src)`, whatever the action |
| `Dispatch.AutoIsDetected` | apps/web/app/components/tools/minifier/formatter.worker.ts:10 | `auto` replies as the detected language does |
| `Dispatch.BlankAutoNormalizes` | apps/web/app/components/tools/minifier/formatter.worker.ts:10-12 | blank input under `auto` is normalised |
| `Dispatch.FailsOnlyOnJson` | apps/web/app/components/tools/minifier/formatter.worker.ts:13-21 | a request fails exactly when JSON is picked, the action is not `normalize` and the parser throws; the reply carries its message |
| `Color.Round` | apps/web/app/lib/color.ts:5 | `Math.round` gives the integer within half of `x`, halves going up |
| `Color.Clamp255` | apps/web/app/lib/color.ts:4-7 | the result is an integer in [0, 255], and a non-finite input gives 0 |
| `Color.Clamp255Keeps` | apps/web/app/lib/color.ts:4-7 | integers in [0, 255] pass unchanged, and clamping is idempotent |
| `Color.Clamp255Monotone` | apps/web/app/lib/color.ts:4-7 | clamping preserves the order of finite inputs |
| `Color.Clamp01` | apps/web/app/lib/color.ts:8-11 | the result is in [0, 1], non-finite gives 0, and values already in [0, 1] pass |
| `Color.Clamp01Monotone` | apps/web/app/lib/color.ts:8-11 | clamping preserves the order of finite inputs |
| `Color.ToHex` | apps/web/app/lib/color.ts:21 | `toString(16)` has at least one digit |
| `Color.PadStart` | apps/web/app/lib/color.ts:21 | `padStart` gives the longer of the string's length and the requested width |
| `Color.Hex2Digits` | apps/web/app/lib/color.ts:21 | a channel below 256 is written as exactly two lower-case hex digits, high digit first |
| `Color.RgbHexShape` | apps/web/app/lib/color.ts:13-25 | `rgbHex` is `#` and six lower-case hex digits, two per channel, each channel clamped first |
| `Color.HexToRgb` | apps/web/app/lib/color.ts:27-41 | every channel is in [0, 255], and input that is not 3 or 6 hex digits, after removing the first `#` and trimming, gives (34, 197, 94) |
| `Color.ReadsHashed` | apps/web/app/lib/color.ts:28 | a `#`-prefixed hex colour is read from the digits after the `#` |
| `Color.ShortFormDoubles` | apps/web/app/lib/color.ts:31-35 | a 3-digit colour reads as its 6-digit form with each digit doubled, each channel being 17 times its digit |
| `Color.ParseColor` | apps/web/app/lib/color.ts:109-113 | empty input gives no colour; otherwise a trimmed hex colour is read by `hexToRgb` into a colour in gamut, and any other trimmed text goes to the `rgb(…)`/`hsl(…)` branches |
| `Color.HexRoundTrip` | apps/web/app/lib/color.ts:13-41 | `parseColor(rgbHex(c)) == c` for integer channels in [0, 255] |
| `Color.Dist2Metric` | apps/web/app/lib/color.ts:178-183 | `dist2` is non-negative, symmetric, and zero exactly for equal colours |
| `Color.Mono` | apps/web/app/lib/color.ts:146-156 | `mono` gives `max(1, floor(count))` colours (none for `NaN`), the `i`-th being the HSL ramp entry `i` converted back |
| `Color.MonoRamp` | apps/web/app/lib/color.ts:150-153 | the ramp starts at lightness 0.1, ends at 0.9 when longer than one, increases strictly, and keeps the hue |
| `Color.ShadesTints` | apps/web/app/lib/color.ts:158-173 | `shadesTints` gives `2n + 1` colours with the input unchanged at index `n`, the shades for `i = n … 1` before it and the tints for `i = 1 … n` after it |
| `Color.ShadeIncreasing` | apps/web/app/lib/color.ts:162-165 | for a lightness in (0, 1], a larger step gives a strictly lighter shade |
| `Color.ShadesLightestFirst` | apps/web/app/lib/color.ts:162-165 | as written, each shade is darker than the one before it, so the shades run light to dark |
| `Color.ShadeMonotone` | apps/web/app/lib/color.ts:163 | a larger `i` gives a lighter-or-equal shade |
| `Color.TintMonotone` | apps/web/app/lib/color.ts:169 | a larger `i` gives a lighter-or-equal tint |
| `Color.AroundTheColour` | apps/web/app/lib/color.ts:163-169 | shades are no lighter than the colour and tints no darker |
| `Color.ShadesTintsRamp` | apps/web/app/lib/color.ts:158-173 | the alternative builder, read as one rising ramp, gives `2n + 1` colours, the input at index `n`, shades darkest first |
| `Color.RampDarkToLight` | apps/web/app/lib/color.ts:158-173 | along the alternative ramp lightness never decreases: dark → original → light |
| `KMeans.Opaque` | apps/web/app/lib/color.ts:204-208 | every collected pixel is in gamut |
| `KMeans.OpaqueSound` | apps/web/app/lib/color.ts:205-207 | every pixel is the colour of a quadruple whose alpha is present and at least 128 |
| `KMeans.OpaqueComplete` | apps/web/app/lib/color.ts:205-207 | every such quadruple's colour is among the pixels |
| `KMeans.OpaquePixels` | apps/web/app/lib/color.ts:203-208 | the loop collects exactly the opaque pixels in order |
| `KMeans.ToInt32` | apps/web/app/lib/color.ts:212 | `x \| 0` lies in the 32-bit range, keeps in-range integers, and gives 0 for non-finite values |
| `KMeans.ClusterCount` | apps/web/app/lib/color.ts:212 | the cluster count is at least 1 and at most the number of pixels |
| `KMeans.MaxIter` | apps/web/app/lib/color.ts:220 | at least one pass runs |
| `KMeans.Pick` | apps/web/app/lib/color.ts:214 | every seed index is within the pixel list |
| `KMeans.Seeds` | apps/web/app/lib/color.ts:213-216 | there is one seed per cluster, each of them a pixel |
| `KMeans.NearestIn` | apps/web/app/lib/color.ts:224-232 | the chosen index is among the centroids scanned |
| `KMeans.NearestIsFirstMinimum` | apps/web/app/lib/color.ts:226-232 | the chosen centroid is at least as close as any other and strictly closer than every earlier one |
| `KMeans.Assign` | apps/web/app/lib/color.ts:222-234 | every pixel gets a valid cluster index |
| `KMeans.NearestCentroid` | apps/web/app/lib/color.ts:224-232 | the scan starting from `bestDist = Infinity` returns the first nearest centroid |
| `KMeans.AssignAll` | apps/web/app/lib/color.ts:222-234 | the loop assigns every pixel its first nearest centroid |
| `KMeans.TotalsEmpty` | apps/web/app/lib/color.ts:239-247 | a cluster's count is zero exactly when no pixel is assigned to it |
| `KMeans.TotalsBounded` | apps/web/app/lib/color.ts:239-247 | channel sums lie between 0 and 255 times the count |
| `KMeans.TotalsUniform` | apps/web/app/lib/color.ts:239-247 | for a single-colour buffer, the sums are the count times that colour |
| `KMeans.Accumulate` | apps/web/app/lib/color.ts:236-247 | the loop leaves in each cluster's entry the sum and count of its pixels |
| `KMeans.RoundDivIsRound` | apps/web/app/lib/color.ts:253-255 | the integer quotient `(2a + n) / 2n` is `Math.round(a / n)` |
| `KMeans.RoundDivInRange` | apps/web/app/lib/color.ts:253-255 | the rounded mean of sums within [0, 255n] is in [0, 255] |
| `KMeans.RoundDivExact` | apps/web/app/lib/color.ts:253-255 | `n` copies of a value average to it |
| `KMeans.UpdateCentroids` | apps/web/app/lib/color.ts:249-258 | each centroid moves to its rounded mean if its cluster has members, and otherwise stays |
| `KMeans.StepMoves` | apps/web/app/lib/color.ts:249-258 | a centroid nearest to no pixel keeps its place; one with members moves to their rounded mean |
| `KMeans.StepInGamut` | apps/web/app/lib/color.ts:249-258 | one round keeps every centroid in gamut |
| `KMeans.StepUniform` | apps/web/app/lib/color.ts:221-258 | on a single-colour buffer, centroids of that colour stay that colour |
| `KMeans.IterateInGamut` | apps/web/app/lib/color.ts:221-259 | all rounds keep every centroid in gamut |
| `KMeans.IterateUniform` | apps/web/app/lib/color.ts:221-259 | all rounds keep a single-colour buffer's centroids at that colour |
| `KMeans.Cluster` | apps/web/app/lib/color.ts:212-259 | seeding plus `maxIter` rounds of assignment, accumulation and update equals exactly `maxIter` steps of the specification |
| `KMeans.Gap` | apps/web/app/lib/color.ts:263 | the sort key `Math.abs(luma(c) - refY)` is non-negative |
| `KMeans.Insert` | apps/web/app/lib/color.ts:263 | inserting adds exactly one occurrence of the element |
| `KMeans.SortByGap` | apps/web/app/lib/color.ts:263 | the sort is a permutation |
| `KMeans.InsertSorted` | apps/web/app/lib/color.ts:263 | inserting into a sorted palette keeps it sorted by gap |
| `KMeans.SortByGapSorted` | apps/web/app/lib/color.ts:261-264 | the ordered palette is sorted by non-decreasing gap and is a permutation of the centroids |
| `KMeans.SortKeepsUniform` | apps/web/app/lib/color.ts:263 | ordering a palette of one colour gives a palette of that colour |
| `KMeans.KMeansTopColors` | apps/web/app/lib/color.ts:197-266 | the method's result equals the specification of `kmeansTopColors` |
| `KMeans.TopColorsDefault` | apps/web/app/lib/color.ts:197-201 | with the defaults `k = 5` and `iterations = 8`: no opaque pixel gives no colour, at least five give five colours, fewer give one per pixel, and unsorted the centroids are those after 8 rounds |
| `KMeans.TopColorsFacts` | apps/web/app/lib/color.ts:209-264 | the result is empty exactly when no pixel is opaque; otherwise it has `clusterCount` colours, at most one per pixel, all in gamut; with a reference it is sorted by gap and is a permutation of the centroids |
| `KMeans.TopColorsUniform` | apps/web/app/lib/color.ts:203-265 | a buffer whose opaque pixels share one colour yields only that colour |

## Left out

- Worker messaging. `self.onmessage` and `postMessage` are replaced by `Dispatch.HandleMessage`, which returns the reply.
- JSON. `JSON.parse` and `JSON.stringify` are library code and are not part of this model. The parser is a function parameter. It returns either the compact and indented texts or a syntax error message.
- Dispatch.FailsOnlyOnJson: takes the error text to be the parser's message; the `|| e` fallback for an exception with an empty message is not modelled.
- Exceptions outside JSON. The other transforms are total, so the `try` in `onmessage` can only catch the JSON error. In `transformBlocks` a sub-transform that throws is modelled as one returning no value; `minJs`, `minCss`, `prettyJs` and `prettyCss` never do.
- The `rgb(…)` and `hsl(…)` branches of `parseColor`. They are the parameter `otherwise` of `Color.ParseColor`; only the hex branch is modelled.
- `rgbToHsl`, `hslToRgb`, `rotateHue`, `scaleToFit`. The conversions are function parameters of `Mono`, `ShadesTints` and `ShadesTintsRamp`. The ordering lemmas assume a lightness in [0, 1], which is what `rgbToHsl` yields for channels in range.
- Floating point. Numbers are exact reals: the lightness formulas, `luma`, `Math.round(s.r / s.n)` and the sort keys. Float rounding could order two centroids with nearly equal keys differently from exact arithmetic.
- Color.Mono: an infinite `count` is excluded by the precondition, because the source loops without end on it. The same holds for `Color.ShadesTints` and `Color.ShadesTintsRamp` with an infinite `steps`.
- `Number(c?.r)` in `rgbHex`. Conversion of arbitrary values to numbers is not modelled; the channels are given as numbers.
- The `hexColor || ''` guard. It only matters for a null or undefined argument; the model takes strings.
- KMeans.TopColors: `sortRef` is a colour with integer channels. The source's `luma(sortRef)` accepts any numbers, so a reference with fractional or out-of-range channels is not modelled.
- KMeans.SortByGapSorted: states sortedness and permutation. It does not state the stability of `Array.prototype.sort` among centroids with equal gaps, although `SortByGap` inserts stably.
- Placeholder collisions. The restore pass is modelled as written: a `__SNAPPO_BLOCK_n__` already in the user's text is looked up like any other. The restoration lemmas (`Protect.ProtectAfter`, `Protect.ProtectNoAfter`, `Protect.ProtectIdentity`) assume a document without the key prefix.
- Strings are sequences of Dafny characters. UTF-16 surrogate pairs are not distinguished.
- Detect.DetectLanguage: the regular expressions are written out as predicates over the trimmed text.

## Findings

| source | as written | input that shows it | evidently intended | confidence | as-written member | corrected member |
|---|---|---|---|---|---|---|
| apps/web/app/components/tools/minifier/formatter.worker.ts:130-135 | `minHtml` calls `protectBlocks` without an `after` callback, so the blocks are restored before the comment and whitespace passes run, and those passes rewrite `<script>`/`<style>` contents | `<style>a  b</style>` becomes `<style>a b</style>` | the HTML passes run as `protectBlocks`' callback, so that block contents are shielded from them | high; not executed | `Minify.MinHtmlAltersStyle` | `Minify.MinHtmlProtectedKeepsStyle` |
| apps/web/app/lib/color.ts:162-165 | the shade loop runs `i` from `steps` down to 1 with lightness `L·i/(steps+1)`, so the shades come lightest first and the darkest shade stands next to the original colour | a colour of lightness 0.5 with `steps = 2` gives shades of lightness 1/3, then 1/6 | ambiguous: "`steps` progressively darker values" describes the order as written, while "ordered dark→original→light" read as a ramp asks for the shades darkest first, so that lightness rises throughout | low; not executed | `Color.ShadesLightestFirst` | `Color.RampDarkToLight` |
