/**
 * `minMixed` and `prettyMixed` of the formatter
 * (apps/web/app/components/tools/minifier/formatter.worker.ts): markup with
 * script and style blocks goes through `transformBlocks`, the code of each
 * block through the minifier or prettifier of its kind, the rest through the
 * HTML one.
 */
module MixedMarkup {
  import opened Wrappers
  import opened Text
  import opened Passes
  import opened Blocks
  import opened Protect
  import opened Minify
  import opened Pretty

  /** `minJs` as a block transform; it does not throw. */
  function MinScript(code: string): Option<string> {
    Some(MinJs(code))
  }

  /** `minCss` as a block transform. */
  function MinStyle(code: string): Option<string> {
    Some(MinCss(code))
  }

  /** `prettyJs` as a block transform. */
  function PrettyScript(code: string): Option<string> {
    Some(JsLayout(code))
  }

  /** `prettyCss` as a block transform. */
  function PrettyStyle(code: string): Option<string> {
    Some(CssLayout(code))
  }

  /** `{ script: minJs, style: minCss }`. */
  function MinTransforms(): Transforms {
    Transforms(MinScript, MinStyle)
  }

  /** `{ script: prettyJs, style: prettyCss }`. */
  function PrettyTransforms(): Transforms {
    Transforms(PrettyScript, PrettyStyle)
  }

  /** `minMixed(s)`. */
  function MinMixedText(s: string): string {
    TransformSpec(s, MinTransforms(), MinHtml)
  }

  /** `prettyMixed(s)`. */
  function PrettyMixedText(s: string): string {
    TransformSpec(s, PrettyTransforms(), HtmlLayout)
  }

  method MinMixed(s: string) returns (r: string)
    ensures r == MinMixedText(s)
  {
    r := TransformBlocks(s, MinTransforms(), MinHtml);
  }

  method PrettyMixed(s: string) returns (r: string)
    ensures r == PrettyMixedText(s)
  {
    r := TransformBlocks(s, PrettyTransforms(), HtmlLayout);
  }

  /** The `k`-th block of the document: it is well formed, and its kind is script or style. */
  lemma BlockAt(s: string, k: nat)
    requires k < |SplitFrom(s, 0)| && SplitFrom(s, 0)[k].Protected?
    ensures WellFormed(SplitFrom(s, 0)[k].block)
    ensures ToLower(SplitFrom(s, 0)[k].block.tag) == "script" || ToLower(SplitFrom(s, 0)[k].block.tag) == "style"
  {
    SplitBlocksWellFormed(s, 0, k);
    BlockNameLower(SplitFrom(s, 0)[k].block.tag);
  }

  /** In `minMixed` the code of a script block goes through `minJs` and that of a style block through `minCss`, framed by its tags. */
  lemma MinMixedBlock(s: string, k: nat)
    requires k < |SplitFrom(s, 0)| && SplitFrom(s, 0)[k].Protected?
    ensures var b := SplitFrom(s, 0)[k].block;
      Rewritten(SplitFrom(s, 0), MinTransforms())[k]
      == Frame(Opening(b), if ToLower(b.tag) == "script" then MinJs(b.inner) else MinCss(b.inner), "</" + ToLower(b.tag) + ">")
  {
    BlockAt(s, k);
    RewrittenAt(SplitFrom(s, 0), MinTransforms(), k);
  }

  /** In `prettyMixed` the code of a script block goes through `prettyJs` and that of a style block through `prettyCss`, framed by its tags. */
  lemma PrettyMixedBlock(s: string, k: nat)
    requires k < |SplitFrom(s, 0)| && SplitFrom(s, 0)[k].Protected?
    ensures var b := SplitFrom(s, 0)[k].block;
      Rewritten(SplitFrom(s, 0), PrettyTransforms())[k]
      == Frame(Opening(b), if ToLower(b.tag) == "script" then JsLayout(b.inner) else CssLayout(b.inner), "</" + ToLower(b.tag) + ">")
  {
    BlockAt(s, k);
    RewrittenAt(SplitFrom(s, 0), PrettyTransforms(), k);
  }

  /** Markup without blocks, before and after its comments are stripped, is minified and prettified as plain HTML. */
  lemma MixedWithoutBlocks(s: string)
    requires NextBlock(s, 0).None? && NextBlock(StripHtmlComments(s), 0).None?
    ensures MinMixedText(s) == MinHtml(StripHtmlComments(s))
    ensures PrettyMixedText(s) == HtmlLayout(StripHtmlComments(s))
  {
    TransformNoBlocks(s, MinTransforms(), MinHtml);
    TransformNoBlocks(s, PrettyTransforms(), HtmlLayout);
    ProtectNoBlocks(StripHtmlComments(s), KeepInner, MinHtml);
    ProtectNoBlocks(StripHtmlComments(s), KeepInner, HtmlLayout);
  }
}
