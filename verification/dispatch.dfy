/**
 * The request handler of the formatter worker
 * (apps/web/app/components/tools/minifier/formatter.worker.ts, `onmessage`):
 * `auto` is resolved by detection, `normalize` and `generic` go to the
 * normaliser, every other language to its minifier or prettifier. The reply
 * is the output, or the message of the exception a step threw; only
 * `JSON.parse` throws in the model. Posting the reply is left to the caller.
 */
module Dispatch {
  import opened Text
  import opened Protect
  import opened Minify
  import opened Pretty
  import opened MixedMarkup
  import opened Detect

  datatype Action = Minify | Prettify | Normalize

  /** `{ ok: true, data }` or `{ ok: false, error }`. */
  datatype Reply = Ok(data: string) | Failed(error: string)

  /** `lang === 'auto' ? detectLanguage(src) : lang`. */
  function Resolve(src: string, lang: Lang, parse: JsonParser): (picked: Lang)
    ensures picked != Auto
    ensures lang != Auto ==> picked == lang
  {
    if lang == Auto then DetectLanguage(src, parse) else lang
  }

  /** `minJson` and `prettyJson`: the value re-serialised, compact or indented by two with a line feed after. */
  function JsonReply(src: string, action: Action, parse: JsonParser): Reply {
    match parse(src)
    case SyntaxError(m) => Failed(m)
    case Parsed(compact, indented) => Ok(if action == Minify then compact else indented + "\n")
  }

  /** The reply to `{ src, lang, action }`: only the JSON branch can fail. */
  function Format(src: string, lang: Lang, action: Action, parse: JsonParser): Reply {
    var picked := Resolve(src, lang, parse);
    if picked == Json && action != Normalize then JsonReply(src, action, parse)
    else Ok(Output(src, picked, action))
  }

  /** The output of every branch but JSON's. */
  function Output(src: string, picked: Lang, action: Action): string {
    if picked == Generic || action == Normalize then NormalizeGeneric(src)
    else if picked == JavaScript then (if action == Minify then MinJs(src) else JsLayout(src))
    else if picked == Css then (if action == Minify then MinCss(src) else CssLayout(src))
    else if picked == Html then (if action == Minify then MinHtml(src) else HtmlLayout(src))
    else if action == Minify then MinMixedText(src) else PrettyMixedText(src)
  }

  /** `onmessage` without the message channel: the prettifiers and the mixed transforms run as their loops. */
  method HandleMessage(src: string, lang: Lang, action: Action, parse: JsonParser) returns (reply: Reply)
    ensures reply == Format(src, lang, action, parse)
  {
    var picked := if lang == Auto then DetectLanguage(src, parse) else lang;
    var out: string;
    if picked == Generic || action == Normalize {
      out := NormalizeGeneric(src);
    } else if picked == Json {
      match parse(src) {
        case SyntaxError(m) =>
          return Failed(m);
        case Parsed(compact, indented) =>
          out := if action == Minify then compact else indented + "\n";
      }
    } else if picked == JavaScript {
      if action == Minify {
        out := MinJs(src);
      } else {
        out := PrettyJs(src);
      }
    } else if picked == Css {
      if action == Minify {
        out := MinCss(src);
      } else {
        out := PrettyCss(src);
      }
    } else if picked == Html {
      if action == Minify {
        out := MinHtml(src);
      } else {
        out := PrettyHtml(src);
      }
    } else {
      if action == Minify {
        out := MinMixed(src);
      } else {
        out := PrettyMixed(src);
      }
    }
    reply := Ok(out);
  }

  /** `normalize` overrides the language, whichever was asked for or detected. */
  lemma NormalizeOverrides(src: string, lang: Lang, parse: JsonParser)
    ensures Format(src, lang, Normalize, parse) == Ok(NormalizeGeneric(src))
  {
  }

  /** `html` minification replies with `minHtml` as written: no two whitespace characters stay side by side, inside `<script>` and `<style>` included. */
  lemma HtmlMinifySquashes(src: string, parse: JsonParser)
    ensures Format(src, Html, Minify, parse).Ok?
    ensures RunsAtMost(Format(src, Html, Minify, parse).data, IsSpace, 1)
  {
    HtmlMinifyReply(src, parse);
    MinHtmlSquashesAll(src);
  }

  /** The reply to minifying `<style>a  b</style>` as `html` is not the document itself: the style rule loses a space. */
  lemma HtmlMinifyAltersStyle(ex: string, parse: JsonParser)
    requires ex == "<style>a  b</style>"
    ensures Format(ex, Html, Minify, parse) != Ok(ex)
  {
    HtmlMinifyReply(ex, parse);
    MinHtmlAltersStyle(ex);
  }

  /** `html` minification replies with `minHtml`. */
  lemma HtmlMinifyReply(src: string, parse: JsonParser)
    ensures Format(src, Html, Minify, parse) == Ok(MinHtml(src))
  {
  }

  /** Generic text is normalised whatever the action. */
  lemma GenericNormalizes(src: string, action: Action, parse: JsonParser)
    ensures Format(src, Generic, action, parse) == Ok(NormalizeGeneric(src))
  {
  }

  /** `auto` is replaced by the detected language before dispatch. */
  lemma AutoIsDetected(src: string, action: Action, parse: JsonParser)
    ensures Format(src, Auto, action, parse) == Format(src, DetectLanguage(src, parse), action, parse)
  {
  }

  /** Blank input under `auto` is normalised. */
  lemma BlankAutoNormalizes(src: string, action: Action, parse: JsonParser)
    requires forall i | 0 <= i < |src| :: IsSpace(src[i])
    ensures Format(src, Auto, action, parse) == Ok(NormalizeGeneric(src))
  {
  }

  /** A request fails exactly when JSON is picked, the action is not `normalize`, and `JSON.parse` throws; the reply then carries its message. */
  lemma FailsOnlyOnJson(src: string, lang: Lang, action: Action, parse: JsonParser)
    ensures Format(src, lang, action, parse).Failed?
        <==> Resolve(src, lang, parse) == Json && action != Normalize && parse(src).SyntaxError?
    ensures Format(src, lang, action, parse).Failed? ==> Format(src, lang, action, parse).error == parse(src).message
  {
  }
}
