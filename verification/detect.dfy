/**
 * `detectLanguage` of the formatter
 * (apps/web/app/components/tools/minifier/formatter.worker.ts): an ordered
 * cascade of tests on the trimmed input. The regular-expression tests are
 * written out character by character; `JSON.parse` is a parameter.
 */
module Detect {
  import opened Text

  /** The languages a request may name; `Auto` asks for detection. */
  datatype Lang = Auto | Generic | Json | JavaScript | Css | Html | Mixed

  /** What `JSON.parse` makes of a text: a value, known here by its two serialisations, or the message of the syntax error it throws. */
  datatype ParseResult = Parsed(compact: string, indented: string) | SyntaxError(message: string)

  /** `JSON.parse`, together with `JSON.stringify` of its value without and with an indent of two. */
  type JsonParser = string -> ParseResult

  // ---------------------------------------------------------------- the tests

  /** `[\w:-]`. */
  predicate IsTagNameChar(c: char) { IsWordChar(c) || c == ':' || c == '-' }

  /**
   * `/<([a-z][\w:-]*)(\s[^>]*)?>/i` matches at index `i`: a `<`, a letter, the rest of the name,
   * then either `>` at once or whitespace followed somewhere by a `>`.
   */
  predicate HtmlTagAt(t: string, i: nat) {
    i + 2 <= |t| && t[i] == '<' && IsAsciiLetter(t[i + 1]) &&
    var j := i + 2 + LeadRun(t[i + 2..], IsTagNameChar);
    j < |t| && (t[j] == '>' || (IsSpace(t[j]) && IndexOfChar(t, '>', j + 1).Some?))
  }

  predicate HasHtmlTag(t: string) {
    exists i | 0 <= i < |t| :: HtmlTagAt(t, i)
  }

  /** `/<name\b/i` matches at index `i`. */
  predicate OpenTagAt(t: string, i: nat, name: string) {
    var e := i + 1 + |name|;
    e <= |t| && t[i] == '<' && EqualsIgnoreCase(t[i + 1..e], name) && (e == |t| || !IsWordChar(t[e]))
  }

  /** `/<\/name>/i` matches at index `i`. */
  predicate CloseTagAt(t: string, i: nat, name: string) {
    var e := i + 2 + |name|;
    e < |t| && t[i] == '<' && t[i + 1] == '/' && EqualsIgnoreCase(t[i + 2..e], name) && t[e] == '>'
  }

  /** `/<name\b/i.test(t) || /<\/name>/i.test(t)`. */
  predicate Mentions(t: string, name: string) {
    exists i | 0 <= i < |t| :: OpenTagAt(t, i, name) || CloseTagAt(t, i, name)
  }

  /** The index of the first `c` at or after `from`, or the length when there is none. */
  function FirstOr(t: string, c: char, from: nat): (k: nat)
    ensures from <= k || k == |t|
    ensures k <= |t|
  {
    match IndexOfChar(t, c, from)
    case Some(k) => k
    case None => |t|
  }

  /** `/\{[^}]*:[^}]*;/` matches at index `i`: after the `{` and before the next `}` stand a `:` and, after it, a `;`. */
  predicate RuleAt(t: string, i: nat) {
    i < |t| && t[i] == '{' &&
    exists j | i < j < FirstOr(t, '}', i + 1) :: t[j] == ':' && FirstOr(t, ';', j + 1) < FirstOr(t, '}', i + 1)
  }

  /** `/\{[^}]*:[^}]*;/.test(t) && !/function|=>/.test(t)`. */
  predicate LooksLikeCss(t: string) {
    (exists i | 0 <= i < |t| :: RuleAt(t, i)) && !Contains(t, "function") && !Contains(t, "=>")
  }

  // --------------------------------------------------------------- the cascade

  /** `detectLanguage(s)`; it never answers `Auto`. */
  function DetectLanguage(s: string, parse: JsonParser): (r: Lang)
    ensures r != Auto
  {
    var t := Trim(s);
    if t == "" then Generic
    else if HasHtmlTag(t) && (Mentions(t, "script") || Mentions(t, "style")) then Mixed
    else if HasHtmlTag(t) then Html
    else if (StartsWith(t, "{") || StartsWith(t, "[")) && parse(t).Parsed? then Json
    else if LooksLikeCss(t) then Css
    else JavaScript
  }

  /** Blank input, and only blank input, is generic text. */
  lemma BlankIsGeneric(s: string, parse: JsonParser)
    ensures DetectLanguage(s, parse) == Generic <==> forall i | 0 <= i < |s| :: IsSpace(s[i])
  {
  }

  /** Detection looks at the trimmed text only. */
  lemma DetectTrimmed(s: string, parse: JsonParser)
    ensures DetectLanguage(Trim(s), parse) == DetectLanguage(s, parse)
  {
    TrimTrimmed(Trim(s));
  }

  /** `JSON.parse` is consulted only for text that starts with `{` or `[`: elsewhere any parser gives the same answer, and `Json` is answered only for text it parses. */
  lemma JsonOnlyForBrackets(s: string, p: JsonParser, q: JsonParser)
    ensures !StartsWith(Trim(s), "{") && !StartsWith(Trim(s), "[") ==> DetectLanguage(s, p) == DetectLanguage(s, q)
    ensures DetectLanguage(s, p) == Json ==> (StartsWith(Trim(s), "{") || StartsWith(Trim(s), "[")) && p(Trim(s)).Parsed?
  {
  }

  /** Without a `<` there is no markup to find. */
  lemma NoAngleNoMarkup(s: string, parse: JsonParser)
    requires '<' !in s
    ensures DetectLanguage(s, parse) != Html && DetectLanguage(s, parse) != Mixed
  {
  }

  /** Text that says `function` is never taken for CSS. */
  lemma FunctionIsNotCss(s: string, parse: JsonParser)
    requires Contains(Trim(s), "function")
    ensures DetectLanguage(s, parse) != Css
  {
  }

  /** `<name>` for a name made of letters is an HTML tag and opens an element of that name. */
  lemma NamedTag(t: string, i: nat, name: string)
    requires |name| > 0 && forall k | 0 <= k < |name| :: IsAsciiLetter(name[k])
    requires MatchesAt(t, i, "<" + name + ">")
    ensures HtmlTagAt(t, i) && OpenTagAt(t, i, name)
  {
    var w := "<" + name + ">";
    var e := i + 1 + |name|;
    assert t[i..i + |w|] == w;
    forall k | 0 <= k < |name| ensures t[i + 1 + k] == name[k] {
      assert t[i + 1 + k] == t[i..i + |w|][1 + k];
    }
    assert t[i + 1..e] == name;
    assert t[i] == t[i..i + |w|][0] && t[e] == t[i..i + |w|][|w| - 1];
    var rest := t[i + 2..];
    forall k | 0 <= k < |name| - 1 ensures IsTagNameChar(rest[k]) {
      assert rest[k] == name[k + 1];
    }
    LeadRunUnique(rest, IsTagNameChar, |name| - 1);
  }

  /** A tag `<script>` or `<style>` is both an HTML tag and a block, so the cascade answers `Mixed` before it reaches `Html`. */
  lemma BlockTagIsMixed(s: string, parse: JsonParser, i: nat, name: string)
    requires name == "script" || name == "style"
    requires MatchesAt(Trim(s), i, "<" + name + ">")
    ensures DetectLanguage(s, parse) == Mixed
  {
    assert forall k | 0 <= k < |name| :: IsAsciiLetter(name[k]);
    NamedTag(Trim(s), i, name);
  }
}
