/**
 * The `<script>`/`<style>` machinery of the formatter
 * (apps/web/app/components/tools/minifier/formatter.worker.ts): the block
 * pattern `<(script|style)(\b[^>]*)>([\s\S]*?)<\/\1>` with flags `gi`, the
 * split of a document into plain stretches and blocks, the placeholder keys
 * `__SNAPPO_BLOCK_<n>__`, and the two loops built on them, `protectBlocks`
 * and `transformBlocks`.
 */
module Blocks {
  import opened Wrappers
  import opened Text
  import opened Passes
  import opened Replace

  // ------------------------------------------------------------ one block match

  /** A block as the pattern captures it: tag name as written, attributes, contents, and the closing name as written. */
  datatype Block = Block(tag: string, attrs: string, inner: string, closeTag: string)

  /** The text a block match covers (`m[0]`). */
  function Source(b: Block): string {
    "<" + b.tag + b.attrs + ">" + b.inner + "</" + b.closeTag + ">"
  }

  /** `script` or `style`, in any mix of case. */
  predicate IsBlockName(t: string) {
    EqualsIgnoreCase(t, "script") || EqualsIgnoreCase(t, "style")
  }

  /** What the pattern guarantees of every block it matches. */
  predicate WellFormed(b: Block) {
    IsBlockName(b.tag) &&
    (forall i | 0 <= i < |b.attrs| :: b.attrs[i] != '>') &&
    (b.attrs != [] ==> !IsWordChar(b.attrs[0])) &&
    EqualsIgnoreCase(b.closeTag, b.tag)
  }

  /** The lower-case `name` at index `i` of `s`, up to ASCII case. */
  predicate NameAt(s: string, i: nat, name: string) {
    i + |name| <= |s| && EqualsIgnoreCase(s[i..i + |name|], name)
  }

  /** The length of the alternation `(script|style)` matched at index `i` under the `i` flag; 0 when neither matches. */
  function TagLength(s: string, i: nat): (n: nat)
    ensures n == 0 || (i + n <= |s| && IsBlockName(s[i..i + n]))
  {
    if NameAt(s, i, "script") then 6 else if NameAt(s, i, "style") then 5 else 0
  }

  /**
   * `<\/\1>` at index `j` under the `i` flag, where the opening name is the
   * `n` characters at index `t`: the backreference compares up to case.
   */
  predicate ClosesAt(s: string, j: nat, t: nat, n: nat) {
    j + n + 3 <= |s| && t + n <= |s| && s[j] == '<' && s[j + 1] == '/' && s[j + 2 + n] == '>' &&
    EqualsIgnoreCase(s[j + 2..j + 2 + n], s[t..t + n])
  }

  /** The first closing tag at or after `from`: where the lazy `[\s\S]*?` stops. */
  function FindClose(s: string, t: nat, n: nat, from: nat): (r: Option<nat>)
    ensures r.Some? ==> from <= r.value && ClosesAt(s, r.value, t, n)
    ensures r.Some? ==> forall k | from <= k < r.value :: !ClosesAt(s, k, t, n)
    ensures r.None? ==> forall k | from <= k :: !ClosesAt(s, k, t, n)
    decreases |s| - from
  {
    if from + n + 3 > |s| then None
    else if ClosesAt(s, from, t, n) then Some(from)
    else FindClose(s, t, n, from + 1)
  }

  /** A block match found in a document: the index it starts at (`m.index`), the index after it, and its captures. */
  datatype Hit = Hit(at: nat, end: nat, block: Block)

  /**
   * The block pattern tried at index `p` of `s`. The attributes run to the
   * first `>` and must begin at a word boundary; the contents are lazy and end
   * at the first closing tag whose name equals the opening name up to case.
   */
  function MatchAt(s: string, p: nat): (r: Option<Hit>)
    ensures r.Some? ==> r.value.at == p && p < r.value.end <= |s|
    ensures r.Some? ==> WellFormed(r.value.block) && r.value.end == p + |Source(r.value.block)|
    ensures r.Some? ==> s[p..r.value.end] == Source(r.value.block)
  {
    if p >= |s| || s[p] != '<' then None
    else
      var n := TagLength(s, p + 1);
      var q := p + 1 + n;
      if n == 0 || q >= |s| || IsWordChar(s[q]) then None
      else
        match IndexOfChar(s, '>', q)
        case None => None
        case Some(a) =>
          match FindClose(s, p + 1, n, a + 1)
          case None => None
          case Some(j) =>
            var b := Block(s[p + 1..q], s[q..a], s[a + 1..j], s[j + 2..j + 2 + n]);
            MatchPieces(s, p, n, a, j, b);
            Some(Hit(p, j + n + 3, b))
  }

  /** The pieces found at indices `p`, `a` and `j` form a well-formed block whose text is `s[p..j + n + 3]`. */
  lemma MatchPieces(s: string, p: nat, n: nat, a: nat, j: nat, b: Block)
    requires p < |s| && s[p] == '<' && 0 < n && TagLength(s, p + 1) == n
    requires p + 1 + n < |s| && !IsWordChar(s[p + 1 + n])
    requires p + 1 + n <= a < |s| && s[a] == '>' && forall k | p + 1 + n <= k < a :: s[k] != '>'
    requires a + 1 <= j && ClosesAt(s, j, p + 1, n)
    requires b == Block(s[p + 1..p + 1 + n], s[p + 1 + n..a], s[a + 1..j], s[j + 2..j + 2 + n])
    ensures WellFormed(b) && p + |Source(b)| <= |s| && s[p..p + |Source(b)|] == Source(b)
  {
    var q := p + 1 + n;
    assert b.attrs != [] ==> b.attrs[0] == s[q];
    Layout(s, p, q, a, j, n);
  }

  /** The text of a match, read off at the indices where its pieces start. */
  lemma Layout(s: string, p: nat, q: nat, a: nat, j: nat, n: nat)
    requires p < q <= a < j + 1 && j + n + 3 <= |s|
    requires s[p] == '<' && s[a] == '>' && s[j] == '<' && s[j + 1] == '/' && s[j + 2 + n] == '>'
    ensures s[p..j + n + 3] == "<" + s[p + 1..q] + s[q..a] + ">" + s[a + 1..j] + "</" + s[j + 2..j + 2 + n] + ">"
  {
    var e := j + n + 3;
    var x1 := "<" + s[p + 1..q];
    assert s[p..q] == x1 by { Cut(s, p, p + 1, q); assert s[p..p + 1] == "<"; }
    var x2 := x1 + s[q..a];
    assert s[p..a] == x2 by { Cut(s, p, q, a); }
    var x3 := x2 + ">";
    assert s[p..a + 1] == x3 by { Cut(s, p, a, a + 1); assert s[a..a + 1] == ">"; }
    var x4 := x3 + s[a + 1..j];
    assert s[p..j] == x4 by { Cut(s, p, a + 1, j); }
    var x5 := x4 + "</";
    assert s[p..j + 2] == x5 by { Cut(s, p, j, j + 2); assert s[j..j + 2] == "</"; }
    var x6 := x5 + s[j + 2..j + 2 + n];
    assert s[p..j + 2 + n] == x6 by { Cut(s, p, j + 2, j + 2 + n); }
    assert s[p..e] == x6 + ">" by { Cut(s, p, j + 2 + n, e); assert s[j + 2 + n..e] == ">"; }
  }

  /** A slice is the slice up to a cut followed by the slice after it. */
  lemma Cut(s: string, x: nat, y: nat, z: nat)
    requires x <= y <= z <= |s|
    ensures s[x..z] == s[x..y] + s[y..z]
  {
    var l, r := s[x..y], s[y..z];
    forall k | 0 <= k < z - x ensures s[x..z][k] == (l + r)[k] {
      if k < y - x {
        assert (l + r)[k] == l[k] == s[x + k];
      } else {
        assert (l + r)[k] == r[k - (y - x)] == s[x + k];
      }
    }
  }

  /** The leftmost block match at or after `from`, as the `g` flag's `exec` loop finds it. */
  function NextBlock(s: string, from: nat): (r: Option<Hit>)
    requires from <= |s|
    ensures r.Some? ==> from <= r.value.at && MatchAt(s, r.value.at) == r
    ensures r.Some? ==> forall p | from <= p < r.value.at :: MatchAt(s, p).None?
    ensures r.None? ==> forall p | from <= p :: MatchAt(s, p).None?
    decreases |s| - from
  {
    var m := MatchAt(s, from);
    if m.Some? then m
    else if from == |s| then None
    else NextBlock(s, from + 1)
  }

  // ------------------------------------------------------------------ segments

  /** A stretch of a document: plain text, or a matched block. */
  datatype Segment = Plain(text: string) | Protected(block: Block)

  /** The segments of `s[last..]`: plain text and blocks alternating, starting and ending with plain text. */
  function SplitFrom(s: string, last: nat): (segs: seq<Segment>)
    requires last <= |s|
    ensures Alternates(segs)
    decreases |s| - last
  {
    match NextBlock(s, last)
    case None => [Plain(s[last..])]
    case Some(h) => [Plain(s[last..h.at]), Protected(h.block)] + SplitFrom(s, h.end)
  }

  /** Plain, block, plain, …, block, plain. */
  predicate Alternates(segs: seq<Segment>) {
    if |segs| == 1 then segs[0].Plain?
    else |segs| >= 3 && segs[0].Plain? && segs[1].Protected? && Alternates(segs[2..])
  }

  /** The text a list of segments stands for. */
  function Render(segs: seq<Segment>): string {
    if segs == [] then ""
    else (match segs[0] case Plain(t) => t case Protected(b) => Source(b)) + Render(segs[1..])
  }

  /** Rendering a plain stretch and a block in front of more segments. */
  lemma RenderPair(t: string, b: Block, rest: seq<Segment>)
    ensures Render([Plain(t), Protected(b)] + rest) == t + Source(b) + Render(rest)
  {
  }

  /** One step of the split: the plain text up to the next block, the block, and the split of what follows it. */
  lemma SplitSome(s: string, last: nat, h: Hit)
    requires last <= |s| && NextBlock(s, last) == Some(h)
    ensures last <= h.at < h.end <= |s|
    ensures SplitFrom(s, last) == [Plain(s[last..h.at]), Protected(h.block)] + SplitFrom(s, h.end)
  {
  }

  lemma SplitNone(s: string, last: nat)
    requires last <= |s| && NextBlock(s, last).None?
    ensures SplitFrom(s, last) == [Plain(s[last..])]
  {
  }

  /** Splitting loses nothing: the segments render back to the text they were cut from. */
  lemma {:induction false} SplitRoundTrip(s: string, last: nat)
    requires last <= |s|
    ensures Render(SplitFrom(s, last)) == s[last..]
    decreases |s| - last
  {
    match NextBlock(s, last)
    case None =>
    case Some(h) =>
      SplitSome(s, last, h);
      SplitRoundTrip(s, h.end);
      RenderPair(s[last..h.at], h.block, SplitFrom(s, h.end));
      SliceThreeWay(s, last, h.at, h.end);
  }

  lemma SliceThreeWay(s: string, i: nat, j: nat, k: nat)
    requires i <= j <= k <= |s|
    ensures s[i..] == s[i..j] + s[j..k] + s[k..]
  {
    SliceSplit(s, i, j, |s|);
    SliceSplit(s, j, k, |s|);
    assert s[i..] == s[i..j] + (s[j..k] + s[k..]);
  }

  /** Every block the split finds is one the pattern can match. */
  lemma SplitBlocksWellFormed(s: string, last: nat, k: nat)
    requires last <= |s| && k < |SplitFrom(s, last)|
    requires SplitFrom(s, last)[k].Protected?
    ensures WellFormed(SplitFrom(s, last)[k].block)
  {
    SplitWellFormed(s, last);
  }

  /** Every block among `segs` is well formed. */
  predicate AllWellFormed(segs: seq<Segment>) {
    forall k | 0 <= k < |segs| && segs[k].Protected? :: WellFormed(segs[k].block)
  }

  lemma {:induction false} SplitWellFormed(s: string, last: nat)
    requires last <= |s|
    ensures AllWellFormed(SplitFrom(s, last))
    decreases |s| - last
  {
    match NextBlock(s, last)
    case None =>
      SplitNone(s, last);
    case Some(h) =>
      SplitSome(s, last, h);
      SplitWellFormed(s, h.end);
      HitWellFormed(s, last, h);
      PairWellFormed(s[last..h.at], h.block, SplitFrom(s, h.end));
  }

  lemma PairWellFormed(t: string, b: Block, rest: seq<Segment>)
    requires WellFormed(b) && AllWellFormed(rest)
    ensures AllWellFormed([Plain(t), Protected(b)] + rest)
  {
  }

  lemma HitWellFormed(s: string, last: nat, h: Hit)
    requires last <= |s| && NextBlock(s, last) == Some(h)
    ensures WellFormed(h.block)
  {
  }

  // ---------------------------------------------------------------------- keys

  const KeyPrefix: string := "__SNAPPO_BLOCK_"

  /** The placeholder for the block numbered `i`: `__SNAPPO_BLOCK_${i}__`. */
  function Key(i: nat): string {
    KeyPrefix + Decimal(i) + "__"
  }

  /** Different blocks get different placeholders. */
  lemma KeyInjective(i: nat, j: nat)
    requires Key(i) == Key(j)
    ensures i == j
  {
    var ki, kj := Key(i), Key(j);
    assert ki[15..|ki| - 2] == Decimal(i);
    assert kj[15..|kj| - 2] == Decimal(j);
    DecimalInjective(i, j);
  }

  /** Text that cannot be mistaken for a placeholder or part of one. */
  predicate MarkerFree(t: string) {
    !Contains(t, KeyPrefix)
  }

  /** The number of decimal digits in `s` from index `i` on (the `\d+` of the key pattern). */
  function DigitsFrom(s: string, i: nat): (n: nat)
    requires i <= |s|
    ensures i + n <= |s|
    ensures forall k | i <= k < i + n :: IsDigit(s[k])
    ensures i + n < |s| ==> !IsDigit(s[i + n])
    decreases |s| - i
  {
    if i == |s| || !IsDigit(s[i]) then 0 else 1 + DigitsFrom(s, i + 1)
  }

  /** A run of exactly `n` digits, ending at a non-digit or at the end, is what `DigitsFrom` measures. */
  lemma {:induction false} DigitsLength(s: string, i: nat, n: nat)
    requires i + n <= |s|
    requires forall k | i <= k < i + n :: IsDigit(s[k])
    requires i + n < |s| ==> !IsDigit(s[i + n])
    ensures DigitsFrom(s, i) == n
    decreases n
  {
    if n > 0 {
      DigitsLength(s, i + 1, n - 1);
    }
  }

  /** The text `/__SNAPPO_BLOCK_\d+__/` matches at index `i` of `s`, if it matches there. */
  function KeyMatch(s: string, i: nat): (r: Option<string>)
    ensures r.Some? ==> 17 < |r.value| && i + |r.value| <= |s|
  {
    if !MatchesAt(s, i, KeyPrefix) then None
    else
      var d := DigitsFrom(s, i + 15);
      if d > 0 && MatchesAt(s, i + 15 + d, "__") then Some(s[i..i + 17 + d]) else None
  }

  lemma KeyMatchSound()
    ensures Sound(KeyMatch)
  {
  }

  /** `map.get(k) || k`: the stored text when it is there and not empty, the key itself otherwise. */
  function Lookup(table: map<string, string>, k: string): string {
    if k in table && table[k] != "" then table[k] else k
  }

  /** The replacer callback of the restore pass. */
  function LookupIn(table: map<string, string>): string -> string {
    k => Lookup(table, k)
  }

  /** `processed.replace(/__SNAPPO_BLOCK_\d+__/g, k => map.get(k) || k)`. */
  function Restore(s: string, table: map<string, string>): string {
    KeyMatchSound();
    ReplaceAll(s, 0, KeyMatch, LookupIn(table))
  }

  /** With nothing stored, the restore pass gives every key back as it was: the text is unchanged. */
  lemma RestoreEmpty(s: string)
    ensures Restore(s, map[]) == s
  {
    KeyMatchSound();
    forall j | 0 <= j < |s| && KeyMatch(s, j).Some?
      ensures KeyMatch(s, j).value == s[j..j + |KeyMatch(s, j).value|]
      ensures LookupIn(map[])(KeyMatch(s, j).value) == KeyMatch(s, j).value
    {
    }
    Unchanged(s, 0, KeyMatch, LookupIn(map[]));
    assert s[0..] == s;
  }

  /** A placeholder written into a text is matched there in full. */
  lemma KeyAt(s: string, p: nat, i: nat)
    requires MatchesAt(s, p, Key(i))
    ensures KeyMatch(s, p) == Some(Key(i))
  {
    var k, d := Key(i), Decimal(i);
    var n := |d|;
    assert k == KeyPrefix + d + "__";
    MatchedPart(s, p, k, 0, 15);
    assert k[0..15] == KeyPrefix;
    MatchedPart(s, p, k, 15, 15 + n);
    assert k[15..15 + n] == d;
    MatchedPart(s, p, k, 15 + n, 17 + n);
    assert k[15 + n..17 + n] == "__";
    DigitsOf(s, p + 15, d);
    assert s[p..p + |k|] == k;
  }

  /** A piece of a text matched at `p` is the same piece of the text matched. */
  lemma MatchedPart(s: string, p: nat, k: string, lo: nat, hi: nat)
    requires MatchesAt(s, p, k) && lo <= hi <= |k|
    ensures s[p + lo..p + hi] == k[lo..hi]
  {
    forall j | 0 <= j < hi - lo ensures s[p + lo..p + hi][j] == k[lo..hi][j] {
      assert s[p + lo + j] == s[p..p + |k|][lo + j];
    }
  }

  /** A decimal numeral written at `i`, followed by `_`, is the run of digits there. */
  lemma DigitsOf(s: string, i: nat, d: string)
    requires i + |d| < |s| && s[i..i + |d|] == d && s[i + |d|] == '_'
    requires forall m | 0 <= m < |d| :: IsDigit(d[m])
    ensures DigitsFrom(s, i) == |d|
  {
    forall m | i <= m < i + |d| ensures IsDigit(s[m]) {
      assert s[m] == s[i..i + |d|][m - i];
    }
    DigitsLength(s, i, |d|);
  }

  /** No placeholder match starts inside marker-free text `t`, even one running on into a placeholder after it. */
  lemma NoKeyInside(t: string, i: nat, rest: string, p: nat)
    requires MarkerFree(t) && p < |t|
    ensures KeyMatch(t + Key(i) + rest, p).None?
  {
    var k := Key(i);
    assert k[0] == KeyPrefix[0] && k[1] == KeyPrefix[1];
    assert t + k + rest == t + (k + rest);
    NoKeyBeforeUnderscores(t, k + rest, p);
  }

  /** Marker-free text followed by two underscores: no placeholder match starts inside the text. */
  lemma NoKeyBeforeUnderscores(t: string, u: string, p: nat)
    requires MarkerFree(t) && p < |t| && |u| >= 2 && u[0] == '_' && u[1] == '_'
    ensures KeyMatch(t + u, p).None?
  {
    var s := t + u;
    if p + 15 <= |t| {
      assert s[p..p + 15] == t[p..p + 15];
      assert !MatchesAt(t, p, KeyPrefix);
      assert !MatchesAt(s, p, KeyPrefix);
    } else if p + 14 == |t| {
      assert s[p + 15] == u[1];
      assert !IsDigit(s[p + 15]);
    } else if p + 15 <= |s| {
      var m := |t| - p;
      assert s[p + m] == u[0] && s[p + m + 1] == u[1];
      assert KeyPrefix[m] != '_' || KeyPrefix[m + 1] != '_';
      assert s[p..p + 15][m] != KeyPrefix[m] || s[p..p + 15][m + 1] != KeyPrefix[m + 1];
    }
  }

  /** The key pattern reads only forward: text in front of index `|a|` does not change what it matches from there. */
  lemma KeyShift(a: string, b: string, j: nat)
    requires j <= |b|
    ensures KeyMatch(a + b, |a| + j) == KeyMatch(b, j)
  {
    assert (a + b)[|a| + j..] == b[j..];
    KeyAgree(a + b, |a| + j, b, j);
  }

  /** What the key pattern matches at an index depends only on the text from there on. */
  lemma KeyAgree(s: string, i: nat, t: string, j: nat)
    requires i <= |s| && j <= |t| && s[i..] == t[j..]
    ensures KeyMatch(s, i) == KeyMatch(t, j)
  {
    if i + 15 <= |s| {
      SuffixSlice(s, i, t, j, 0, 15);
    }
    if MatchesAt(t, j, KeyPrefix) {
      var d := DigitsFrom(t, j + 15);
      SuffixDigits(s, i, t, j, d);
      if j + 17 + d <= |t| {
        SuffixSlice(s, i, t, j, 15 + d, 17 + d);
        SuffixSlice(s, i, t, j, 0, 17 + d);
      }
      KeyMatchIs(s, i, d);
      KeyMatchIs(t, j, d);
    } else {
      assert !MatchesAt(s, i, KeyPrefix);
    }
  }

  lemma SuffixSlice(s: string, i: nat, t: string, j: nat, lo: nat, hi: nat)
    requires i <= |s| && j <= |t| && s[i..] == t[j..] && lo <= hi <= |s| - i
    ensures s[i + lo..i + hi] == t[j + lo..j + hi]
  {
    var x, y := s[i + lo..i + hi], t[j + lo..j + hi];
    forall k | 0 <= k < |x| ensures x[k] == y[k] {
      assert x[k] == s[i + lo + k] == s[i..][lo + k];
      assert y[k] == t[j + lo + k] == t[j..][lo + k];
    }
  }

  lemma SuffixDigits(s: string, i: nat, t: string, j: nat, d: nat)
    requires i <= |s| && j <= |t| && s[i..] == t[j..] && MatchesAt(t, j, KeyPrefix) && d == DigitsFrom(t, j + 15)
    ensures DigitsFrom(s, i + 15) == d
  {
    forall k | i + 15 <= k < i + 15 + d ensures IsDigit(s[k]) {
      assert s[k] == s[i..][k - i] == t[j + (k - i)];
    }
    if i + 15 + d < |s| {
      assert s[i + 15 + d] == s[i..][15 + d] == t[j + 15 + d];
    }
    DigitsLength(s, i + 15, d);
  }

  /** `KeyMatch` once the prefix has matched and the run of digits after it is known. */
  lemma KeyMatchIs(s: string, i: nat, d: nat)
    requires MatchesAt(s, i, KeyPrefix) && DigitsFrom(s, i + 15) == d
    ensures KeyMatch(s, i) == if d > 0 && MatchesAt(s, i + 15 + d, "__") then Some(s[i..i + 17 + d]) else None
  {
  }

  /** Text without placeholders comes back from the restore pass unchanged. */
  lemma RestorePlain(t: string, table: map<string, string>)
    requires MarkerFree(t)
    ensures Restore(t, table) == t
  {
    forall p | 0 <= p < |t| ensures KeyMatch(t, p).None? {
      assert !MatchesAt(t, p, KeyPrefix);
    }
    KeyMatchSound();
    NoMatch(t, KeyMatch, LookupIn(table));
  }

  /** Marker-free text followed by a placeholder: the text stays, the placeholder is looked up, the rest is restored. */
  lemma RestoreStep(t: string, i: nat, rest: string, table: map<string, string>)
    requires MarkerFree(t)
    ensures Restore(t + Key(i) + rest, table) == t + Lookup(table, Key(i)) + Restore(rest, table)
  {
    KeyMatchSound();
    var k, f := Key(i), LookupIn(table);
    NoKeyBeforeM(t, i, rest, KeyMatch);
    KeyAtM(t, i, rest, KeyMatch);
    KeyShiftAllM(t, k, rest, KeyMatch);
    Step(t, k, rest, KeyMatch, f);
    assert f(k) == Lookup(table, k);
  }

  lemma NoKeyBeforeM(t: string, i: nat, rest: string, m: Matcher)
    requires MarkerFree(t) && m == KeyMatch
    ensures forall p | 0 <= p < |t| :: m(t + Key(i) + rest, p).None?
  {
    NoKeyBefore(t, i, rest);
  }

  lemma NoKeyBefore(t: string, i: nat, rest: string)
    requires MarkerFree(t)
    ensures forall p | 0 <= p < |t| :: KeyMatch(t + Key(i) + rest, p).None?
  {
    forall p | 0 <= p < |t| ensures KeyMatch(t + Key(i) + rest, p).None? {
      NoKeyInside(t, i, rest, p);
    }
  }

  lemma KeyAtM(t: string, i: nat, rest: string, m: Matcher)
    requires m == KeyMatch
    ensures m(t + Key(i) + rest, |t|) == Some(Key(i))
  {
    KeyAt(t + Key(i) + rest, |t|, i);
  }

  lemma KeyShiftAllM(t: string, k: string, rest: string, m: Matcher)
    requires m == KeyMatch
    ensures ReadsForward(m, t + k, rest)
  {
    KeyShiftAll(t + k, rest);
  }

  lemma KeyShiftAll(a: string, rest: string)
    ensures forall j | 0 <= j <= |rest| :: KeyMatch(a + rest, |a| + j) == KeyMatch(rest, j)
  {
    forall j | 0 <= j <= |rest| ensures KeyMatch(a + rest, |a| + j) == KeyMatch(rest, j) {
      KeyShift(a, rest, j);
    }
  }
}
