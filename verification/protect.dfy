/**
 * `protectBlocks` and `transformBlocks` of the formatter
 * (apps/web/app/components/tools/minifier/formatter.worker.ts).
 *
 * `protectBlocks` replaces every `<script>`/`<style>` block by a placeholder
 * key, remembering for each key the text to put back, lets an optional
 * callback rewrite the masked document, and then puts the remembered texts
 * back wherever their keys still stand. `transformBlocks` rewrites the
 * contents of each block with the transform for its kind, stitches the
 * document together again, drops HTML comments and hands the result to
 * `protectBlocks` with the HTML transform as the callback.
 */
module Protect {
  import opened Wrappers
  import opened Text
  import opened Passes
  import opened Replace
  import opened Blocks

  // ------------------------------------------------------- masking and the table

  /** What the replace callback remembers for a block: the opening tag as written, the processed contents, and a closing tag spelled like the opening name. */
  function Stored(b: Block, onInner: (string, string) -> string): (r: string)
    ensures r != [] && r[0] == '<'
  {
    "<" + b.tag + b.attrs + ">" + onInner(b.inner, b.tag) + "</" + b.tag + ">"
  }

  /** The `onInner` callback that keeps the contents: `(inner) => inner`. */
  function KeepInner(inner: string, tag: string): string {
    inner
  }

  /** The blocks of a list of segments, in order. */
  function BlocksOf(segs: seq<Segment>): seq<Block> {
    if segs == [] then []
    else (if segs[0].Protected? then [segs[0].block] else []) + BlocksOf(segs[1..])
  }

  /** The document after the block replace: plain text kept, the blocks numbered from `idx` replaced by their keys. */
  function Masked(segs: seq<Segment>, idx: nat): string {
    if segs == [] then ""
    else
      match segs[0]
      case Plain(t) => t + Masked(segs[1..], idx)
      case Protected(_) => Key(idx) + Masked(segs[1..], idx + 1)
  }

  /** The map the replace callback fills: the key of each block, numbered from `idx`, to its stored text. */
  function Table(segs: seq<Segment>, idx: nat, onInner: (string, string) -> string): map<string, string> {
    if segs == [] then map[]
    else
      match segs[0]
      case Plain(_) => Table(segs[1..], idx, onInner)
      case Protected(b) => map[Key(idx) := Stored(b, onInner)] + Table(segs[1..], idx + 1, onInner)
  }

  /** The document with every block replaced by its stored text. */
  function Unmasked(segs: seq<Segment>, onInner: (string, string) -> string): string {
    if segs == [] then ""
    else
      (match segs[0] case Plain(t) => t case Protected(b) => Stored(b, onInner)) + Unmasked(segs[1..], onInner)
  }

  /** No plain stretch holds anything the restore pass could take for a key. */
  predicate PlainsMarkerFree(segs: seq<Segment>) {
    forall k | 0 <= k < |segs| && segs[k].Plain? :: MarkerFree(segs[k].text)
  }

  /** `protectBlocks(html, onInner, after)`. */
  function ProtectSpec(html: string, onInner: (string, string) -> string, after: Option<string -> string>): string {
    var segs := SplitFrom(html, 0);
    var replaced := Masked(segs, 0);
    var processed := if after.Some? then after.value(replaced) else replaced;
    Restore(processed, Table(segs, 0, onInner))
  }

  // ------------------------------------------------------------- unfolding steps

  lemma PairSlices(t: string, b: Block, rest: seq<Segment>)
    ensures ([Plain(t), Protected(b)] + rest)[0] == Plain(t)
    ensures ([Plain(t), Protected(b)] + rest)[1..] == [Protected(b)] + rest
    ensures ([Protected(b)] + rest)[0] == Protected(b)
    ensures ([Protected(b)] + rest)[1..] == rest
  {
  }

  lemma MaskedPair(t: string, b: Block, rest: seq<Segment>, idx: nat)
    ensures Masked([Plain(t), Protected(b)] + rest, idx) == t + (Key(idx) + Masked(rest, idx + 1))
  {
    PairSlices(t, b, rest);
  }

  lemma TablePair(t: string, b: Block, rest: seq<Segment>, idx: nat, onInner: (string, string) -> string)
    ensures Table([Plain(t), Protected(b)] + rest, idx, onInner) == map[Key(idx) := Stored(b, onInner)] + Table(rest, idx + 1, onInner)
  {
    PairSlices(t, b, rest);
  }

  lemma UnmaskedPair(t: string, b: Block, rest: seq<Segment>, onInner: (string, string) -> string)
    ensures Unmasked([Plain(t), Protected(b)] + rest, onInner) == t + Stored(b, onInner) + Unmasked(rest, onInner)
  {
    PairSlices(t, b, rest);
  }

  lemma BlocksPair(t: string, b: Block, rest: seq<Segment>)
    ensures BlocksOf([Plain(t), Protected(b)] + rest) == [b] + BlocksOf(rest)
  {
    PairSlices(t, b, rest);
  }

  lemma MapUnionStep(m: map<string, string>, k: string, v: string, rest: map<string, string>)
    ensures m[k := v] + rest == m + (map[k := v] + rest)
  {
  }

  // -------------------------------------------------------------------- the table

  /** The keys in the table of blocks numbered from `idx` are keys of numbers from `idx` on. */
  lemma {:induction false} TableKeysFrom(segs: seq<Segment>, idx: nat, onInner: (string, string) -> string, j: nat)
    requires j < idx
    ensures Key(j) !in Table(segs, idx, onInner)
    decreases |segs|
  {
    if segs != [] {
      match segs[0]
      case Plain(_) =>
        TableKeysFrom(segs[1..], idx, onInner, j);
      case Protected(b) =>
        TableKeysFrom(segs[1..], idx + 1, onInner, j);
        if Key(j) == Key(idx) {
          KeyInjective(j, idx);
        }
    }
  }

  /** The key of the `n`-th block is in the table, mapped to that block's stored text. */
  lemma {:induction false} TableLookup(segs: seq<Segment>, idx: nat, onInner: (string, string) -> string, n: nat)
    requires n < |BlocksOf(segs)|
    ensures Key(idx + n) in Table(segs, idx, onInner)
    ensures Table(segs, idx, onInner)[Key(idx + n)] == Stored(BlocksOf(segs)[n], onInner)
    decreases |segs|
  {
    match segs[0]
    case Plain(_) =>
      TableLookup(segs[1..], idx, onInner, n);
    case Protected(b) =>
      assert BlocksOf(segs) == [b] + BlocksOf(segs[1..]);
      if n == 0 {
        TableKeysFrom(segs[1..], idx + 1, onInner, idx);
      } else {
        TableLookup(segs[1..], idx + 1, onInner, n - 1);
      }
  }

  /** Every key of a document's blocks looks up that block's stored text. */
  lemma TableHolds(segs: seq<Segment>, idx: nat, onInner: (string, string) -> string)
    ensures KeysStore(Table(segs, idx, onInner), idx, BlocksOf(segs), onInner)
  {
    forall n | 0 <= n < |BlocksOf(segs)|
      ensures Lookup(Table(segs, idx, onInner), Key(idx + n)) == Stored(BlocksOf(segs)[n], onInner)
    {
      TableLookup(segs, idx, onInner, n);
    }
  }

  /** The keys numbered from `idx` look up the stored texts of `blocks`, in order. */
  predicate KeysStore(table: map<string, string>, idx: nat, blocks: seq<Block>, onInner: (string, string) -> string) {
    forall n | 0 <= n < |blocks| :: Lookup(table, Key(idx + n)) == Stored(blocks[n], onInner)
  }

  // ------------------------------------------------------------------- restoring

  /**
   * Restoring a masked document whose plain text holds no key prefix, with a
   * table that knows every block's key, gives the document with each block
   * replaced by its stored text.
   */
  lemma {:induction false} RestoreMasked(segs: seq<Segment>, idx: nat, table: map<string, string>, onInner: (string, string) -> string)
    requires Alternates(segs) && PlainsMarkerFree(segs)
    requires KeysStore(table, idx, BlocksOf(segs), onInner)
    ensures Restore(Masked(segs, idx), table) == Unmasked(segs, onInner)
    decreases |segs|
  {
    if |segs| == 1 {
      RestoreLast(segs, idx, table, onInner);
    } else {
      var t, b, rest := segs[0].text, segs[1].block, segs[2..];
      PairSplit(segs);
      LookupShift(b, BlocksOf(rest), idx, table, onInner);
      RestoreMasked(rest, idx + 1, table, onInner);
      RestorePair(t, b, rest, idx, table, onInner);
    }
  }

  lemma RestoreLast(segs: seq<Segment>, idx: nat, table: map<string, string>, onInner: (string, string) -> string)
    requires |segs| == 1 && segs[0].Plain? && PlainsMarkerFree(segs)
    ensures Restore(Masked(segs, idx), table) == Unmasked(segs, onInner)
  {
    var t := segs[0].text;
    assert MarkerFree(t);
    assert Masked(segs, idx) == t;
    assert Unmasked(segs, onInner) == t;
    RestorePlain(t, table);
  }

  /** A list of at least two alternating segments is a plain stretch, a block, and alternating segments again. */
  lemma PairSplit(segs: seq<Segment>)
    requires Alternates(segs) && PlainsMarkerFree(segs) && |segs| != 1
    ensures |segs| >= 3 && segs[0].Plain? && segs[1].Protected?
    ensures segs == [Plain(segs[0].text), Protected(segs[1].block)] + segs[2..]
    ensures MarkerFree(segs[0].text) && Alternates(segs[2..]) && PlainsMarkerFree(segs[2..])
    ensures BlocksOf(segs) == [segs[1].block] + BlocksOf(segs[2..])
  {
    AlternatesHead(segs);
    PairShape(segs);
    BlocksPair(segs[0].text, segs[1].block, segs[2..]);
    PlainsTail(segs);
  }

  lemma AlternatesHead(segs: seq<Segment>)
    requires Alternates(segs) && |segs| != 1
    ensures |segs| >= 3 && segs[0].Plain? && segs[1].Protected? && Alternates(segs[2..])
  {
  }

  lemma PairShape(segs: seq<Segment>)
    requires |segs| >= 3 && segs[0].Plain? && segs[1].Protected?
    ensures segs == [Plain(segs[0].text), Protected(segs[1].block)] + segs[2..]
  {
    assert segs == segs[..2] + segs[2..];
  }

  lemma PlainsTail(segs: seq<Segment>)
    requires PlainsMarkerFree(segs) && |segs| >= 2
    ensures PlainsMarkerFree(segs[2..])
  {
    var rest := segs[2..];
    forall k | 0 <= k < |rest| && rest[k].Plain? ensures MarkerFree(rest[k].text) {
      assert rest[k] == segs[k + 2];
    }
  }

  lemma LookupShift(b: Block, bs: seq<Block>, idx: nat, table: map<string, string>, onInner: (string, string) -> string)
    requires KeysStore(table, idx, [b] + bs, onInner)
    ensures Lookup(table, Key(idx)) == Stored(b, onInner)
    ensures KeysStore(table, idx + 1, bs, onInner)
  {
    assert Lookup(table, Key(idx + 0)) == Stored(([b] + bs)[0], onInner);
    forall n | 0 <= n < |bs| ensures Lookup(table, Key(idx + 1 + n)) == Stored(bs[n], onInner) {
      assert ([b] + bs)[n + 1] == bs[n];
      assert idx + (n + 1) == idx + 1 + n;
    }
  }

  lemma RestorePair(t: string, b: Block, rest: seq<Segment>, idx: nat, table: map<string, string>, onInner: (string, string) -> string)
    requires MarkerFree(t) && Lookup(table, Key(idx)) == Stored(b, onInner)
    requires Restore(Masked(rest, idx + 1), table) == Unmasked(rest, onInner)
    ensures Restore(Masked([Plain(t), Protected(b)] + rest, idx), table) == Unmasked([Plain(t), Protected(b)] + rest, onInner)
  {
    MaskedPair(t, b, rest, idx);
    UnmaskedPair(t, b, rest, onInner);
    Assoc(t, Key(idx), Masked(rest, idx + 1));
    RestoreStep(t, idx, Masked(rest, idx + 1), table);
  }

  // -------------------------------------------------------------- protectBlocks

  /** A piece cut out of text without a key prefix has none either. */
  lemma MarkerFreeSlice(s: string, i: nat, j: nat)
    requires MarkerFree(s) && i <= j <= |s|
    ensures MarkerFree(s[i..j])
  {
    var n := |KeyPrefix|;
    forall k | 0 <= k <= |s[i..j]| ensures !MatchesAt(s[i..j], k, KeyPrefix) {
      if k + n <= j - i {
        var inner, outer := s[i..j][k..k + n], s[i + k..i + k + n];
        forall m | 0 <= m < n ensures inner[m] == outer[m] {
          assert inner[m] == s[i..j][k + m] == s[i + k + m];
        }
        assert inner == outer;
        assert !MatchesAt(s, i + k, KeyPrefix);
      }
    }
  }

  /** The plain stretches of a document without a key prefix have none either. */
  lemma {:induction false} SplitMarkerFree(s: string, last: nat)
    requires MarkerFree(s) && last <= |s|
    ensures PlainsMarkerFree(SplitFrom(s, last))
    decreases |s| - last
  {
    match NextBlock(s, last)
    case None =>
      MarkerFreeSlice(s, last, |s|);
      assert s[last..] == s[last..|s|];
    case Some(h) =>
      SplitSome(s, last, h);
      MarkerFreeSlice(s, last, h.at);
      SplitMarkerFree(s, h.end);
      var rest := SplitFrom(s, h.end);
      var segs := [Plain(s[last..h.at]), Protected(h.block)] + rest;
      forall k | 0 <= k < |segs| && segs[k].Plain? ensures MarkerFree(segs[k].text) {
        if k >= 2 {
          assert segs[k] == rest[k - 2];
        }
      }
  }

  /**
   * An `after` callback that only rewrites the plain stretches, keeping the
   * keys in place and adding no key prefix, gets every block back as stored.
   */
  lemma ProtectAfter(html: string, onInner: (string, string) -> string, f: string -> string, segs: seq<Segment>)
    requires f(Masked(SplitFrom(html, 0), 0)) == Masked(segs, 0)
    requires Alternates(segs) && PlainsMarkerFree(segs)
    requires BlocksOf(segs) == BlocksOf(SplitFrom(html, 0))
    ensures ProtectSpec(html, onInner, Some(f)) == Unmasked(segs, onInner)
  {
    TableHolds(SplitFrom(html, 0), 0, onInner);
    RestoreMasked(segs, 0, Table(SplitFrom(html, 0), 0, onInner), onInner);
  }

  /** Without a callback, a document without a key prefix comes back with each block as stored. */
  lemma ProtectNoAfter(html: string, onInner: (string, string) -> string)
    requires MarkerFree(html)
    ensures ProtectSpec(html, onInner, None) == Unmasked(SplitFrom(html, 0), onInner)
  {
    SplitMarkerFree(html, 0);
    RestoreOwnTable(SplitFrom(html, 0), onInner);
  }

  /** Masked segments restored from their own table give every block back as stored. */
  lemma RestoreOwnTable(segs: seq<Segment>, onInner: (string, string) -> string)
    requires Alternates(segs) && PlainsMarkerFree(segs)
    ensures Restore(Masked(segs, 0), Table(segs, 0, onInner)) == Unmasked(segs, onInner)
  {
    TableHolds(segs, 0, onInner);
    RestoreMasked(segs, 0, Table(segs, 0, onInner), onInner);
  }

  /** A document without blocks is handed to the callback whole, and what it returns comes back as it is. */
  lemma ProtectNoBlocks(html: string, onInner: (string, string) -> string, f: string -> string)
    requires NextBlock(html, 0).None?
    ensures ProtectSpec(html, onInner, Some(f)) == f(html)
  {
    SplitNone(html, 0);
    assert html[0..] == html;
    OnlyPlain(html, 0, onInner);
    RestoreEmpty(f(html));
  }

  lemma OnlyPlain(t: string, idx: nat, onInner: (string, string) -> string)
    ensures Masked([Plain(t)], idx) == t && Table([Plain(t)], idx, onInner) == map[]
  {
    assert [Plain(t)][1..] == [];
  }

  /** Blocks stored with their contents kept render as they were written, when each closes with the name spelled as it opened. */
  lemma {:induction false} UnmaskedKeep(segs: seq<Segment>)
    requires forall k | 0 <= k < |segs| && segs[k].Protected? :: segs[k].block.closeTag == segs[k].block.tag
    ensures Unmasked(segs, KeepInner) == Render(segs)
  {
    if segs != [] {
      assert segs[0].Protected? ==> Stored(segs[0].block, KeepInner) == Source(segs[0].block);
      forall k | 0 <= k < |segs[1..]| && segs[1..][k].Protected? ensures segs[1..][k].block.closeTag == segs[1..][k].block.tag {
        assert segs[1..][k] == segs[k + 1];
      }
      UnmaskedKeep(segs[1..]);
    }
  }

  /**
   * `protectBlocks(html, (inner) => inner)` gives back a document without a
   * key prefix unchanged when every block closes with its name spelled as
   * it opened.
   */
  lemma ProtectIdentity(html: string)
    requires MarkerFree(html)
    requires forall k | 0 <= k < |SplitFrom(html, 0)| && SplitFrom(html, 0)[k].Protected? ::
      SplitFrom(html, 0)[k].block.closeTag == SplitFrom(html, 0)[k].block.tag
    ensures ProtectSpec(html, KeepInner, None) == html
  {
    ProtectNoAfter(html, KeepInner);
    UnmaskedKeep(SplitFrom(html, 0));
    SplitRoundTrip(html, 0);
  }

  /** One block of the replace: the plain text before it and its key join the output. */
  lemma MaskStep(html: string, last: nat, h: Hit, replaced: string, idx: nat)
    requires last <= |html| && NextBlock(html, last) == Some(h)
    ensures last <= h.at < h.end <= |html|
    ensures replaced + Masked(SplitFrom(html, last), idx) == (replaced + html[last..h.at] + Key(idx)) + Masked(SplitFrom(html, h.end), idx + 1)
  {
    SplitSome(html, last, h);
    var t, rest := html[last..h.at], Masked(SplitFrom(html, h.end), idx + 1);
    MaskedPair(t, h.block, SplitFrom(html, h.end), idx);
    Assoc(replaced, t, Key(idx) + rest);
    Assoc(replaced + t, Key(idx), rest);
  }

  /** One block of the replace: its key and stored text join the map. */
  lemma TableStep(html: string, last: nat, h: Hit, table: map<string, string>, idx: nat, onInner: (string, string) -> string)
    requires last <= |html| && NextBlock(html, last) == Some(h)
    ensures table + Table(SplitFrom(html, last), idx, onInner) == table[Key(idx) := Stored(h.block, onInner)] + Table(SplitFrom(html, h.end), idx + 1, onInner)
  {
    SplitSome(html, last, h);
    TablePair(html[last..h.at], h.block, SplitFrom(html, h.end), idx, onInner);
    MapUnionStep(table, Key(idx), Stored(h.block, onInner), Table(SplitFrom(html, h.end), idx + 1, onInner));
  }

  /** After the last block the rest of the document is one plain stretch with nothing to store. */
  lemma ProtectDone(html: string, last: nat, idx: nat, replaced: string, table: map<string, string>, onInner: (string, string) -> string)
    requires last <= |html| && NextBlock(html, last).None?
    requires replaced + Masked(SplitFrom(html, last), idx) == Masked(SplitFrom(html, 0), 0)
    requires table + Table(SplitFrom(html, last), idx, onInner) == Table(SplitFrom(html, 0), 0, onInner)
    ensures replaced + html[last..] == Masked(SplitFrom(html, 0), 0)
    ensures table == Table(SplitFrom(html, 0), 0, onInner)
  {
    SplitNone(html, last);
    OnlyPlain(html[last..], idx, onInner);
    assert table + map[] == table;
  }

  /**
   * `protectBlocks`: the replace callback numbers the blocks, stores each
   * block's text in the map under its key and leaves the key in its place;
   * then the optional callback runs on the masked text and the keys are
   * looked up again.
   */
  method ProtectBlocks(html: string, onInner: (string, string) -> string, after: Option<string -> string>) returns (out: string)
    ensures out == ProtectSpec(html, onInner, after)
  {
    var table: map<string, string> := map[];
    var idx: nat := 0;
    var replaced := "";
    var last: nat := 0;
    while NextBlock(html, last).Some?
      invariant last <= |html|
      invariant replaced + Masked(SplitFrom(html, last), idx) == Masked(SplitFrom(html, 0), 0)
      invariant table + Table(SplitFrom(html, last), idx, onInner) == Table(SplitFrom(html, 0), 0, onInner)
      decreases |html| - last
    {
      var h := NextBlock(html, last).value;
      MaskStep(html, last, h, replaced, idx);
      TableStep(html, last, h, table, idx, onInner);
      var key := Key(idx);
      idx := idx + 1;
      table := table[key := Stored(h.block, onInner)];
      replaced := replaced + html[last..h.at] + key;
      last := h.end;
    }
    ProtectDone(html, last, idx, replaced, table, onInner);
    replaced := replaced + html[last..];
    var processed := if after.Some? then after.value(replaced) else replaced;
    out := Restore(processed, table);
  }

  // ------------------------------------------------------------ transformBlocks

  /** The transforms for the two kinds of block; `None` stands for a transform that throws. */
  datatype Transforms = Transforms(script: string -> Option<string>, style: string -> Option<string>)

  /** The opening tag as written: `m[0]` up to and including its first `>`. */
  function Opening(b: Block): string {
    "<" + b.tag + b.attrs + ">"
  }

  /** `transforms[kind]`. */
  function TransformFor(tf: Transforms, kind: string): string -> Option<string> {
    if kind == "script" then tf.script else tf.style
  }

  /** The block's code after its kind's transform, or the code itself when the transform throws. */
  function Transformed(b: Block, tf: Transforms): string {
    match TransformFor(tf, ToLower(b.tag))(b.inner)
    case Some(t) => t
    case None => b.inner
  }

  /** `open + '\n' + transformed + (transformed.endsWith('\n') ? '' : '\n') + close`. */
  function Frame(open: string, t: string, close: string): string {
    open + "\n" + t + (if EndsWith(t, "\n") then "" else "\n") + close
  }

  /** What a block becomes: its opening tag and its transformed code, framed with the lower-case closing tag. */
  function Piece(b: Block, tf: Transforms): string {
    Frame(Opening(b), Transformed(b, tf), "</" + ToLower(b.tag) + ">")
  }

  /** The `parts` of `transformBlocks`: plain stretches as they are, blocks as their pieces. */
  function Rewritten(segs: seq<Segment>, tf: Transforms): (parts: seq<string>)
    ensures |parts| == |segs|
  {
    if segs == [] then []
    else [match segs[0] case Plain(t) => t case Protected(b) => Piece(b, tf)] + Rewritten(segs[1..], tf)
  }

  /** `transformBlocks(html, transforms, htmlTransform)`. */
  function TransformSpec(html: string, tf: Transforms, htmlTransform: string -> string): string {
    var stitched := Concat(Rewritten(SplitFrom(html, 0), tf));
    ProtectSpec(StripHtmlComments(stitched), KeepInner, Some(htmlTransform))
  }

  /** A block name in any case lowers to `script` or `style`, and is made of letters. */
  lemma BlockNameLower(t: string)
    requires IsBlockName(t)
    ensures ToLower(t) == "script" || ToLower(t) == "style"
    ensures forall i | 0 <= i < |t| :: IsAsciiLetter(t[i])
  {
    var name := if EqualsIgnoreCase(t, "script") then "script" else "style";
    forall i | 0 <= i < |t| ensures ToLower(t)[i] == name[i] && IsAsciiLetter(t[i]) {
      assert ToLowerChar(t[i]) == ToLowerChar(name[i]) == name[i];
    }
    assert ToLower(t) == name;
  }

  /** The parts keep the order of the document: the `k`-th part is the `k`-th plain stretch or the piece of the `k`-th block. */
  lemma {:induction false} RewrittenAt(segs: seq<Segment>, tf: Transforms, k: nat)
    requires k < |segs|
    ensures segs[k].Plain? ==> Rewritten(segs, tf)[k] == segs[k].text
    ensures segs[k].Protected? ==> Rewritten(segs, tf)[k] == Piece(segs[k].block, tf)
    decreases |segs|
  {
    if k > 0 {
      RewrittenAt(segs[1..], tf, k - 1);
      assert segs[1..][k - 1] == segs[k];
    }
  }

  lemma PrefixOf(a: string, b: string)
    ensures (a + b)[..|a|] == a
  {
  }

  lemma MiddleOf(a: string, t: string, c: string)
    ensures (a + (t + c))[|a|..|a| + |t|] == t
  {
    assert (a + (t + c))[|a|..] == t + c;
  }

  lemma LineBreakBefore(x: string, c: string)
    requires x != [] && x[|x| - 1] == '\n'
    ensures (x + c)[|x| - 1..] == "\n" + c
  {
  }

  /**
   * A frame starts with the opening text and a line break and ends with a
   * line break and the closing text; in between stands the code, followed
   * by a line break only when it does not already end in one.
   */
  lemma FrameShape(open: string, t: string, close: string)
    ensures StartsWith(Frame(open, t, close), open + "\n")
    ensures MatchesAt(Frame(open, t, close), |open| + 1, t)
    ensures EndsWith(Frame(open, t, close), "\n" + close)
    ensures |Frame(open, t, close)| == |open| + 1 + |t| + (if EndsWith(t, "\n") then 0 else 1) + |close|
  {
    var head, nl := open + "\n", if EndsWith(t, "\n") then "" else "\n";
    var f := Frame(open, t, close);
    assert f == head + (t + (nl + close));
    PrefixOf(head, t + (nl + close));
    MiddleOf(head, t, nl + close);
    FrameEnd(head, t, nl, close);
  }

  lemma FrameEnd(head: string, t: string, nl: string, close: string)
    requires nl == if EndsWith(t, "\n") then "" else "\n"
    ensures EndsWith(head + (t + (nl + close)), "\n" + close)
  {
    var x := head + t + nl;
    assert head + (t + (nl + close)) == x + close;
    if nl == "" {
      assert x[|x| - 1] == t[|t| - 1] == '\n';
    }
    LineBreakBefore(x, close);
  }

  /**
   * A block's piece starts with its opening tag and a line break and ends
   * with a line break and the closing tag of its kind in lower case; in
   * between stands the transformed code, followed by a line break only when
   * it does not already end in one.
   */
  lemma PieceShape(b: Block, tf: Transforms)
    requires WellFormed(b)
    ensures ToLower(b.tag) == "script" || ToLower(b.tag) == "style"
    ensures StartsWith(Piece(b, tf), Opening(b) + "\n")
    ensures MatchesAt(Piece(b, tf), |Opening(b)| + 1, Transformed(b, tf))
    ensures EndsWith(Piece(b, tf), "\n</" + ToLower(b.tag) + ">")
    ensures |Piece(b, tf)| == |Opening(b)| + |Transformed(b, tf)| + (if EndsWith(Transformed(b, tf), "\n") then 0 else 1) + |ToLower(b.tag)| + 4
  {
    BlockNameLower(b.tag);
    FrameShape(Opening(b), Transformed(b, tf), "</" + ToLower(b.tag) + ">");
    assert "\n" + ("</" + ToLower(b.tag) + ">") == "\n</" + ToLower(b.tag) + ">";
  }

  /** A block whose transform throws keeps its code, right after the opening tag and its line break. */
  lemma PieceFallback(b: Block, tf: Transforms)
    requires TransformFor(tf, ToLower(b.tag))(b.inner).None?
    ensures MatchesAt(Piece(b, tf), |Opening(b)| + 1, b.inner)
  {
    assert Transformed(b, tf) == b.inner;
    FrameShape(Opening(b), b.inner, "</" + ToLower(b.tag) + ">");
  }

  /** The first `c` at or after `from` is at `k` when it stands there and nowhere between. */
  lemma IndexOfCharIs(s: string, c: char, from: nat, k: nat)
    requires from <= k < |s| && s[k] == c
    requires forall j | from <= j < k :: s[j] != c
    ensures IndexOfChar(s, c, from) == Some(k)
  {
  }

  /** The opening tag has no `>` before its last character. */
  lemma OpeningHasOneGt(b: Block)
    requires WellFormed(b)
    ensures Opening(b)[|Opening(b)| - 1] == '>'
    ensures forall k | 0 <= k < |Opening(b)| - 1 :: Opening(b)[k] != '>'
  {
    BlockNameLower(b.tag);
    var o := Opening(b);
    forall k | 0 <= k < |o| - 1 ensures o[k] != '>' {
      if 1 <= k <= |b.tag| {
        assert o[k] == b.tag[k - 1];
      } else if k > |b.tag| {
        assert o[k] == b.attrs[k - 1 - |b.tag|];
      }
    }
  }

  /** The text of a block starts with its opening tag, and its first `>` closes that tag. */
  lemma SourceOpens(b: Block)
    requires WellFormed(b)
    ensures IndexOfChar(Source(b), '>', 0) == Some(|Opening(b)| - 1)
    ensures Source(b)[..|Opening(b)|] == Opening(b)
  {
    var o, rest := Opening(b), b.inner + "</" + b.closeTag + ">";
    assert Source(b) == o + rest;
    PrefixOf(o, rest);
    OpeningHasOneGt(b);
    forall k | 0 <= k < |o| ensures Source(b)[k] == o[k] {
    }
    IndexOfCharIs(Source(b), '>', 0, |o| - 1);
  }

  /** The opening tag is what `m[0]` holds up to and including its first `>`. */
  lemma OpenTag(html: string, last: nat, h: Hit)
    requires last <= |html| && NextBlock(html, last) == Some(h)
    ensures h.at <= h.end <= |html|
    ensures IndexOfChar(html[h.at..h.end], '>', 0) == Some(|Opening(h.block)| - 1)
    ensures html[h.at..h.end][..|Opening(h.block)|] == Opening(h.block)
  {
    SourceOpens(h.block);
  }

  /** One block of the loop: the plain text before it and its piece join the parts. */
  lemma RewriteStep(html: string, last: nat, h: Hit, parts: seq<string>, tf: Transforms)
    requires last <= |html| && NextBlock(html, last) == Some(h)
    ensures last <= h.at < h.end <= |html|
    ensures parts + Rewritten(SplitFrom(html, last), tf) == (parts + [html[last..h.at]]) + [Piece(h.block, tf)] + Rewritten(SplitFrom(html, h.end), tf)
  {
    SplitSome(html, last, h);
    RewritePair(parts, html[last..h.at], h.block, SplitFrom(html, h.end), tf);
  }

  lemma RewritePair(parts: seq<string>, t: string, b: Block, rest: seq<Segment>, tf: Transforms)
    ensures parts + Rewritten([Plain(t), Protected(b)] + rest, tf) == (parts + [t]) + [Piece(b, tf)] + Rewritten(rest, tf)
  {
    PairSlices(t, b, rest);
    assert Rewritten([Plain(t), Protected(b)] + rest, tf) == [t, Piece(b, tf)] + Rewritten(rest, tf);
  }

  /**
   * `transformBlocks`: each block's code goes through the transform for its
   * kind (keeping the code when it throws) and is framed by the opening tag
   * and a lower-case closing tag; the text between blocks is kept; the
   * stitched document loses its HTML comments and goes through
   * `protectBlocks` with the HTML transform as the callback.
   */
  method TransformBlocks(html: string, tf: Transforms, htmlTransform: string -> string) returns (out: string)
    ensures out == TransformSpec(html, tf, htmlTransform)
  {
    var parts: seq<string> := [];
    var last: nat := 0;
    while NextBlock(html, last).Some?
      invariant last <= |html|
      invariant parts + Rewritten(SplitFrom(html, last), tf) == Rewritten(SplitFrom(html, 0), tf)
      decreases |html| - last
    {
      var h := NextBlock(html, last).value;
      RewriteStep(html, last, h, parts, tf);
      var piece := BlockPiece(html, last, h, tf);
      parts := parts + [html[last..h.at]];
      parts := parts + [piece];
      last := h.end;
    }
    TransformDone(html, last, parts, tf);
    parts := parts + [html[last..]];
    var stitched := Concat(parts);
    var cleaned := StripHtmlComments(stitched);
    out := ProtectBlocks(cleaned, KeepInner, Some(htmlTransform));
  }

  /** The body of the loop for one match `m`: the kind, the opening tag cut from `m[0]`, the transform tried, and the frame. */
  method BlockPiece(html: string, last: nat, h: Hit, tf: Transforms) returns (piece: string)
    requires last <= |html| && NextBlock(html, last) == Some(h)
    ensures piece == Piece(h.block, tf)
  {
    OpenTag(html, last, h);
    var m0 := html[h.at..h.end];
    var kind := ToLower(h.block.tag);
    var open := m0[..IndexOfChar(m0, '>', 0).value + 1];
    var close := "</" + kind + ">";
    var code := h.block.inner;
    var transformed: string;
    var result := TransformFor(tf, kind)(code);
    if result.Some? {
      transformed := result.value;
    } else {
      transformed := code;
    }
    assert open == Opening(h.block);
    piece := Frame(open, transformed, close);
  }

  lemma TransformDone(html: string, last: nat, parts: seq<string>, tf: Transforms)
    requires last <= |html| && NextBlock(html, last).None?
    requires parts + Rewritten(SplitFrom(html, last), tf) == Rewritten(SplitFrom(html, 0), tf)
    ensures parts + [html[last..]] == Rewritten(SplitFrom(html, 0), tf)
  {
    assert Rewritten(SplitFrom(html, last), tf) == [html[last..]];
  }

  /** A document without blocks is stripped of HTML comments and handed to `protectBlocks` as it is. */
  lemma TransformNoBlocks(html: string, tf: Transforms, htmlTransform: string -> string)
    requires NextBlock(html, 0).None?
    ensures TransformSpec(html, tf, htmlTransform) == ProtectSpec(StripHtmlComments(html), KeepInner, Some(htmlTransform))
  {
    assert Rewritten(SplitFrom(html, 0), tf) == [html];
    assert [html][1..] == [];
    assert Concat([html]) == html;
  }
}
