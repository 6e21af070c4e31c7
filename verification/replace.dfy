/**
 * `String.prototype.replace` with a global pattern and a replacer callback, for any pattern:
 * the scan tries the pattern at each index from left to right; where it matches, the matched
 * text goes to the callback and the scan resumes after the match; elsewhere the character is
 * copied. A pattern is given by a matcher `m`, where `m(s, i)` is the text the pattern matches
 * at index `i` of `s`, if any. The lemmas split such a replacement at unmatched stretches and
 * at matches, for patterns that only read forward from where they start.
 */
module Replace {
  import opened Wrappers

  type Matcher = (string, nat) -> Option<string>

  /** A matcher finds non-empty text that lies inside the string, from the index it is asked about. */
  ghost predicate Sound(m: Matcher) {
    forall s: string, i: nat :: m(s, i).Some? ==> m(s, i).value != [] && i + |m(s, i).value| <= |s|
  }

  /** `s.replace(re, f)` with `re` global, scanning from index `i`. */
  function ReplaceAll(s: string, i: nat, m: Matcher, f: string -> string): string
    requires i <= |s| && Sound(m)
    decreases |s| - i
  {
    if i == |s| then []
    else
      match m(s, i)
      case Some(w) => f(w) + ReplaceAll(s, i + |w|, m, f)
      case None => [s[i]] + ReplaceAll(s, i + 1, m, f)
  }

  lemma SliceCons(s: string, p: nat, q: nat)
    requires p < q <= |s|
    ensures s[p..q] == [s[p]] + s[p + 1..q]
  {
  }

  lemma Assoc(a: string, b: string, c: string)
    ensures a + b + c == a + (b + c)
  {
  }

  lemma SlicePrefix(t: string, k: string, rest: string)
    ensures (t + k + rest)[0..|t|] == t
  {
  }

  /** Where the pattern matches nowhere in `[p, q)`, that stretch is copied unchanged. */
  lemma {:induction false} Skip(s: string, p: nat, q: nat, m: Matcher, f: string -> string)
    requires p <= q <= |s| && Sound(m)
    requires forall k | p <= k < q :: m(s, k).None?
    ensures ReplaceAll(s, p, m, f) == s[p..q] + ReplaceAll(s, q, m, f)
    decreases q - p
  {
    if p < q {
      Skip(s, p + 1, q, m, f);
      SliceCons(s, p, q);
      Assoc([s[p]], s[p + 1..q], ReplaceAll(s, q, m, f));
    }
  }

  /** A string where the pattern matches nowhere comes back unchanged. */
  lemma NoMatch(s: string, m: Matcher, f: string -> string)
    requires Sound(m)
    requires forall k | 0 <= k < |s| :: m(s, k).None?
    ensures ReplaceAll(s, 0, m, f) == s
  {
    Skip(s, 0, |s|, m, f);
  }

  /** A callback that gives every match back as it was leaves the string as it is. */
  lemma {:induction false} Unchanged(s: string, i: nat, m: Matcher, f: string -> string)
    requires i <= |s| && Sound(m)
    requires forall j | i <= j < |s| :: m(s, j).Some? ==> m(s, j).value == s[j..j + |m(s, j).value|] && f(m(s, j).value) == m(s, j).value
    ensures ReplaceAll(s, i, m, f) == s[i..]
    decreases |s| - i
  {
    if i < |s| {
      match m(s, i)
      case Some(w) =>
        Unchanged(s, i + |w|, m, f);
        AtMatch(s, i, w, m, f);
        assert f(w) == w == s[i..i + |w|];
        Rejoin(s, i, i + |w|);
      case None =>
        Unchanged(s, i + 1, m, f);
        Copied(s, i, m, f);
        Rejoin(s, i, i + 1);
    }
  }

  /** The pattern matches the same in `b` as in `a + b` from `|a|` on: it does not look behind where it starts. */
  ghost predicate ReadsForward(m: Matcher, a: string, b: string) {
    forall j | 0 <= j <= |b| :: m(a + b, |a| + j) == m(b, j)
  }

  /** A pattern that reads only forward does the same from index `|a| + j` of `a + b` as from `j` of `b`. */
  lemma {:induction false} Shift(a: string, b: string, j: nat, m: Matcher, f: string -> string)
    requires j <= |b| && Sound(m)
    requires ReadsForward(m, a, b)
    ensures ReplaceAll(a + b, |a| + j, m, f) == ReplaceAll(b, j, m, f)
    decreases |b| - j
  {
    if j < |b| {
      var r := m(b, j);
      assert m(a + b, |a| + j) == r;
      var n := if r.Some? then |r.value| else 1;
      Shift(a, b, j + n, m, f);
      ShiftOne(a, b, j, m, f);
    } else {
      ShiftEnd(a, b, m, f);
    }
  }

  /** One step of the scan reads the same in `a + b` and in `b` when the pattern does. */
  lemma ShiftOne(a: string, b: string, j: nat, m: Matcher, f: string -> string)
    requires j < |b| && Sound(m)
    requires m(a + b, |a| + j) == m(b, j)
    requires ReplaceAll(a + b, |a| + j + (if m(b, j).Some? then |m(b, j).value| else 1), m, f)
          == ReplaceAll(b, j + (if m(b, j).Some? then |m(b, j).value| else 1), m, f)
    ensures ReplaceAll(a + b, |a| + j, m, f) == ReplaceAll(b, j, m, f)
  {
    match m(b, j)
    case Some(w) =>
      ShiftMatch(a + b, |a| + j, b, j, w, m, f);
    case None =>
      ShiftCopy(a + b, |a| + j, b, j, m, f);
  }

  lemma ShiftMatch(s: string, i: nat, b: string, j: nat, w: string, m: Matcher, f: string -> string)
    requires i <= |s| && j <= |b| && Sound(m)
    requires m(s, i) == Some(w) && m(b, j) == Some(w)
    requires ReplaceAll(s, i + |w|, m, f) == ReplaceAll(b, j + |w|, m, f)
    ensures ReplaceAll(s, i, m, f) == ReplaceAll(b, j, m, f)
  {
    AtMatch(s, i, w, m, f);
    AtMatch(b, j, w, m, f);
  }

  lemma ShiftCopy(s: string, i: nat, b: string, j: nat, m: Matcher, f: string -> string)
    requires i < |s| && j < |b| && Sound(m) && s[i] == b[j]
    requires m(s, i).None? && m(b, j).None?
    requires ReplaceAll(s, i + 1, m, f) == ReplaceAll(b, j + 1, m, f)
    ensures ReplaceAll(s, i, m, f) == ReplaceAll(b, j, m, f)
  {
    Copied(s, i, m, f);
    Copied(b, j, m, f);
    assert s[i..i + 1] == b[j..j + 1];
  }

  lemma ShiftEnd(a: string, b: string, m: Matcher, f: string -> string)
    requires Sound(m)
    ensures ReplaceAll(a + b, |a| + |b|, m, f) == ReplaceAll(b, |b|, m, f)
  {
  }

  lemma Rejoin(s: string, i: nat, j: nat)
    requires i <= j <= |s|
    ensures s[i..] == s[i..j] + s[j..]
  {
  }

  /** Where the pattern does not match, the character is copied and the scan moves on by one. */
  lemma Copied(s: string, i: nat, m: Matcher, f: string -> string)
    requires Sound(m) && i < |s| && m(s, i).None?
    ensures ReplaceAll(s, i, m, f) == s[i..i + 1] + ReplaceAll(s, i + 1, m, f)
  {
    assert s[i..i + 1] == [s[i]];
  }

  /** At a match the callback's result comes first, then the scan resumes after the match. */
  lemma AtMatch(s: string, i: nat, w: string, m: Matcher, f: string -> string)
    requires Sound(m) && i <= |s| && m(s, i) == Some(w)
    ensures i + |w| <= |s| && ReplaceAll(s, i, m, f) == f(w) + ReplaceAll(s, i + |w|, m, f)
  {
  }

  lemma SkipPrefix(t: string, k: string, rest: string, m: Matcher, f: string -> string)
    requires Sound(m)
    requires forall p | 0 <= p < |t| :: m(t + k + rest, p).None?
    ensures ReplaceAll(t + k + rest, 0, m, f) == t + ReplaceAll(t + k + rest, |t|, m, f)
  {
    Skip(t + k + rest, 0, |t|, m, f);
    SlicePrefix(t, k, rest);
  }

  lemma MatchInside(t: string, k: string, rest: string, m: Matcher, f: string -> string)
    requires Sound(m)
    requires m(t + k + rest, |t|) == Some(k)
    ensures ReplaceAll(t + k + rest, |t|, m, f) == f(k) + ReplaceAll(t + k + rest, |t| + |k|, m, f)
  {
    AtMatch(t + k + rest, |t|, k, m, f);
  }

  lemma ShiftAfter(t: string, k: string, rest: string, m: Matcher, f: string -> string)
    requires Sound(m)
    requires ReadsForward(m, t + k, rest)
    ensures ReplaceAll(t + k + rest, |t| + |k|, m, f) == ReplaceAll(rest, 0, m, f)
  {
    Shift(t + k, rest, 0, m, f);
  }

  lemma MatchThenRest(t: string, k: string, rest: string, m: Matcher, f: string -> string)
    requires Sound(m)
    requires m(t + k + rest, |t|) == Some(k)
    requires ReadsForward(m, t + k, rest)
    ensures ReplaceAll(t + k + rest, |t|, m, f) == f(k) + ReplaceAll(rest, 0, m, f)
  {
    MatchInside(t, k, rest, m, f);
    ShiftAfter(t, k, rest, m, f);
  }

  /**
   * Unmatched text `t`, then a match `k`, then a rest the pattern reads on its own: `t` is copied,
   * `k` goes to the callback, and the rest is replaced as if it stood alone.
   */
  lemma Step(t: string, k: string, rest: string, m: Matcher, f: string -> string)
    requires Sound(m)
    requires forall p | 0 <= p < |t| :: m(t + k + rest, p).None?
    requires m(t + k + rest, |t|) == Some(k)
    requires ReadsForward(m, t + k, rest)
    ensures ReplaceAll(t + k + rest, 0, m, f) == t + f(k) + ReplaceAll(rest, 0, m, f)
  {
    SkipPrefix(t, k, rest, m, f);
    MatchThenRest(t, k, rest, m, f);
    Assoc(t, f(k), ReplaceAll(rest, 0, m, f));
  }
}
