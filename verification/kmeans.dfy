/**
 * `kmeansTopColors` (apps/web/app/lib/color.ts): the dominant colours of an RGBA buffer by
 * k-means over its opaque pixels, optionally ordered by closeness in luma to a reference colour.
 * Each loop of the source is a method proved against a specification function; the properties
 * of the clustering are lemmas about those functions.
 */
module KMeans {
  import opened Wrappers
  import opened Color

  /** An element of a `Uint8ClampedArray`. */
  type Byte = x: int | 0 <= x < 256

  // ------------------------------------------------------------ opaque pixels

  /** The pixels of the quadruples from index `i` on whose alpha is present and at least 128. */
  function Opaque(data: seq<Byte>, i: nat): (pixels: seq<RGB>)
    ensures forall p | p in pixels :: InGamut(p)
    decreases |data| - i
  {
    if i >= |data| then []
    else
      (if i + 3 < |data| && data[i + 3] >= 128 then [RGB(data[i], data[i + 1], data[i + 2])] else []) +
      Opaque(data, i + 4)
  }

  /** The colour of quadruple `j` is kept when its alpha is at least 128. */
  predicate OpaqueAt(data: seq<Byte>, j: nat) {
    4 * j + 3 < |data| && data[4 * j + 3] >= 128
  }

  function PixelAt(data: seq<Byte>, j: nat): RGB
    requires 4 * j + 3 < |data|
  {
    RGB(data[4 * j], data[4 * j + 1], data[4 * j + 2])
  }

  /** Every pixel is the colour of an opaque quadruple: nothing translucent gets in. */
  lemma {:induction false} OpaqueSound(data: seq<Byte>, m: nat, p: RGB)
    requires p in Opaque(data, 4 * m)
    ensures exists j :: m <= j && OpaqueAt(data, j) && p == PixelAt(data, j)
    decreases |data| - 4 * m
  {
    assert 4 * m < |data|;
    assert 4 * m + 4 == 4 * (m + 1);
    if p in Opaque(data, 4 * (m + 1)) {
      OpaqueSound(data, m + 1, p);
    } else {
      assert OpaqueAt(data, m) && p == PixelAt(data, m);
    }
  }

  /** Every opaque quadruple's colour is among the pixels: nothing opaque is missed. */
  lemma {:induction false} OpaqueComplete(data: seq<Byte>, m: nat, j: nat)
    requires m <= j && OpaqueAt(data, j)
    ensures PixelAt(data, j) in Opaque(data, 4 * m)
    decreases j - m
  {
    assert 4 * m + 4 == 4 * (m + 1);
    if j > m {
      OpaqueComplete(data, m + 1, j);
    }
  }

  /** The first loop of `kmeansTopColors`: walk the buffer four bytes at a time. */
  method OpaquePixels(data: seq<Byte>) returns (pixels: seq<RGB>)
    ensures pixels == Opaque(data, 0)
  {
    pixels := [];
    var i := 0;
    while i < |data|
      invariant pixels + Opaque(data, i) == Opaque(data, 0)
      decreases |data| - i
    {
      if i + 3 < |data| && data[i + 3] >= 128 {
        pixels := pixels + [RGB(data[i], data[i + 1], data[i + 2])];
      }
      i := i + 4;
    }
  }

  // ------------------------------------------------------------ counts

  /** `x | 0`: truncation to an integer, then wrap-around to 32 bits; non-finite numbers become 0. */
  function ToInt32(x: Num): (n: int)
    ensures -0x8000_0000 <= n < 0x8000_0000
    ensures x.Finite? && x.v == x.v.Floor as real && -0x8000_0000 <= x.v.Floor < 0x8000_0000 ==> n == x.v.Floor
    ensures !x.Finite? ==> n == 0
  {
    match x
    case Finite(v) =>
      var t := if v >= 0.0 then v.Floor else -((-v).Floor);
      (t + 0x8000_0000) % 0x1_0000_0000 - 0x8000_0000
    case _ => 0
  }

  /** `Math.max(1, Math.min(k | 0, total))`. */
  function ClusterCount(k: Num, total: nat): (n: nat)
    ensures 1 <= n && (total >= 1 ==> n <= total)
  {
    var want := ToInt32(k);
    var m := if want < total then want else total;
    if m < 1 then 1 else m
  }

  /** `Math.max(1, iterations | 0)`. */
  function MaxIter(iterations: Num): (n: nat)
    ensures n >= 1
  {
    var m := ToInt32(iterations);
    if m < 1 then 1 else m
  }

  // ------------------------------------------------------------ seeding

  lemma PickBound(idx: nat, total: nat, count: nat)
    requires idx < count
    requires count <= total
    ensures idx * total / count < total
  {
    assert idx * total <= (count - 1) * total;
    assert (count - 1) * total == count * total - total;
    DivBelow(idx * total, count, total);
  }

  /** `x < d * q` gives `x / d < q`. */
  lemma DivBelow(x: nat, d: nat, q: nat)
    requires d > 0 && x < d * q
    ensures x / d < q
  {
  }

  /** `Math.floor((idx * total) / clusterCount)`: the pixel that seeds centroid `idx`. */
  function Pick(idx: nat, total: nat, count: nat): (p: nat)
    requires idx < count <= total
    ensures p < total
  {
    PickBound(idx, total, count);
    idx * total / count
  }

  /** The initial centroids: pixels spread evenly through the list. */
  function Seeds(pixels: seq<RGB>, count: nat): (seeds: seq<RGB>)
    requires 1 <= count <= |pixels|
    ensures |seeds| == count
    ensures forall c | c in seeds :: c in pixels
  {
    seq(count, idx requires 0 <= idx < count => pixels[Pick(idx, |pixels|, count)])
  }

  // ------------------------------------------------------------ assignment

  /** The index of the first nearest of `cents[..m]` to `px`, as the scan with a strict `<` finds it. */
  function NearestIn(px: RGB, cents: seq<RGB>, m: nat): (best: nat)
    requires 1 <= m <= |cents|
    ensures best < m
  {
    if m == 1 then 0
    else
      var b := NearestIn(px, cents, m - 1);
      if Dist2(px, cents[m - 1]) < Dist2(px, cents[b]) then m - 1 else b
  }

  function Nearest(px: RGB, cents: seq<RGB>): nat
    requires |cents| >= 1
  {
    NearestIn(px, cents, |cents|)
  }

  /** The chosen centroid is at least as close as every other one, and strictly closer than every one before it. */
  lemma {:induction false} NearestIsFirstMinimum(px: RGB, cents: seq<RGB>, m: nat)
    requires 1 <= m <= |cents|
    ensures forall c | 0 <= c < m :: Dist2(px, cents[NearestIn(px, cents, m)]) <= Dist2(px, cents[c])
    ensures forall c | 0 <= c < NearestIn(px, cents, m) :: Dist2(px, cents[c]) > Dist2(px, cents[NearestIn(px, cents, m)])
  {
    if m > 1 {
      NearestIsFirstMinimum(px, cents, m - 1);
    }
  }

  /** The nearest centroid of every pixel. */
  function Assign(pixels: seq<RGB>, cents: seq<RGB>): (a: seq<nat>)
    requires |cents| >= 1
    ensures |a| == |pixels|
    ensures forall i | 0 <= i < |a| :: a[i] < |cents|
  {
    seq(|pixels|, i requires 0 <= i < |pixels| => Nearest(pixels[i], cents))
  }

  /** The inner scan of the assignment loop: `bestDist` starts at infinity (`None`), so the first centroid is always taken. */
  method NearestCentroid(px: RGB, centroids: array<RGB>) returns (best: nat)
    requires centroids.Length >= 1
    ensures best == Nearest(px, centroids[..])
  {
    best := 0;
    var bestDist: Option<int> := None;
    for c := 0 to centroids.Length
      invariant c == 0 ==> bestDist.None? && best == 0
      invariant c >= 1 ==> best == NearestIn(px, centroids[..], c) && bestDist == Some(Dist2(px, centroids[best]))
    {
      var d := Dist2(px, centroids[c]);
      if bestDist.None? || d < bestDist.value {
        bestDist := Some(d);
        best := c;
      }
    }
  }

  /** The assignment loop: every pixel to its nearest centroid. */
  method AssignAll(pixels: seq<RGB>, centroids: array<RGB>, assignment: array<nat>)
    requires centroids.Length >= 1 && assignment.Length == |pixels|
    modifies assignment
    ensures assignment[..] == Assign(pixels, centroids[..])
  {
    for i := 0 to |pixels|
      invariant forall j | 0 <= j < i :: assignment[j] == Nearest(pixels[j], centroids[..])
    {
      assignment[i] := NearestCentroid(pixels[i], centroids);
    }
  }

  // ------------------------------------------------------------ sums

  /** The running sum of a cluster: channel totals and member count. */
  datatype Sum = Sum(r: int, g: int, b: int, n: nat)

  const Zero: Sum := Sum(0, 0, 0, 0)

  function Add(s: Sum, px: RGB): Sum {
    Sum(s.r + px.r, s.g + px.g, s.b + px.b, s.n + 1)
  }

  /** The sum of the pixels assigned to cluster `c`, taken in order. */
  function Totals(pixels: seq<RGB>, assign: seq<nat>, c: nat): Sum
    requires |assign| == |pixels|
  {
    if pixels == [] then Zero
    else
      var t := Totals(pixels[..|pixels| - 1], assign[..|assign| - 1], c);
      if assign[|assign| - 1] == c then Add(t, pixels[|pixels| - 1]) else t
  }

  /** One more pixel adds to its own cluster's sum and to no other. */
  lemma TotalsStep(pixels: seq<RGB>, assign: seq<nat>, i: nat, c: nat)
    requires |assign| == |pixels| && i < |pixels|
    ensures Totals(pixels[..i + 1], assign[..i + 1], c) ==
      if assign[i] == c then Add(Totals(pixels[..i], assign[..i], c), pixels[i]) else Totals(pixels[..i], assign[..i], c)
  {
    assert pixels[..i + 1][..i] == pixels[..i];
    assert assign[..i + 1][..i] == assign[..i];
  }

  /** A cluster's count is zero exactly when no pixel is assigned to it. */
  lemma {:induction false} TotalsEmpty(pixels: seq<RGB>, assign: seq<nat>, c: nat)
    requires |assign| == |pixels|
    ensures Totals(pixels, assign, c).n == 0 <==> forall i | 0 <= i < |assign| :: assign[i] != c
  {
    if pixels != [] {
      var n := |pixels| - 1;
      TotalsEmpty(pixels[..n], assign[..n], c);
      assert forall i | 0 <= i < n :: assign[..n][i] == assign[i];
    }
  }

  /** The sums of in-gamut pixels lie between 0 and 255 times the count. */
  lemma {:induction false} TotalsBounded(pixels: seq<RGB>, assign: seq<nat>, c: nat)
    requires |assign| == |pixels|
    requires forall p | p in pixels :: InGamut(p)
    ensures var t := Totals(pixels, assign, c);
      0 <= t.r <= 255 * t.n && 0 <= t.g <= 255 * t.n && 0 <= t.b <= 255 * t.n
  {
    if pixels != [] {
      var n := |pixels| - 1;
      assert forall p | p in pixels[..n] :: p in pixels;
      TotalsBounded(pixels[..n], assign[..n], c);
      assert pixels[n] in pixels;
    }
  }

  /** When every pixel is one colour, a cluster's sum is that colour times its count. */
  lemma {:induction false} TotalsUniform(pixels: seq<RGB>, assign: seq<nat>, c: nat, col: RGB)
    requires |assign| == |pixels|
    requires forall p | p in pixels :: p == col
    ensures var t := Totals(pixels, assign, c);
      t.r == t.n * col.r && t.g == t.n * col.g && t.b == t.n * col.b
  {
    if pixels != [] {
      var n := |pixels| - 1;
      assert forall p | p in pixels[..n] :: p in pixels;
      TotalsUniform(pixels[..n], assign[..n], c, col);
      assert pixels[n] in pixels;
    }
  }

  /** The accumulation loop: one sum per cluster. */
  method Accumulate(pixels: seq<RGB>, assignment: array<nat>, count: nat) returns (sums: array<Sum>)
    requires assignment.Length == |pixels|
    requires forall i | 0 <= i < assignment.Length :: assignment[i] < count
    ensures fresh(sums) && sums.Length == count
    ensures forall c | 0 <= c < count :: sums[c] == Totals(pixels, assignment[..], c)
  {
    sums := new Sum[count](_ => Zero);
    for i := 0 to |pixels|
      invariant forall c | 0 <= c < count :: sums[c] == Totals(pixels[..i], assignment[..i], c)
    {
      var idx := assignment[i];
      var s := sums[idx];
      var px := pixels[i];
      sums[idx] := Sum(s.r + px.r, s.g + px.g, s.b + px.b, s.n + 1);
      forall c | 0 <= c < count
        ensures sums[c] == Totals(pixels[..i + 1], assignment[..i + 1], c)
      {
        TotalsStep(pixels, assignment[..], i, c);
        assert assignment[..][..i + 1] == assignment[..i + 1];
        assert assignment[..][..i] == assignment[..i];
      }
    }
    assert pixels[..|pixels|] == pixels;
    assert assignment[..assignment.Length] == assignment[..];
  }

  // ------------------------------------------------------------ update

  /** `Math.round(a / n)` on integers: halves go up. */
  function RoundDiv(a: int, n: nat): int
    requires n > 0
  {
    (2 * a + n) / (2 * n)
  }

  /** The integer form is `Math.round` of the exact quotient. */
  lemma RoundDivIsRound(a: int, n: nat)
    requires n > 0
    ensures RoundDiv(a, n) == Round(a as real / n as real)
  {
    var p, q := 2 * a + n, 2 * n;
    var d, m := p / q, p % q;
    HalfShift(a as real, n as real);
    QuotientParts(p, q);
    RoundIs(a as real / n as real, d);
  }

  /** `a / n + 1/2` is the quotient `(2a + n) / 2n`. */
  lemma HalfShift(a: real, n: real)
    requires n > 0.0
    ensures a / n + 0.5 == (2.0 * a + n) / (2.0 * n)
  {
    var q := 2.0 * n;
    assert (2.0 * a + n) / q == (2.0 * a) / q + n / q;
    assert (2.0 * a) / q == a / n;
    assert n / q == 0.5;
  }

  /** The exact quotient lies between the integer quotient and the next integer. */
  lemma QuotientParts(p: int, q: int)
    requires q > 0
    ensures (p / q) as real <= p as real / q as real < (p / q) as real + 1.0
  {
    var d, m := p / q, p % q;
    assert p == d * q + m && 0 <= m < q;
    assert p as real == d as real * q as real + m as real;
    assert p as real / q as real == d as real + m as real / q as real;
  }

  /** `Math.round(x)` is `d` when `x + 1/2` lies in `[d, d + 1)`. */
  lemma RoundIs(x: real, d: int)
    requires d as real <= x + 0.5 < d as real + 1.0
    ensures Round(x) == d
  {
  }

  /** The rounded mean of sums within `[0, 255 n]` is a channel value. */
  lemma RoundDivInRange(a: int, n: nat)
    requires n > 0 && 0 <= a <= 255 * n
    ensures 0 <= RoundDiv(a, n) <= 255
  {
    DivBelow(2 * a + n, 2 * n, 256);
  }

  /** `n` copies of a value average to that value. */
  lemma RoundDivExact(x: int, n: nat)
    requires n > 0
    ensures RoundDiv(n * x, n) == x
  {
    QuotientUnique(2 * (n * x) + n, 2 * n, x, n);
  }

  /** Division by a positive divisor has one quotient and one remainder. */
  lemma QuotientUnique(y: int, d: int, q: int, m: int)
    requires d > 0 && 0 <= m < d && y == q * d + m
    ensures y / d == q
  {
    var q', m' := y / d, y % d;
    assert y == q' * d + m' && 0 <= m' < d;
    var e := q' - q;
    assert e * d == q' * d - q * d;
    assert e * d == m - m';
  }

  /** The rounded mean colour of a non-empty cluster. */
  function Mean(s: Sum): RGB
    requires s.n > 0
  {
    RGB(RoundDiv(s.r, s.n), RoundDiv(s.g, s.n), RoundDiv(s.b, s.n))
  }

  /** A centroid moves to its cluster's mean; an empty cluster leaves it where it was. */
  function Moved(old_: RGB, s: Sum): RGB {
    if s.n > 0 then Mean(s) else old_
  }

  /** The update loop. */
  method UpdateCentroids(centroids: array<RGB>, sums: array<Sum>)
    requires sums.Length == centroids.Length
    modifies centroids
    ensures forall c | 0 <= c < centroids.Length :: centroids[c] == Moved(old(centroids[c]), sums[c])
  {
    for c := 0 to centroids.Length
      invariant forall j | 0 <= j < c :: centroids[j] == Moved(old(centroids[j]), sums[j])
      invariant forall j | c <= j < centroids.Length :: centroids[j] == old(centroids[j])
    {
      var s := sums[c];
      if s.n > 0 {
        centroids[c] := RGB(RoundDiv(s.r, s.n), RoundDiv(s.g, s.n), RoundDiv(s.b, s.n));
      }
    }
  }

  // ------------------------------------------------------------ iteration

  /** One round of k-means: assign every pixel, then move every centroid. */
  function Step(pixels: seq<RGB>, cents: seq<RGB>): (next: seq<RGB>)
    requires |cents| >= 1
    ensures |next| == |cents|
  {
    var a := Assign(pixels, cents);
    seq(|cents|, c requires 0 <= c < |cents| => Moved(cents[c], Totals(pixels, a, c)))
  }

  function Iterate(pixels: seq<RGB>, cents: seq<RGB>, rounds: nat): (r: seq<RGB>)
    requires |cents| >= 1
    ensures |r| == |cents|
  {
    if rounds == 0 then cents else Step(pixels, Iterate(pixels, cents, rounds - 1))
  }

  /** A centroid nobody is nearest to stays put; one with members moves to their rounded mean. */
  lemma StepMoves(pixels: seq<RGB>, cents: seq<RGB>, c: nat)
    requires |cents| >= 1 && c < |cents|
    ensures (forall i | 0 <= i < |pixels| :: Nearest(pixels[i], cents) != c) ==> Step(pixels, cents)[c] == cents[c]
    ensures (exists i | 0 <= i < |pixels| :: Nearest(pixels[i], cents) == c) ==>
      Totals(pixels, Assign(pixels, cents), c).n > 0 &&
      Step(pixels, cents)[c] == Mean(Totals(pixels, Assign(pixels, cents), c))
  {
    var a := Assign(pixels, cents);
    assert forall i | 0 <= i < |pixels| :: a[i] == Nearest(pixels[i], cents);
    TotalsEmpty(pixels, a, c);
    assert Step(pixels, cents)[c] == Moved(cents[c], Totals(pixels, a, c));
  }

  /** Centroids stay valid colours. */
  lemma StepInGamut(pixels: seq<RGB>, cents: seq<RGB>)
    requires |cents| >= 1
    requires forall p | p in pixels :: InGamut(p)
    requires forall c | c in cents :: InGamut(c)
    ensures forall c | c in Step(pixels, cents) :: InGamut(c)
  {
    var next := Step(pixels, cents);
    forall c | 0 <= c < |next|
      ensures InGamut(next[c])
    {
      var t := Totals(pixels, Assign(pixels, cents), c);
      if t.n > 0 {
        TotalsBounded(pixels, Assign(pixels, cents), c);
        RoundDivInRange(t.r, t.n);
        RoundDivInRange(t.g, t.n);
        RoundDivInRange(t.b, t.n);
      } else {
        assert cents[c] in cents;
      }
    }
  }

  /** A buffer of one colour is a fixed point: every centroid stays that colour. */
  lemma StepUniform(pixels: seq<RGB>, cents: seq<RGB>, col: RGB)
    requires |cents| >= 1
    requires forall p | p in pixels :: p == col
    requires forall c | c in cents :: c == col
    ensures forall c | c in Step(pixels, cents) :: c == col
  {
    var next := Step(pixels, cents);
    forall c | 0 <= c < |next|
      ensures next[c] == col
    {
      var t := Totals(pixels, Assign(pixels, cents), c);
      if t.n > 0 {
        TotalsUniform(pixels, Assign(pixels, cents), c, col);
        RoundDivExact(col.r, t.n);
        RoundDivExact(col.g, t.n);
        RoundDivExact(col.b, t.n);
      } else {
        assert cents[c] in cents;
      }
    }
  }

  lemma {:induction false} IterateInGamut(pixels: seq<RGB>, cents: seq<RGB>, rounds: nat)
    requires |cents| >= 1
    requires forall p | p in pixels :: InGamut(p)
    requires forall c | c in cents :: InGamut(c)
    ensures forall c | c in Iterate(pixels, cents, rounds) :: InGamut(c)
  {
    if rounds > 0 {
      IterateInGamut(pixels, cents, rounds - 1);
      StepInGamut(pixels, Iterate(pixels, cents, rounds - 1));
    }
  }

  lemma {:induction false} IterateUniform(pixels: seq<RGB>, cents: seq<RGB>, rounds: nat, col: RGB)
    requires |cents| >= 1
    requires forall p | p in pixels :: p == col
    requires forall c | c in cents :: c == col
    ensures forall c | c in Iterate(pixels, cents, rounds) :: c == col
  {
    if rounds > 0 {
      IterateUniform(pixels, cents, rounds - 1, col);
      StepUniform(pixels, Iterate(pixels, cents, rounds - 1), col);
    }
  }

  /** The new centroids of one round of the loop are one `Step` of the old ones. */
  lemma StepDone(pixels: seq<RGB>, before: seq<RGB>, assign: seq<nat>, sums: seq<Sum>, after: seq<RGB>)
    requires |before| >= 1 && assign == Assign(pixels, before)
    requires |sums| == |before| == |after|
    requires forall c | 0 <= c < |sums| :: sums[c] == Totals(pixels, assign, c)
    requires forall c | 0 <= c < |after| :: after[c] == Moved(before[c], sums[c])
    ensures after == Step(pixels, before)
  {
  }

  /** Seeding and the `maxIter` rounds of assignment and update. */
  method Cluster(pixels: seq<RGB>, count: nat, maxIter: nat) returns (centroids: array<RGB>)
    requires 1 <= count <= |pixels|
    ensures centroids[..] == Iterate(pixels, Seeds(pixels, count), maxIter)
  {
    var total := |pixels|;
    centroids := new RGB[count](idx requires 0 <= idx < count => pixels[Pick(idx, total, count)]);
    assert centroids[..] == Seeds(pixels, count);
    var assignment := new nat[total](_ => 0);
    for iter := 0 to maxIter
      invariant centroids.Length == count && assignment.Length == total
      invariant centroids[..] == Iterate(pixels, Seeds(pixels, count), iter)
    {
      ghost var before := centroids[..];
      AssignAll(pixels, centroids, assignment);
      var sums := Accumulate(pixels, assignment, count);
      UpdateCentroids(centroids, sums);
      StepDone(pixels, before, assignment[..], sums[..], centroids[..]);
    }
  }

  // ------------------------------------------------------------ ordering

  /** `luma(rgb)`, in exact arithmetic. */
  function Luma(c: RGB): real {
    0.2126 * c.r as real + 0.7152 * c.g as real + 0.0722 * c.b as real
  }

  /** `Math.abs(luma(c) - refY)`: how far a colour's luma is from the reference. */
  function Gap(c: RGB, refY: real): (d: real)
    ensures d >= 0.0
  {
    if Luma(c) >= refY then Luma(c) - refY else refY - Luma(c)
  }

  /** Places `x` after every element whose gap is not larger than its own. */
  function Insert(x: RGB, sorted: seq<RGB>, refY: real): (r: seq<RGB>)
    ensures multiset(r) == multiset(sorted) + multiset{x}
  {
    if sorted == [] then [x]
    else if Gap(x, refY) < Gap(sorted[0], refY) then [x] + sorted
    else
      assert sorted == [sorted[0]] + sorted[1..];
      [sorted[0]] + Insert(x, sorted[1..], refY)
  }

  /** The comparator sort of the centroids by gap, each one inserted after the ones before it. */
  function SortByGap(cs: seq<RGB>, refY: real): (r: seq<RGB>)
    ensures multiset(r) == multiset(cs)
  {
    if cs == [] then []
    else
      assert cs == cs[..|cs| - 1] + [cs[|cs| - 1]];
      Insert(cs[|cs| - 1], SortByGap(cs[..|cs| - 1], refY), refY)
  }

  predicate SortedByGap(cs: seq<RGB>, refY: real) {
    forall i, j | 0 <= i < j < |cs| :: Gap(cs[i], refY) <= Gap(cs[j], refY)
  }

  lemma {:induction false} InsertSorted(x: RGB, sorted: seq<RGB>, refY: real)
    requires SortedByGap(sorted, refY)
    ensures SortedByGap(Insert(x, sorted, refY), refY)
  {
    if sorted != [] {
      if Gap(x, refY) < Gap(sorted[0], refY) {
        SortedCons(x, sorted, refY);
      } else {
        var rest := sorted[1..];
        InsertSorted(x, rest, refY);
        forall y | y in Insert(x, rest, refY)
          ensures Gap(sorted[0], refY) <= Gap(y, refY)
        {
          assert y in multiset(Insert(x, rest, refY));
          if y != x {
            assert y in multiset(rest);
            var k :| 0 <= k < |rest| && rest[k] == y;
            assert sorted[k + 1] == y;
          }
        }
        SortedCons(sorted[0], Insert(x, rest, refY), refY);
      }
    }
  }

  /** A head no farther than anything after it keeps a sorted list sorted. */
  lemma SortedCons(h: RGB, t: seq<RGB>, refY: real)
    requires SortedByGap(t, refY)
    requires forall y | y in t :: Gap(h, refY) <= Gap(y, refY)
    ensures SortedByGap([h] + t, refY)
  {
    var s := [h] + t;
    forall i, j | 0 <= i < j < |s|
      ensures Gap(s[i], refY) <= Gap(s[j], refY)
    {
      assert s[j] == t[j - 1];
      if i > 0 {
        assert s[i] == t[i - 1];
      } else {
        assert t[j - 1] in t;
      }
    }
  }

  /** The ordered result is sorted by gap and holds the same colours as many times as before. */
  lemma {:induction false} SortByGapSorted(cs: seq<RGB>, refY: real)
    ensures SortedByGap(SortByGap(cs, refY), refY)
    ensures multiset(SortByGap(cs, refY)) == multiset(cs)
  {
    if cs != [] {
      SortByGapSorted(cs[..|cs| - 1], refY);
      InsertSorted(cs[|cs| - 1], SortByGap(cs[..|cs| - 1], refY), refY);
    }
  }

  // ------------------------------------------------------------ the whole

  /** `kmeansTopColors(data, k, iterations, sortRef)`, as a function of its inputs. */
  function TopColors(data: seq<Byte>, k: Num, iterations: Num, sortRef: Option<RGB>): seq<RGB> {
    var pixels := Opaque(data, 0);
    if pixels == [] then []
    else
      var cs := Iterate(pixels, Seeds(pixels, ClusterCount(k, |pixels|)), MaxIter(iterations));
      if sortRef.Some? then SortByGap(cs, Luma(sortRef.value)) else cs
  }

  /** `kmeansTopColors` with its parameters `k = 5` and `iterations = 8` left to their defaults. */
  function TopColorsDefault(data: seq<Byte>, sortRef: Option<RGB>): (out: seq<RGB>)
    ensures Opaque(data, 0) == [] ==> out == []
    ensures |Opaque(data, 0)| >= 5 ==> |out| == 5
    ensures 1 <= |Opaque(data, 0)| < 5 ==> |out| == |Opaque(data, 0)|
    ensures var pixels := Opaque(data, 0);
      pixels != [] && sortRef.None? ==> out == Iterate(pixels, Seeds(pixels, ClusterCount(Finite(5.0), |pixels|)), 8)
  {
    TopColorsFacts(data, Finite(5.0), Finite(8.0), sortRef);
    TopColors(data, Finite(5.0), Finite(8.0), sortRef)
  }

  method KMeansTopColors(data: seq<Byte>, k: Num, iterations: Num, sortRef: Option<RGB>) returns (out: seq<RGB>)
    ensures out == TopColors(data, k, iterations, sortRef)
  {
    var pixels := OpaquePixels(data);
    var total := |pixels|;
    if total == 0 {
      return [];
    }
    var clusterCount := ClusterCount(k, total);
    var maxIter := MaxIter(iterations);
    var centroids := Cluster(pixels, clusterCount, maxIter);
    if sortRef.Some? {
      var refY := Luma(sortRef.value);
      out := SortByGap(centroids[..], refY);
    } else {
      out := centroids[..];
    }
  }

  /**
   * What the palette promises: no opaque pixel, no colours; otherwise `clusterCount` valid colours,
   * at most one per opaque pixel; and, given a reference, ordered by closeness in luma without
   * losing or adding a colour.
   */
  lemma TopColorsFacts(data: seq<Byte>, k: Num, iterations: Num, sortRef: Option<RGB>)
    ensures var out := TopColors(data, k, iterations, sortRef);
      var pixels := Opaque(data, 0);
      (out == [] <==> pixels == []) &&
      (pixels != [] ==> |out| == ClusterCount(k, |pixels|) <= |pixels|) &&
      (forall c | c in out :: InGamut(c)) &&
      (sortRef.Some? && pixels != [] ==>
        SortedByGap(out, Luma(sortRef.value)) &&
        multiset(out) == multiset(Iterate(pixels, Seeds(pixels, ClusterCount(k, |pixels|)), MaxIter(iterations))))
  {
    var pixels := Opaque(data, 0);
    if pixels != [] {
      var seeds := Seeds(pixels, ClusterCount(k, |pixels|));
      var cs := Iterate(pixels, seeds, MaxIter(iterations));
      IterateInGamut(pixels, seeds, MaxIter(iterations));
      if sortRef.Some? {
        SortByGapSorted(cs, Luma(sortRef.value));
        assert forall c | c in SortByGap(cs, Luma(sortRef.value)) :: c in multiset(cs);
      }
    }
  }

  /** Ordering keeps a palette of one colour a palette of that colour. */
  lemma SortKeepsUniform(cs: seq<RGB>, refY: real, col: RGB)
    requires forall c | c in cs :: c == col
    ensures forall c | c in SortByGap(cs, refY) :: c == col
  {
    forall c | c in SortByGap(cs, refY)
      ensures c == col
    {
      assert c in multiset(SortByGap(cs, refY));
      assert c in multiset(cs);
      assert c in cs;
    }
  }

  /** A buffer whose opaque pixels are all one colour yields only that colour. */
  lemma TopColorsUniform(data: seq<Byte>, k: Num, iterations: Num, sortRef: Option<RGB>, col: RGB)
    requires forall p | p in Opaque(data, 0) :: p == col
    ensures forall c | c in TopColors(data, k, iterations, sortRef) :: c == col
  {
    var pixels := Opaque(data, 0);
    if pixels != [] {
      var seeds := Seeds(pixels, ClusterCount(k, |pixels|));
      var cs := Iterate(pixels, seeds, MaxIter(iterations));
      IterateUniform(pixels, seeds, MaxIter(iterations), col);
      if sortRef.Some? {
        SortKeepsUniform(cs, Luma(sortRef.value), col);
      }
    }
  }
}
