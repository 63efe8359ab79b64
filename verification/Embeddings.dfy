/**
 The flat embedding buffer and its normalisation in place, over the reals. The square root is a
 parameter with its defining property.
 */
module Embeddings {
  import opened Outcomes
  import opened Reals
  import opened Cache

  const USIZE_MAX := 0xFFFF_FFFF_FFFF_FFFF

  // 2^-126, the least positive normal single-precision number.
  const MIN_POSITIVE: real := 1.0 / 85070591730234615865843651857942052864.0

  // ---------- The buffer ----------

  datatype BufferError = DimensionOverflow | LengthMismatch

  datatype EmbeddingBatch = EmbeddingBatch(data: seq<real>, dim: nat, count: nat) {
    // What construction guarantees.
    predicate Valid() {
      |data| == count * dim <= USIZE_MAX
    }

    function Row(idx: nat): Option<seq<real>> {
      if idx >= count || dim == 0 then None
      else
        var start := idx * dim;
        var end := start + dim;
        if start > USIZE_MAX || end > USIZE_MAX || end > |data| then None else Some(data[start..end])
    }

    // The rows from `from` on that exist.
    function RowsFrom(from: nat): seq<seq<real>>
      decreases count - from
    {
      if from >= count then []
      else (match Row(from) case Some(row) => [row] case None => []) + RowsFrom(from + 1)
    }

    function IntoVecs(): seq<seq<real>> {
      if dim == 0 then [] else RowsFrom(0)
    }
  }

  function TryNew(data: seq<real>, dim: nat, count: nat): (r: Result<EmbeddingBatch, BufferError>)
    ensures r.Ok? <==> count * dim <= USIZE_MAX && |data| == count * dim
    ensures r == Err(DimensionOverflow) <==> count * dim >= 0x1_0000_0000_0000_0000
    ensures r.Ok? ==> r.value.Valid() && r.value.data == data && r.value.dim == dim && r.value.count == count
  {
    if count * dim > USIZE_MAX then Err(DimensionOverflow)
    else if |data| != count * dim then Err(LengthMismatch)
    else Ok(EmbeddingBatch(data, dim, count))
  }

  function Flatten(rows: seq<seq<real>>): seq<real> {
    if rows == [] then [] else rows[0] + Flatten(rows[1..])
  }

  lemma RowEnd(idx: nat, count: nat, dim: nat)
    requires idx < count
    ensures (idx + 1) * dim == idx * dim + dim <= count * dim
  {
    var rest := count - idx - 1;
    assert count * dim == (idx + 1 + rest) * dim == (idx + 1) * dim + rest * dim;
  }

  // Every index below the count is in bounds.
  lemma RowInBounds(b: EmbeddingBatch, idx: nat)
    requires b.Valid() && b.dim > 0
    ensures b.Row(idx).Some? <==> idx < b.count
    ensures idx < b.count ==> idx * b.dim + b.dim <= |b.data|
                              && b.Row(idx) == Some(b.data[idx * b.dim..idx * b.dim + b.dim])
  {
    if idx < b.count {
      RowEnd(idx, b.count, b.dim);
    }
  }

  // The rows from `from` on are the data from `lo`, where row `from` begins.
  lemma {:induction false} RowsFromConcat(b: EmbeddingBatch, from: nat, lo: nat)
    requires b.Valid() && b.dim > 0 && from <= b.count && lo == from * b.dim <= |b.data|
    ensures |b.RowsFrom(from)| == b.count - from && Flatten(b.RowsFrom(from)) == b.data[lo..]
    ensures forall i :: 0 <= i < |b.RowsFrom(from)| ==> |b.RowsFrom(from)[i]| == b.dim
    decreases b.count - from
  {
    if from < b.count {
      RowEnd(from, b.count, b.dim);
      RowInBounds(b, from);
      RowsFromConcat(b, from + 1, lo + b.dim);
      var row := b.data[lo..lo + b.dim];
      assert b.RowsFrom(from) == [row] + b.RowsFrom(from + 1);
      assert b.data[lo..] == row + b.data[lo + b.dim..];
    }
  }

  // The rows concatenate back to the buffer; only a zero dimension loses their number.
  lemma IntoVecsConcat(b: EmbeddingBatch)
    requires b.Valid()
    ensures Flatten(b.IntoVecs()) == b.data
    ensures |b.IntoVecs()| == b.count <==> b.dim > 0 || b.count == 0
    ensures forall i :: 0 <= i < |b.IntoVecs()| ==> |b.IntoVecs()[i]| == b.dim
  {
    if b.dim > 0 {
      RowsFromConcat(b, 0, 0);
    }
  }

  // ---------- Normalisation ----------

  function Abs(x: real): real {
    if x < 0.0 then -x else x
  }

  function MaxAbs(s: seq<real>): (m: real)
    ensures m >= 0.0
  {
    if s == [] then 0.0
    else
      var before, last := MaxAbs(s[..|s| - 1]), Abs(s[|s| - 1]);
      if last > before then last else before
  }

  lemma {:induction false} MaxAbsIsGreatest(s: seq<real>)
    ensures forall i :: 0 <= i < |s| ==> Abs(s[i]) <= MaxAbs(s)
    ensures MaxAbs(s) > 0.0 ==> exists i :: 0 <= i < |s| && Abs(s[i]) == MaxAbs(s)
  {
    if s != [] {
      var n := |s| - 1;
      MaxAbsIsGreatest(s[..n]);
      assert forall i :: 0 <= i < n ==> s[..n][i] == s[i];
    }
  }

  function Scaled(s: seq<real>, c: real): seq<real> {
    seq(|s|, i requires 0 <= i < |s| => Times(s[i], c))
  }

  ghost predicate IsSqrt(sqrt: real -> real) {
    forall x :: x >= 0.0 ==> sqrt(x) >= 0.0 && Times(sqrt(x), sqrt(x)) == x
  }

  // The sum of the squares of the entries divided by the greatest magnitude.
  function ScaledSum(s: seq<real>): real
    requires MaxAbs(s) > 0.0
  {
    Dot(Scaled(s, 1.0 / MaxAbs(s)), Scaled(s, 1.0 / MaxAbs(s)))
  }

  function Norm(s: seq<real>, sqrt: real -> real): real
    requires MaxAbs(s) > 0.0
  {
    Times(MaxAbs(s), sqrt(ScaledSum(s)))
  }

  predicate Degenerate(s: seq<real>, sqrt: real -> real) {
    MaxAbs(s) == 0.0 || Norm(s, sqrt) <= MIN_POSITIVE
  }

  function Normalized(s: seq<real>, sqrt: real -> real): (t: seq<real>)
    ensures |t| == |s|
  {
    if Degenerate(s, sqrt) then s
    else Scaled(s, 1.0 / Norm(s, sqrt))
  }

  lemma ScaledPrefix(s: seq<real>, c: real, n: nat)
    requires n <= |s|
    ensures Scaled(s, c)[..n] == Scaled(s[..n], c)
  {
  }

  lemma {:induction false} DotScaled(s: seq<real>, c: real)
    ensures Dot(Scaled(s, c), Scaled(s, c)) == Times(Times(c, c), Dot(s, s))
  {
    if s != [] {
      var n := |s| - 1;
      DotScaled(s[..n], c);
      ScaledPrefix(s, c, n);
      SquareOfProduct(s[n], c);
      TimesCommutative(Times(s[n], s[n]), Times(c, c));
      TimesDistributes(Times(c, c), Dot(s[..n], s[..n]), Times(s[n], s[n]));
    }
  }

  // Each square is at most 1, so their sum is at most the dimension.
  lemma {:induction false} SquaresAtMost(s: seq<real>)
    requires forall i :: 0 <= i < |s| ==> -1.0 <= s[i] <= 1.0
    ensures 0.0 <= Dot(s, s) <= |s| as real
  {
    if s != [] {
      var n := |s| - 1;
      SquaresAtMost(s[..n]);
      SquareBelowOne(s[n]);
      assert Square(s[n]) >= 0.0;
    }
  }

  lemma {:induction false} SquaresAtLeast(s: seq<real>, i: nat)
    requires i < |s|
    ensures Dot(s, s) >= Times(s[i], s[i])
  {
    var n := |s| - 1;
    DotPositive(s[..n]);
    assert Square(s[n]) >= 0.0;
    if i < n {
      SquaresAtLeast(s[..n], i);
    }
  }

  lemma {:induction false} DotPositive(s: seq<real>)
    ensures Dot(s, s) >= 0.0
  {
    if s != [] {
      DotPositive(s[..|s| - 1]);
      assert Square(s[|s| - 1]) >= 0.0;
    }
  }

  lemma DividedByMax(x: real, m: real)
    requires m > 0.0 && Abs(x) <= m
    ensures -1.0 <= Times(x, 1.0 / m) <= 1.0
    ensures Abs(x) == m ==> Times(Times(x, 1.0 / m), Times(x, 1.0 / m)) == 1.0
  {
    var inv := 1.0 / m;
    Inverse(m);
    TimesCommutative(inv, m);
    TimesMonotone(x, m, inv);
    TimesMonotone(-m, x, inv);
    assert Times(-m, inv) == -Times(m, inv);
    if x == -m {
      assert Times(-1.0, -1.0) == 1.0;
    }
  }

  // The scaled sum cannot overflow: it lies between 1 and the dimension.
  lemma ScaledSumBetween(s: seq<real>)
    requires MaxAbs(s) > 0.0
    ensures 1.0 <= ScaledSum(s) <= |s| as real
  {
    var m := MaxAbs(s);
    var t := Scaled(s, 1.0 / m);
    MaxAbsIsGreatest(s);
    forall i | 0 <= i < |s| ensures -1.0 <= t[i] <= 1.0 {
      DividedByMax(s[i], m);
    }
    var i :| 0 <= i < |s| && Abs(s[i]) == m;
    DividedByMax(s[i], m);
    SquaresAtMost(t);
    SquaresAtLeast(t, i);
  }

  // The scaled computation gives the Euclidean norm, and it is at least the greatest magnitude.
  lemma NormIsEuclidean(s: seq<real>, sqrt: real -> real)
    requires MaxAbs(s) > 0.0 && IsSqrt(sqrt)
    ensures Times(Norm(s, sqrt), Norm(s, sqrt)) == Dot(s, s)
    ensures Norm(s, sqrt) >= MaxAbs(s)
  {
    var m := MaxAbs(s);
    var r := sqrt(ScaledSum(s));
    ScaledSumBetween(s);
    DotScaled(s, 1.0 / m);
    Inverse(m);
    TimesCommutative(1.0 / m, m);
    SquareOfProduct(m, r);
    SquaresCancel(m, 1.0 / m, Dot(s, s));
    RootAboveOne(r);
    TimesMonotone(1.0, r, m);
    TimesCommutative(m, r);
  }

  // A slice is left alone exactly when it is degenerate; otherwise it becomes a positive multiple
  // of itself with length one.
  lemma NormalizedMeaning(s: seq<real>, sqrt: real -> real)
    requires IsSqrt(sqrt)
    ensures var t := Normalized(s, sqrt);
            if Degenerate(s, sqrt) then t == s
            else Unit(t) && 1.0 / Norm(s, sqrt) > 0.0 && t == Scaled(s, 1.0 / Norm(s, sqrt))
  {
    if !Degenerate(s, sqrt) {
      var n := Norm(s, sqrt);
      NormIsEuclidean(s, sqrt);
      Inverse(n);
      DotScaled(s, 1.0 / n);
      SquareOfProduct(1.0 / n, n);
    }
  }

  // In terms of the vector alone: one of length at most 2^-126 is left as it is, any other becomes a positive
  // multiple of itself of length one.
  lemma NormalizedExactly(s: seq<real>, sqrt: real -> real)
    requires IsSqrt(sqrt)
    ensures var t, least := Normalized(s, sqrt), 1.0 / Power2(126) as real;
            if Dot(s, s) <= Times(least, least) then t == s
            else Dot(t, t) == 1.0 && exists c: real :: c > 0.0 && t == Scaled(s, c)
  {
    PowerOf126();
    hide Power2, Dot;
    var least := 1.0 / Power2(126) as real;
    assert MIN_POSITIVE == least > 0.0;
    NormalizedMeaning(s, sqrt);
    if MaxAbs(s) == 0.0 {
      MaxAbsIsGreatest(s);
      DotOfZeros(s);
      TimesPositive(least, least);
    } else {
      var n := Norm(s, sqrt);
      NormIsEuclidean(s, sqrt);
      SquaresOrdered(n, least);
    }
  }

  lemma SquaresOrdered(a: real, b: real)
    requires a >= 0.0 && b > 0.0
    ensures Times(a, a) <= Times(b, b) <==> a <= b
  {
    if a <= b {
      TimesMonotone(a, b, a);
      TimesMonotone(a, b, b);
      TimesCommutative(a, b);
    } else {
      TimesStrict(b, a, b);
      TimesStrict(b, a, a);
      TimesCommutative(a, b);
    }
  }

  lemma {:induction false} DotOfZeros(s: seq<real>)
    requires forall i :: 0 <= i < |s| ==> s[i] == 0.0
    ensures Dot(s, s) == 0.0
  {
    if s != [] {
      DotOfZeros(s[..|s| - 1]);
    }
  }

  // A unit vector is its own normalisation.
  lemma UnitIsFixed(t: seq<real>, sqrt: real -> real)
    requires IsSqrt(sqrt) && Unit(t)
    ensures Normalized(t, sqrt) == t
  {
    if MaxAbs(t) == 0.0 {
      MaxAbsIsGreatest(t);
      DotOfZeros(t);
    } else {
      NormIsEuclidean(t, sqrt);
      RootOfOne(Norm(t, sqrt));
      assert 1.0 / 1.0 == 1.0;
      assert Scaled(t, 1.0) == t;
    }
  }

  // Normalising twice is normalising once.
  lemma NormalizeIdempotent(s: seq<real>, sqrt: real -> real)
    requires IsSqrt(sqrt)
    ensures Normalized(Normalized(s, sqrt), sqrt) == Normalized(s, sqrt)
  {
    NormalizedMeaning(s, sqrt);
    if !Degenerate(s, sqrt) {
      UnitIsFixed(Normalized(s, sqrt), sqrt);
    }
  }

  // What the engine produces for text with a non-degenerate embedding.
  ghost predicate IsNormalized(v: seq<real>, sqrt: real -> real) {
    exists raw :: !Degenerate(raw, sqrt) && v == Normalized(raw, sqrt)
  }

  // With such embeddings in the cache and in the query, a similarity hit is close in the metric sense.
  lemma NormalizedHitIsClose<R(!new)>(es: seq<Entry<R>>, v: seq<real>, threshold: real, sqrt: real -> real)
    requires IsSqrt(sqrt) && IsNormalized(v, sqrt) && forall e :: e in es ==> IsNormalized(e.embedding, sqrt)
    ensures var hit := FindSimilar(es, v, threshold);
            hit.Some? ==>
              && Comparable(es[hit.value], v)
              && DistanceSquared(es[hit.value].embedding, v) <= 2.0 - 2.0 * threshold
  {
    forall u | IsNormalized(u, sqrt) ensures Unit(u) {
      var raw :| !Degenerate(raw, sqrt) && u == Normalized(raw, sqrt);
      NormalizedMeaning(raw, sqrt);
    }
    SimilarHitIsClose(es, v, threshold);
  }

  // ---------- In place ----------

  method SliceMaxAbs(a: array<real>, lo: nat, hi: nat) returns (maxAbs: real)
    requires lo <= hi <= a.Length
    ensures maxAbs == MaxAbs(a[lo..hi])
  {
    maxAbs := 0.0;
    for i := lo to hi
      invariant maxAbs == MaxAbs(a[lo..i])
    {
      assert a[lo..i + 1][..i - lo] == a[lo..i];
      if Abs(a[i]) > maxAbs {
        maxAbs := Abs(a[i]);
      }
    }
  }

  method SliceScaledSum(a: array<real>, lo: nat, hi: nat, invMax: real) returns (sum: real)
    requires lo <= hi <= a.Length
    ensures sum == Dot(Scaled(a[lo..hi], invMax), Scaled(a[lo..hi], invMax))
  {
    sum := 0.0;
    for i := lo to hi
      invariant sum == Dot(Scaled(a[lo..i], invMax), Scaled(a[lo..i], invMax))
    {
      ScaledPrefix(a[lo..i + 1], invMax, i - lo);
      assert a[lo..i + 1][..i - lo] == a[lo..i];
      sum := sum + Times(Times(a[i], invMax), Times(a[i], invMax));
    }
  }

  method ScaleSlice(a: array<real>, lo: nat, hi: nat, c: real)
    requires lo <= hi <= a.Length
    modifies a
    ensures a[..] == old(a[..lo]) + Scaled(old(a[lo..hi]), c) + old(a[hi..])
  {
    for i := lo to hi
      invariant forall k :: lo <= k < i ==> a[k] == Times(old(a[k]), c)
      invariant forall k :: 0 <= k < a.Length && !(lo <= k < i) ==> a[k] == old(a[k])
    {
      a[i] := Times(a[i], c);
    }
  }

  // Normalises `a[lo..hi]` and touches nothing else.
  method NormalizeVectorSlice(a: array<real>, lo: nat, hi: nat, sqrt: real -> real)
    requires lo <= hi <= a.Length && IsSqrt(sqrt)
    modifies a
    ensures a[..] == old(a[..lo]) + Normalized(old(a[lo..hi]), sqrt) + old(a[hi..])
  {
    assert a[..] == a[..lo] + a[lo..hi] + a[hi..];
    var maxAbs := SliceMaxAbs(a, lo, hi);
    if maxAbs == 0.0 {
      return;
    }
    var scaledSum := SliceScaledSum(a, lo, hi, 1.0 / maxAbs);
    var norm := Times(maxAbs, sqrt(scaledSum));
    if norm <= MIN_POSITIVE {
      return;
    }
    ScaleSlice(a, lo, hi, 1.0 / norm);
  }

  ghost predicate KeepsLength(f: seq<real> -> seq<real>) {
    forall s :: |f(s)| == |s|
  }

  // Every full row of a flat buffer mapped by itself; a partial last row is left alone.
  function MapRows(data: seq<real>, dim: nat, f: seq<real> -> seq<real>): seq<real>
    requires dim > 0
  {
    if |data| < dim then data else f(data[..dim]) + MapRows(data[dim..], dim, f)
  }

  function Normalizer(sqrt: real -> real): seq<real> -> seq<real> {
    (s: seq<real>) => Normalized(s, sqrt)
  }

  // Normalises the first row of what is left of the buffer.
  method NormalizeNext(
    a: array<real>, lo: nat, dim: nat, sqrt: real -> real, ghost done: seq<real>, ghost rest: seq<real>)
    requires a[..] == done + rest && lo == |done| && dim <= |rest| && IsSqrt(sqrt)
    modifies a
    ensures a[..] == done + Normalizer(sqrt)(rest[..dim]) + rest[dim..]
  {
    CutRow(a[..], done, rest, dim);
    assert a[..lo] == a[..][..lo] && a[lo..lo + dim] == a[..][lo..lo + dim] && a[lo + dim..] == a[..][lo + dim..];
    NormalizeVectorSlice(a, lo, lo + dim, sqrt);
  }

  lemma MapRowsSplit(done: seq<real>, rest: seq<real>, dim: nat, f: seq<real> -> seq<real>)
    requires 0 < dim <= |rest|
    ensures done + MapRows(rest, dim, f) == (done + f(rest[..dim])) + MapRows(rest[dim..], dim, f)
  {
  }

  method NormalizeRows(a: array<real>, dim: nat, sqrt: real -> real)
    requires dim > 0 && IsSqrt(sqrt)
    modifies a
    ensures a[..] == MapRows(old(a[..]), dim, Normalizer(sqrt))
  {
    ghost var f, before := Normalizer(sqrt), a[..];
    ghost var done: seq<real>, rest := [], before;
    var lo := 0;
    while lo + dim <= a.Length
      invariant lo == |done| && a[..] == done + rest
      invariant MapRows(before, dim, f) == done + MapRows(rest, dim, f)
      invariant KeepsLength(f)
      decreases a.Length - lo
    {
      MapRowsSplit(done, rest, dim, f);
      NormalizeNext(a, lo, dim, sqrt, done, rest);
      done, rest, lo := done + f(rest[..dim]), rest[dim..], lo + dim;
    }
  }

  lemma CutRow(all: seq<real>, done: seq<real>, rest: seq<real>, dim: nat)
    requires all == done + rest && dim <= |rest|
    ensures all[..|done|] == done
    ensures all[|done|..|done| + dim] == rest[..dim] && all[|done| + dim..] == rest[dim..]
  {
  }

  lemma MapRowsNext(data: seq<real>, dim: nat, f: seq<real> -> seq<real>)
    requires dim > 0 && |data| >= dim
    ensures MapRows(data, dim, f) == f(data[..dim]) + MapRows(data[dim..], dim, f)
  {
  }

  // Where row `idx` begins.
  function RowStart(idx: nat, dim: nat): nat {
    if idx == 0 then 0 else RowStart(idx - 1, dim) + dim
  }

  lemma {:induction false} RowStartIsProduct(idx: nat, dim: nat)
    ensures RowStart(idx, dim) == idx * dim
  {
    if idx > 0 {
      RowStartIsProduct(idx - 1, dim);
      RowEnd(idx - 1, idx, dim);
    }
  }

  lemma {:induction false} MapRowsLength(data: seq<real>, dim: nat, f: seq<real> -> seq<real>)
    requires dim > 0 && KeepsLength(f)
    ensures |MapRows(data, dim, f)| == |data|
  {
    if |data| >= dim {
      MapRowsLength(data[dim..], dim, f);
    }
  }

  lemma {:induction false} MapRowsAt(data: seq<real>, dim: nat, f: seq<real> -> seq<real>, idx: nat)
    requires dim > 0 && KeepsLength(f) && RowStart(idx, dim) + dim <= |data|
    ensures |MapRows(data, dim, f)| == |data|
    ensures var lo := RowStart(idx, dim); MapRows(data, dim, f)[lo..lo + dim] == f(data[lo..lo + dim])
    decreases idx
  {
    MapRowsLength(data, dim, f);
    MapRowsNext(data, dim, f);
    if idx > 0 {
      var lo := RowStart(idx - 1, dim);
      MapRowsAt(data[dim..], dim, f, idx - 1);
      assert data[dim..][lo..lo + dim] == data[lo + dim..lo + dim + dim];
      assert MapRows(data, dim, f)[lo + dim..lo + dim + dim] == MapRows(data[dim..], dim, f)[lo..lo + dim];
    }
  }

  // What does not fill a row stays as it is.
  lemma {:induction false} MapRowsRest(data: seq<real>, dim: nat, f: seq<real> -> seq<real>, idx: nat)
    requires dim > 0 && KeepsLength(f) && RowStart(idx, dim) <= |data| < RowStart(idx, dim) + dim
    ensures |MapRows(data, dim, f)| == |data|
    ensures MapRows(data, dim, f)[RowStart(idx, dim)..] == data[RowStart(idx, dim)..]
    decreases idx
  {
    MapRowsLength(data, dim, f);
    if idx > 0 {
      var lo := RowStart(idx - 1, dim);
      MapRowsNext(data, dim, f);
      MapRowsRest(data[dim..], dim, f, idx - 1);
      assert data[dim..][lo..] == data[lo + dim..];
      assert MapRows(data, dim, f)[lo + dim..] == MapRows(data[dim..], dim, f)[lo..];
    }
  }

  // Every row of a normalised buffer is the normalisation of that row, whatever the others hold.
  lemma BatchRows(b: EmbeddingBatch, sqrt: real -> real, idx: nat)
    requires b.Valid() && b.dim > 0 && b.Row(idx).Some?
    ensures var n := EmbeddingBatch(MapRows(b.data, b.dim, Normalizer(sqrt)), b.dim, b.count);
            n.Valid() && n.Row(idx) == Some(Normalized(b.Row(idx).value, sqrt))
  {
    var f := Normalizer(sqrt);
    RowInBounds(b, idx);
    RowStartIsProduct(idx, b.dim);
    MapRowsAt(b.data, b.dim, f, idx);
    RowInBounds(EmbeddingBatch(MapRows(b.data, b.dim, f), b.dim, b.count), idx);
  }
}
