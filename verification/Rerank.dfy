/**
 Re-ranking candidates by cross-encoder scores. Scores are compared by totalOrder (section 5.10 of
 IEEE 754-2008), so a score is modelled by its 32-bit pattern, NaNs included.
 */
module Rerank {
  import opened Outcomes
  import opened Sorting
  import opened Reals

  type Float = bits: int | 0 <= bits < 0x1_0000_0000

  // The integer that totalOrder compares: sign-magnitude patterns in numeric order.
  function TotalKey(f: Float): int {
    if f < 0x8000_0000 then f else 0x7FFF_FFFF - f
  }

  // ---------- What the patterns mean ----------

  predicate Negative(f: Float) {
    f >= 0x8000_0000
  }

  // The pattern without its sign.
  function Unsigned(f: Float): int {
    if Negative(f) then f - 0x8000_0000 else f
  }

  function Exponent(f: Float): int {
    Unsigned(f) / 0x80_0000
  }

  function Fraction(f: Float): int {
    Unsigned(f) % 0x80_0000
  }

  predicate IsNan(f: Float) {
    Exponent(f) == 255 && Fraction(f) != 0
  }

  predicate IsFinite(f: Float) {
    Exponent(f) < 255
  }

  // The magnitude in units of 2^-149, the least positive subnormal number.
  function Magnitude(f: Float): int
    requires IsFinite(f)
  {
    if Exponent(f) == 0 then Fraction(f) else (0x80_0000 + Fraction(f)) * Power2(Exponent(f) - 1)
  }

  // The number a finite pattern stands for (section 3.4 of IEEE 754-2008).
  function Value(f: Float): real
    requires IsFinite(f)
  {
    var magnitude := Magnitude(f) as real / Power2(149) as real;
    if Negative(f) then -magnitude else magnitude
  }

  // Whether score `a` may stand before score `b`: NaNs by sign at the two ends, infinities next, finite
  // scores by value, and +0 before -0.
  ghost predicate AtLeast(a: Float, b: Float) {
    && (IsFinite(a) && IsFinite(b) ==>
          Value(a) > Value(b) || a == b || (a == 0 && b == 0x8000_0000))
    && (IsNan(b) && !Negative(b) ==> IsNan(a) && !Negative(a) && a >= b)
    && (IsNan(a) && Negative(a) ==> IsNan(b) && Negative(b) && a <= b)
    && (b == 0x7F80_0000 ==> a == b || (IsNan(a) && !Negative(a)))
    && (a == 0xFF80_0000 ==> a == b || (IsNan(b) && Negative(b)))
  }

  lemma ProductGrows(a: int, b: int, p: int)
    requires a < b && p > 0
    ensures a * p < b * p
  {
  }

  // Larger patterns have larger magnitudes.
  lemma MagnitudeGrows(a: Float, b: Float)
    requires IsFinite(a) && IsFinite(b) && Unsigned(a) < Unsigned(b)
    ensures Magnitude(a) < Magnitude(b)
  {
    var d, e := Exponent(a), Exponent(b);
    assert Unsigned(a) == d * 0x80_0000 + Fraction(a) && Unsigned(b) == e * 0x80_0000 + Fraction(b);
    if d == e {
      if d > 0 {
        ProductGrows(0x80_0000 + Fraction(a), 0x80_0000 + Fraction(b), Power2(d - 1));
      }
    } else {
      MagnitudeAtLeast(b);
      if d > 0 {
        PowerGrows(d, e - 1);
        ProductGrows(0x80_0000 + Fraction(a), 0x100_0000, Power2(d - 1));
      }
    }
  }

  lemma MagnitudeAtLeast(f: Float)
    requires IsFinite(f) && Exponent(f) > 0
    ensures Magnitude(f) >= 0x80_0000 * Power2(Exponent(f) - 1)
  {
    if Fraction(f) > 0 {
      ProductGrows(0x80_0000, 0x80_0000 + Fraction(f), Power2(Exponent(f) - 1));
    }
  }

  lemma MagnitudePositive(f: Float)
    requires IsFinite(f)
    ensures Magnitude(f) >= 0 && (Magnitude(f) == 0 <==> Unsigned(f) == 0)
  {
    if Exponent(f) > 0 {
        MagnitudeAtLeast(f);
    }
  }

  lemma Divided(a: int, b: int, p: int)
    requires p > 0
    ensures a < b ==> a as real / p as real < b as real / p as real
    ensures 0 <= a ==> a as real / p as real >= 0.0
    ensures 0 < a ==> a as real / p as real > 0.0
  {
  }

  lemma ValueBySign(a: Float, b: Float)
    requires IsFinite(a) && IsFinite(b) && !Negative(a) && Negative(b)
    ensures Value(a) >= Value(b) && (Value(a) > Value(b) || (a == 0 && b == 0x8000_0000))
  {
    MagnitudePositive(a);
    MagnitudePositive(b);
    Divided(Magnitude(a), Magnitude(a), Power2(149));
    Divided(Magnitude(b), Magnitude(b), Power2(149));
  }

  lemma ValueByMagnitude(a: Float, b: Float)
    requires IsFinite(a) && IsFinite(b) && Negative(a) == Negative(b) && Unsigned(a) < Unsigned(b)
    ensures if Negative(a) then Value(a) > Value(b) else Value(a) < Value(b)
  {
    MagnitudeGrows(a, b);
    Divided(Magnitude(a), Magnitude(b), Power2(149));
  }

  // The patterns of one half and of minus two.
  lemma TwoValues()
    ensures Value(0x3F00_0000) == 0.5 && Value(0xC000_0000) == -2.0
  {
    hide Power2;
    NormalMagnitude(0x3F00_0000);
    NormalMagnitude(0xC000_0000);
    Doubled(148);
    Doubled(149);
    Halved(Power2(149), Power2(148));
    Halved(Power2(150), Power2(149));
  }

  lemma NormalMagnitude(f: Float)
    requires IsFinite(f) && Exponent(f) > 0 && Fraction(f) == 0
    ensures Magnitude(f) == Power2(Exponent(f) + 22)
  {
    Shifted(Exponent(f) - 1);
  }

  lemma Doubled(n: nat)
    ensures Power2(n + 1) == 2 * Power2(n)
  {
  }

  lemma Shifted(n: nat)
    ensures 0x80_0000 * Power2(n) == Power2(n + 23)
  {
    PowerSum(n, 23);
    PowerOf21();
    assert Power2(23) == 2 * (2 * Power2(21));
  }

  lemma Halved(a: int, b: int)
    requires b > 0 && a == 2 * b
    ensures a as real / b as real == 2.0 && b as real / a as real == 0.5
  {
    var x := b as real;
    assert a as real == 2.0 * x;
    assert (2.0 * x) / x == 2.0;
    assert x / (2.0 * x) == 0.5;
  }

  // totalOrder is the order of the numbers, with the NaNs around them.
  lemma KeyMeaning(a: Float, b: Float)
    ensures TotalKey(a) >= TotalKey(b) <==> AtLeast(a, b)
  {
    if IsFinite(a) && IsFinite(b) && a != b {
      hide Value;
      if Negative(a) != Negative(b) {
        if Negative(a) {
          ValueBySign(b, a);
        } else {
          ValueBySign(a, b);
        }
      } else if Unsigned(a) < Unsigned(b) {
        ValueByMagnitude(a, b);
      } else {
        ValueByMagnitude(b, a);
      }
    }
  }

  // ---------- Pairs ----------

  type Pair<+T> = (T, Float)

  // Descending by score.
  function ByScore<T>(): Order<Pair<T>> {
    (a: Pair<T>, b: Pair<T>) => TotalKey(a.1) > TotalKey(b.1)
  }

  function Min(a: nat, b: nat): nat {
    if a <= b then a else b
  }

  // Zipping stops at the shorter sequence.
  function Zip<T>(candidates: seq<T>, scores: seq<Float>): seq<Pair<T>> {
    seq(Min(|candidates|, |scores|), i requires 0 <= i < Min(|candidates|, |scores|) => (candidates[i], scores[i]))
  }

  function Firsts<T>(paired: seq<Pair<T>>): seq<T> {
    seq(|paired|, i requires 0 <= i < |paired| => paired[i].0)
  }

  // ---------- The specification: the stable ranking of the indices ----------

  // Higher score first; of one score the earlier candidate first.
  ghost predicate Precedes(scores: seq<Float>, i: nat, j: nat)
    requires i < |scores| && j < |scores|
  {
    AtLeast(scores[i], scores[j]) && (scores[i] == scores[j] ==> i < j)
  }

  /** `ranking` lists exactly the first `n` indices, in the stable descending order of the scores. */
  ghost predicate IsStableRanking(ranking: seq<nat>, scores: seq<Float>, n: nat)
    requires n <= |scores|
  {
    && (forall i :: i in ranking <==> 0 <= i < n)
    && (forall r, s :: 0 <= r < s < |ranking| ==>
          ranking[r] < n && ranking[s] < n && Precedes(scores, ranking[r], ranking[s]))
  }

  function Key(scores: seq<Float>, i: nat): int {
    if i < |scores| then TotalKey(scores[i]) else 0
  }

  function ByIndex(scores: seq<Float>): Order<nat> {
    (i: nat, j: nat) => Key(scores, i) > Key(scores, j) || (Key(scores, i) == Key(scores, j) && i < j)
  }

  function From(k: nat, n: nat): seq<nat>
    requires k <= n
  {
    seq(n - k, i requires 0 <= i < n - k => k + i)
  }

  function Ranking(scores: seq<Float>, n: nat): seq<nat> {
    SortBy<nat>(From(0, n), ByIndex(scores))
  }

  lemma RankingIsStable(scores: seq<Float>, n: nat)
    requires n <= |scores|
    ensures IsStableRanking(Ranking(scores, n), scores, n) && |Ranking(scores, n)| == n
  {
    var r, before := Ranking(scores, n), ByIndex(scores);
    assert StrictTotal<nat>(before);
    SortStrictly<nat>(From(0, n), before);
    forall i | 0 <= i < n ensures i in From(0, n) {
      assert From(0, n)[i] == i;
    }
    assert forall i: nat :: i in r <==> i in From(0, n);
    StrictlySortedIsStable(r, scores, n);
  }

  lemma StrictlySortedIsStable(r: seq<nat>, scores: seq<Float>, n: nat)
    requires n <= |scores| && StrictlySorted<nat>(r, ByIndex(scores)) && forall i: nat :: i in r <==> i < n
    ensures IsStableRanking(r, scores, n)
  {
    var before := ByIndex(scores);
    forall i: nat, j: nat | i < j < |r| ensures r[i] < n && r[j] < n && Precedes(scores, r[i], r[j]) {
      assert r[i] in r && r[j] in r;
      assert before(r[i], r[j]);
      BeforePrecedes(scores, n, r[i], r[j]);
    }
  }

  lemma BeforePrecedes(scores: seq<Float>, n: nat, i: nat, j: nat)
    requires i < n <= |scores| && j < n
    ensures ByIndex(scores)(i, j) <==> Precedes(scores, i, j)
  {
    hide AtLeast;
    KeyMeaning(scores[i], scores[j]);
  }

  lemma StableIsStrictlySorted(r: seq<nat>, scores: seq<Float>, n: nat)
    requires n <= |scores| && IsStableRanking(r, scores, n)
    ensures StrictlySorted<nat>(r, ByIndex(scores))
  {
    hide Precedes;
    forall i: nat, j: nat | i < j < |r| ensures ByIndex(scores)(r[i], r[j]) {
      assert r[i] in r && r[j] in r;
      BeforePrecedes(scores, n, r[i], r[j]);
    }
  }

  // There is only one such ranking.
  lemma StableRankingUnique(a: seq<nat>, scores: seq<Float>, n: nat)
    requires n <= |scores| && IsStableRanking(a, scores, n)
    ensures a == Ranking(scores, n)
  {
    hide Precedes;
    var b, before := Ranking(scores, n), ByIndex(scores);
    RankingIsStable(scores, n);
    assert StrictTotal<nat>(before);
    StableIsStrictlySorted(a, scores, n);
    StableIsStrictlySorted(b, scores, n);
    StrictlySortedUnique<nat>(a, b, before);
  }

  // ---------- The sort of the pairs is the ranking of their indices ----------

  function At<T>(paired: seq<Pair<T>>, indices: seq<nat>): seq<Pair<T>>
    requires forall r :: 0 <= r < |indices| ==> indices[r] < |paired|
  {
    seq(|indices|, r requires 0 <= r < |indices| => paired[indices[r]])
  }

  lemma {:induction false} InsertAt<T>(paired: seq<Pair<T>>, scores: seq<Float>, k: nat, indices: seq<nat>)
    requires |paired| <= |scores| && forall i :: 0 <= i < |paired| ==> paired[i].1 == scores[i]
    requires k < |paired| && forall r :: 0 <= r < |indices| ==> k < indices[r] < |paired|
    ensures var r := InsertSorted<nat>(k, indices, ByIndex(scores));
            && (forall m :: 0 <= m < |r| ==> k <= r[m] < |paired|)
            && InsertSorted(paired[k], At(paired, indices), ByScore()) == At(paired, r)
  {
    if indices != [] {
      assert At(paired, indices)[1..] == At(paired, indices[1..]);
      InsertAt(paired, scores, k, indices[1..]);
    }
  }

  lemma {:induction false} SortAt<T>(paired: seq<Pair<T>>, scores: seq<Float>, k: nat)
    requires |paired| <= |scores| && forall i :: 0 <= i < |paired| ==> paired[i].1 == scores[i]
    requires k <= |paired|
    ensures var r := SortBy<nat>(From(k, |paired|), ByIndex(scores));
            && (forall m :: 0 <= m < |r| ==> k <= r[m] < |paired|)
            && SortBy(paired[k..], ByScore()) == At(paired, r)
    decreases |paired| - k
  {
    if k < |paired| {
      SortAt(paired, scores, k + 1);
      var n := |paired|;
      assert From(k, n)[1..] == From(k + 1, n);
      assert paired[k..][1..] == paired[k + 1..];
      InsertAt(paired, scores, k, SortBy<nat>(From(k + 1, n), ByIndex(scores)));
    }
  }

  // ---------- Re-ranking ----------

  function Picked<T>(candidates: seq<T>, ranking: seq<nat>): seq<T>
    requires forall r :: 0 <= r < |ranking| ==> ranking[r] < |candidates|
  {
    seq(|ranking|, r requires 0 <= r < |ranking| => candidates[ranking[r]])
  }

  method RerankByScores<T>(candidates: seq<T>, scores: seq<Float>, topK: nat) returns (kept: seq<T>)
    ensures var n := Min(|candidates|, |scores|);
            var ranking := Ranking(scores, n);
            && IsStableRanking(ranking, scores, n)
            && |ranking| == n && (forall r :: 0 <= r < n ==> ranking[r] < n)
            && kept == Picked(candidates, ranking[..Min(n, topK)])
    ensures kept == Firsts(Reranked(Zip(candidates, scores), topK))
  {
    var paired := Zip(candidates, scores);
    SortedByRanking(candidates, scores);
    paired := SortBy(paired, ByScore());
    if |paired| > topK {
      paired := paired[..topK];
    }
    kept := Firsts(paired);
  }

  // Sorting the pairs puts the candidates in the order of the ranking.
  lemma SortedByRanking<T>(candidates: seq<T>, scores: seq<Float>)
    ensures var n, sorted := Min(|candidates|, |scores|), SortBy(Zip(candidates, scores), ByScore());
            var ranking := Ranking(scores, n);
            && IsStableRanking(ranking, scores, n) && |ranking| == |sorted| == n
            && forall r :: 0 <= r < n ==> ranking[r] < n && sorted[r].0 == candidates[ranking[r]]
  {
    var paired := Zip(candidates, scores);
    RankingIsStable(scores, |paired|);
    SortAt(paired, scores, 0);
    assert paired[0..] == paired;
  }

  // The same as a function, for the pipeline and for the laws below.
  function Reranked<T>(paired: seq<Pair<T>>, topK: nat): (kept: seq<Pair<T>>)
    ensures |kept| == Min(|paired|, topK)
  {
    SortPermutes(paired, ByScore());
    SortBy(paired, ByScore())[..Min(|paired|, topK)]
  }

  function Dropped<T>(paired: seq<Pair<T>>, topK: nat): seq<Pair<T>> {
    SortPermutes(paired, ByScore());
    SortBy(paired, ByScore())[Min(|paired|, topK)..]
  }

  lemma ByScoreIsWeak<T(!new)>()
    ensures StrictWeak<Pair<T>>(ByScore<T>())
  {
  }

  // Every kept score is at least every dropped one, as numbers if they are finite.
  lemma KeptAboveDropped<T(!new)>(paired: seq<Pair<T>>, topK: nat)
    ensures multiset(paired) == multiset(Reranked(paired, topK)) + multiset(Dropped(paired, topK))
    ensures forall x, y :: x in Reranked(paired, topK) && y in Dropped(paired, topK) ==>
              AtLeast(x.1, y.1) && (IsFinite(x.1) && IsFinite(y.1) ==> Value(x.1) >= Value(y.1))
  {
    hide AtLeast, IsFinite;
    var sorted := SortBy(paired, ByScore());
    ByScoreIsWeak<T>();
    SortPermutes(paired, ByScore());
    SortSorts(paired, ByScore());
    assert sorted == Reranked(paired, topK) + Dropped(paired, topK);
    forall x, y | x in Reranked(paired, topK) && y in Dropped(paired, topK)
      ensures AtLeast(x.1, y.1) && (IsFinite(x.1) && IsFinite(y.1) ==> Value(x.1) >= Value(y.1))
    {
      var n := Min(|paired|, topK);
      var i :| 0 <= i < n && sorted[i] == x;
      var j :| n <= j < |sorted| && sorted[j] == y;
      assert TotalKey(x.1) >= TotalKey(y.1);
      KeyMeaning(x.1, y.1);
      if IsFinite(x.1) && IsFinite(y.1) {
        ValueFollows(x.1, y.1);
      }
    }
  }

  lemma ValueFollows(a: Float, b: Float)
    requires AtLeast(a, b) && IsFinite(a) && IsFinite(b)
    ensures Value(a) >= Value(b)
  {
    if a == 0 && b == 0x8000_0000 {
      ValueBySign(a, b);
    }
  }

  // Re-ranking twice with the same scores is re-ranking once to the smaller size.
  lemma RerankTwice<T(!new)>(paired: seq<Pair<T>>, first: nat, second: nat)
    requires second <= first
    ensures Reranked(Reranked(paired, first), second) == Reranked(paired, second)
  {
    var sorted := SortBy(paired, ByScore());
    ByScoreIsWeak<T>();
    SortPermutes(paired, ByScore());
    SortSorts(paired, ByScore());
    SortOfSorted(sorted[..Min(|paired|, first)], ByScore());
  }

  // ---------- The scorer ----------

  datatype RerankError = ScorerFailed | ScoreCount

  // `scored` is what the scorer returns when it is called.
  function RerankCandidates<T>(
    candidates: seq<T>, topK: nat, scored: Option<seq<Float>>): (r: Result<seq<T>, RerankError>)
    ensures candidates == [] || topK == 0 ==> r == Ok([])
    ensures r.Ok? ==> |r.value| <= topK && forall c :: c in r.value ==> c in candidates
  {
    if candidates == [] || topK == 0 then Ok([])
    else
      match scored
      case None => Err(ScorerFailed)
      case Some(scores) =>
        if |scores| != |candidates| then Err(ScoreCount)
        else
          RerankedFrom(candidates, scores, topK);
          Ok(Firsts(Reranked(Zip(candidates, scores), topK)))
  }

  lemma RerankedFrom<T>(candidates: seq<T>, scores: seq<Float>, topK: nat)
    ensures forall c :: c in Firsts(Reranked(Zip(candidates, scores), topK)) ==> c in candidates
  {
    var paired := Zip(candidates, scores);
    var kept := Reranked(paired, topK);
    SortPermutes(paired, ByScore());
    forall r | 0 <= r < |kept| ensures kept[r].0 in candidates {
      assert kept[r] in SortBy(paired, ByScore());
      assert kept[r] in multiset(SortBy(paired, ByScore()));
      assert kept[r] in paired;
      var i :| 0 <= i < |paired| && paired[i] == kept[r];
      assert candidates[i] == kept[r].0;
    }
  }

  // The scorer is consulted only when there is something to rank; its scores must match in number,
  // and the result is then the head of the stable ranking.
  lemma RerankCandidatesExactly<T>(candidates: seq<T>, topK: nat, scored: Option<seq<Float>>)
    ensures var r := RerankCandidates(candidates, topK, scored);
            && (r.Ok? <==> candidates == [] || topK == 0 || (scored.Some? && |scored.value| == |candidates|))
            && (r.Ok? && candidates != [] && topK > 0 ==>
                  var n := |candidates|;
                  var ranking := Ranking(scored.value, n);
                  && IsStableRanking(ranking, scored.value, n) && |ranking| == n
                  && |r.value| == Min(n, topK)
                  && forall a :: 0 <= a < Min(n, topK) ==> ranking[a] < n && r.value[a] == candidates[ranking[a]])
  {
    if candidates != [] && topK > 0 && scored.Some? && |scored.value| == |candidates| {
      var paired, ranking := Zip(candidates, scored.value), Ranking(scored.value, |candidates|);
      RankingIsStable(scored.value, |candidates|);
      SortAt(paired, scored.value, 0);
      assert paired[0..] == paired;
      SortPermutes(paired, ByScore());
    }
  }
}
