/**
 Reciprocal rank fusion of a dense and a lexical ranking, with scores over the reals. The order in
 which the score map is drained is arbitrary.
 */
module RankFusion {
  import opened Sequences
  import opened Sorting

  // The contribution of a place in one ranking; places count from 1. Where floats divide by zero it is left
  // at 0 here.
  function Reciprocal(k: real, place: nat): real {
    if Denominator(k, place) == 0.0 then 0.0 else 1.0 / Denominator(k, place)
  }

  function Denominator(k: real, place: nat): real {
    k + place as real
  }

  // No place of the ranking divides by zero.
  ghost predicate Divisible(k: real, ranking: seq<string>) {
    forall place: nat :: 0 < place <= |ranking| ==> Denominator(k, place) != 0.0
  }

  // The sum of the contributions of every occurrence of the id.
  function Score(ranking: seq<string>, k: real, id: string): real
  {
    if ranking == [] then 0.0
    else
      var n := |ranking|;
      Score(ranking[..n - 1], k, id) + if ranking[n - 1] == id then Reciprocal(k, n) else 0.0
  }

  function Fused(dense: seq<string>, lexical: seq<string>, k: real, id: string): real
  {
    Score(dense, k, id) + Score(lexical, k, id)
  }

  // Score descending, then id ascending.
  predicate Before(a: (string, real), b: (string, real)) {
    a.1 > b.1 || (a.1 == b.1 && Less(a.0, b.0))
  }

  lemma BeforeIsStrictTotal()
    ensures StrictTotal(Before)
  {
    forall a: (string, real), b: (string, real)
      ensures !Before(a, a) && (a != b ==> Before(a, b) || Before(b, a))
    {
      LessTotal(a.0, a.0);
      LessTotal(a.0, b.0);
    }
    forall a: (string, real), b: (string, real), c: (string, real) | Before(a, b) && Before(b, c)
      ensures Before(a, c)
    {
      if Less(a.0, b.0) && Less(b.0, c.0) {
        LessTransitive(a.0, b.0, c.0);
      }
    }
  }

  /** The fused ranking: strictly ordered, over exactly the ids of both inputs, with their scores. */
  ghost predicate IsFusion(res: seq<(string, real)>, dense: seq<string>, lexical: seq<string>, k: real)
  {
    && StrictlySorted(res, Before)
    && (forall x :: x in res <==> (x.0 in dense || x.0 in lexical) && x.1 == Fused(dense, lexical, k, x.0))
  }

  // Text order, place by place: a proper prefix, or smaller where the two first differ.
  ghost predicate Smaller(a: string, b: string) {
    exists p :: SmallerAt(a, b, p)
  }

  ghost predicate SmallerAt(a: string, b: string, p: int) {
    0 <= p < |b| && p <= |a| && a[..p] == b[..p] && (p == |a| || a[p] < b[p])
  }

  // The better score stands first, and of two equal scores the smaller id.
  ghost predicate Above(a: (string, real), b: (string, real)) {
    a.1 > b.1 || (a.1 == b.1 && Smaller(a.0, b.0))
  }

  lemma {:induction false} LessIsSmaller(a: string, b: string)
    ensures Less(a, b) <==> Smaller(a, b)
  {
    if a == "" || b == "" {
      assert b != "" ==> SmallerAt(a, b, 0);
    } else {
      LessIsSmaller(a[1..], b[1..]);
      if p :| SmallerAt(a[1..], b[1..], p) {
        if a[0] == b[0] {
          assert a[..p + 1] == [a[0]] + a[1..][..p] && b[..p + 1] == [b[0]] + b[1..][..p];
          assert SmallerAt(a, b, p + 1);
        }
      }
      if p :| SmallerAt(a, b, p) {
        if p > 0 {
          assert a[0] == a[..p][0] == b[..p][0] == b[0];
          assert a[1..][..p - 1] == a[..p][1..] && b[1..][..p - 1] == b[..p][1..];
          assert SmallerAt(a[1..], b[1..], p - 1);
        }
      }
      if a[0] < b[0] {
        assert SmallerAt(a, b, 0);
      }
    }
  }

  // A fused ranking is in this order, and an occurrence at a place adds the reciprocal of the place plus k.
  lemma FusionMeaning(res: seq<(string, real)>, dense: seq<string>, lexical: seq<string>, k: real)
    requires IsFusion(res, dense, lexical, k)
    ensures forall i, j :: 0 <= i < j < |res| ==> Above(res[i], res[j])
    ensures forall id :: (exists i :: 0 <= i < |res| && res[i].0 == id) <==> id in dense || id in lexical
    ensures forall i :: 0 <= i < |res| ==> res[i].1 == Score(dense, k, res[i].0) + Score(lexical, k, res[i].0)
  {
    forall i, j | 0 <= i < j < |res| ensures Above(res[i], res[j]) {
      LessIsSmaller(res[i].0, res[j].0);
    }
    forall id | id in dense || id in lexical ensures exists i :: 0 <= i < |res| && res[i].0 == id {
      assert (id, Fused(dense, lexical, k, id)) in res;
    }
    forall i | 0 <= i < |res| ensures res[i].0 in dense || res[i].0 in lexical {
      assert res[i] in res;
    }
  }

  lemma ScoreMeaning(ranking: seq<string>, k: real, id: string, last: string)
    requires k + (|ranking| + 1) as real != 0.0
    ensures Score([], k, id) == 0.0
    ensures Score(ranking + [last], k, id) ==
            Score(ranking, k, id) + if last == id then 1.0 / (k + (|ranking| + 1) as real) else 0.0
  {
    assert (ranking + [last])[..|ranking|] == ranking;
  }

  lemma FusionUnique(
    a: seq<(string, real)>, b: seq<(string, real)>, dense: seq<string>, lexical: seq<string>, k: real)
    requires IsFusion(a, dense, lexical, k) && IsFusion(b, dense, lexical, k)
    ensures a == b
  {
    BeforeIsStrictTotal();
    StrictlySortedUnique(a, b, Before);
  }

  // What the score map holds after the first `n` places of both rankings.
  ghost predicate Accumulated(scores: map<string, real>, dense: seq<string>, lexical: seq<string>, k: real)
  {
    && (forall id :: id in scores <==> id in dense || id in lexical)
    && (forall id :: id in scores ==> scores[id] == Fused(dense, lexical, k, id))
  }

  lemma {:induction false} ScoreOfAbsent(ranking: seq<string>, k: real, id: string)
    requires id !in ranking
    ensures Score(ranking, k, id) == 0.0
  {
    if ranking != [] {
      ScoreOfAbsent(ranking[..|ranking| - 1], k, id);
    }
  }

  function Add(scores: map<string, real>, id: string, v: real): map<string, real> {
    scores[id := (if id in scores then scores[id] else 0.0) + v]
  }

  lemma AddDense(scores: map<string, real>, dense: seq<string>, k: real, id: string)
    requires Accumulated(scores, dense, [], k)
    ensures Accumulated(Add(scores, id, Reciprocal(k, |dense| + 1)), dense + [id], [], k)
  {
    assert (dense + [id])[..|dense|] == dense;
    if id !in scores {
      ScoreOfAbsent(dense, k, id);
    }
  }

  lemma AddLexical(scores: map<string, real>, dense: seq<string>, lexical: seq<string>, k: real, id: string)
    requires Accumulated(scores, dense, lexical, k)
    ensures Accumulated(Add(scores, id, Reciprocal(k, |lexical| + 1)), dense, lexical + [id], k)
  {
    assert (lexical + [id])[..|lexical|] == lexical;
    if id !in scores {
      ScoreOfAbsent(dense, k, id);
      ScoreOfAbsent(lexical, k, id);
    }
  }

  // The entries of the map, in whatever order it is drained.
  method Drain(scores: map<string, real>) returns (res: seq<(string, real)>)
    ensures forall x :: x in res <==> x.0 in scores && x.1 == scores[x.0]
    ensures Distinct(res)
  {
    res := [];
    var keys := scores.Keys;
    while keys != {}
      invariant keys <= scores.Keys
      invariant forall x :: x in res <==> x.0 in scores.Keys - keys && x.1 == scores[x.0]
      invariant Distinct(res)
      decreases |keys|
    {
      var id :| id in keys;
      assert (id, scores[id]) !in res;
      res := res + [(id, scores[id])];
      keys := keys - {id};
    }
  }

  method FuseRankedCandidates(dense: seq<string>, lexical: seq<string>, k: real)
    returns (res: seq<(string, real)>)
    requires Divisible(k, dense) && Divisible(k, lexical)
    ensures IsFusion(res, dense, lexical, k)
    ensures forall i, j :: 0 <= i < j < |res| ==> Above(res[i], res[j])
  {
    var scores: map<string, real> := map[];
    for r := 0 to |dense|
      invariant Accumulated(scores, dense[..r], [], k)
    {
      AddDense(scores, dense[..r], k, dense[r]);
      assert dense[..r + 1] == dense[..r] + [dense[r]];
      scores := Add(scores, dense[r], 1.0 / Denominator(k, r + 1));
    }
    assert dense[..|dense|] == dense;
    for r := 0 to |lexical|
      invariant Accumulated(scores, dense, lexical[..r], k)
    {
      AddLexical(scores, dense, lexical[..r], k, lexical[r]);
      assert lexical[..r + 1] == lexical[..r] + [lexical[r]];
      scores := Add(scores, lexical[r], 1.0 / Denominator(k, r + 1));
    }
    assert lexical[..|lexical|] == lexical;
    res := Drain(scores);
    BeforeIsStrictTotal();
    SortStrictly(res, Before);
    res := SortBy(res, Before);
    FusionMeaning(res, dense, lexical, k);
  }

  // ---------- Conservation ----------

  function Total(k: real, n: nat): real
  {
    if n == 0 then 0.0 else Total(k, n - 1) + Reciprocal(k, n)
  }

  function ScoreSum(ids: seq<string>, ranking: seq<string>, k: real): real
  {
    if ids == [] then 0.0 else ScoreSum(ids[..|ids| - 1], ranking, k) + Score(ranking, k, ids[|ids| - 1])
  }

  // Appending a place to the ranking adds its contribution once.
  lemma {:induction false} ScoreSumNext(ids: seq<string>, ranking: seq<string>, k: real)
    requires ranking != [] && Distinct(ids)
    ensures var n := |ranking|;
            ScoreSum(ids, ranking, k) ==
            ScoreSum(ids, ranking[..n - 1], k) + if ranking[n - 1] in ids then Reciprocal(k, n) else 0.0
  {
    if ids != [] {
      assert ids == ids[..|ids| - 1] + [ids[|ids| - 1]];
      ScoreSumNext(ids[..|ids| - 1], ranking, k);
    }
  }

  lemma {:induction false} ScoreSumIsTotal(ids: seq<string>, ranking: seq<string>, k: real)
    requires Distinct(ids) && forall id :: id in ranking ==> id in ids
    ensures ScoreSum(ids, ranking, k) == Total(k, |ranking|)
  {
    if ranking == [] {
      ScoreSumEmpty(ids, k);
    } else {
      assert ranking == ranking[..|ranking| - 1] + [ranking[|ranking| - 1]];
      ScoreSumIsTotal(ids, ranking[..|ranking| - 1], k);
      ScoreSumNext(ids, ranking, k);
    }
  }

  lemma {:induction false} ScoreSumEmpty(ids: seq<string>, k: real)
    ensures ScoreSum(ids, [], k) == 0.0
  {
    if ids != [] {
      ScoreSumEmpty(ids[..|ids| - 1], k);
    }
  }

  function Sum(res: seq<(string, real)>): real {
    if res == [] then 0.0 else Sum(res[..|res| - 1]) + res[|res| - 1].1
  }

  function Ids(res: seq<(string, real)>): seq<string> {
    seq(|res|, i requires 0 <= i < |res| => res[i].0)
  }

  lemma {:induction false} SumOfScores(res: seq<(string, real)>, dense: seq<string>, lexical: seq<string>, k: real)
    requires forall i :: 0 <= i < |res| ==> res[i].1 == Fused(dense, lexical, k, res[i].0)
    ensures Sum(res) == ScoreSum(Ids(res), dense, k) + ScoreSum(Ids(res), lexical, k)
  {
    if res != [] {
      SumOfScores(res[..|res| - 1], dense, lexical, k);
      assert Ids(res)[..|res| - 1] == Ids(res[..|res| - 1]);
    }
  }

  // Ids are distinct, and no score is lost or invented.
  lemma FusionConserves(res: seq<(string, real)>, dense: seq<string>, lexical: seq<string>, k: real)
    requires IsFusion(res, dense, lexical, k)
    ensures Distinct(Ids(res))
    ensures Sum(res) == Total(k, |dense|) + Total(k, |lexical|)
  {
    BeforeIsStrictTotal();
    forall i | 0 <= i < |res| ensures res[i].1 == Fused(dense, lexical, k, res[i].0) {
      assert res[i] in res;
    }
    forall i, j | 0 <= i < j < |res| ensures Ids(res)[i] != Ids(res)[j] {
      assert Before(res[i], res[j]);
      assert !Before(res[i], res[i]);
    }
    forall id | id in dense || id in lexical ensures id in Ids(res) {
      var x := (id, Fused(dense, lexical, k, id));
      assert x in res;
      var i :| 0 <= i < |res| && res[i] == x;
      assert Ids(res)[i] == id;
    }
    SumOfScores(res, dense, lexical, k);
    ScoreSumIsTotal(Ids(res), dense, k);
    ScoreSumIsTotal(Ids(res), lexical, k);
  }

  // ---------- Order laws ----------

  lemma ReciprocalOrder(a: real, b: real)
    requires 0.0 < a < b
    ensures 1.0 / a > 1.0 / b > 0.0
  {
    var x, y := 1.0 / a, 1.0 / b;
    assert x * a == 1.0 && y * b == 1.0;
    assert (x - y) * (a * b) == b - a;
  }

  // In a duplicate-free ranking the score is the contribution of the id's one place.
  lemma {:induction false} ScoreOfPlace(ranking: seq<string>, k: real, i: nat)
    requires k > -1.0 && Distinct(ranking) && i < |ranking|
    ensures Score(ranking, k, ranking[i]) == Reciprocal(k, i + 1)
  {
    var n := |ranking| - 1;
    if i == n {
      ScoreOfAbsent(ranking[..n], k, ranking[n]);
    } else {
      ScoreOfPlace(ranking[..n], k, i);
    }
  }

  lemma HalfReciprocal(k: real)
    requires k > -1.0
    ensures 1.0 / (2.0 * k + 2.0) + 1.0 / (2.0 * k + 2.0) == Reciprocal(k, 1)
  {
    var h := 1.0 / (2.0 * k + 2.0);
    assert h * (2.0 * k + 2.0) == 1.0;
    assert (h + h) * (k + 1.0) == 1.0;
  }

  // A place below k + 2 is worth more than half of a first place.
  lemma PlaceAboveHalf(k: real, place: nat)
    requires k > -1.0 && place > 0
    ensures place as real < k + 2.0 <==> Reciprocal(k, place) > 1.0 / (2.0 * k + 2.0)
  {
    var a, b := k + place as real, 2.0 * k + 2.0;
    if a < b {
      ReciprocalOrder(a, b);
    } else if b < a {
      ReciprocalOrder(b, a);
    }
  }

  lemma PlacesFall(k: real, place: nat, later: nat)
    requires k > -1.0 && 0 < place <= later
    ensures Reciprocal(k, place) >= Reciprocal(k, later)
    ensures place < later ==> Reciprocal(k, place) > Reciprocal(k, later)
  {
    if place < later {
      ReciprocalOrder(k + place as real, k + later as real);
    }
  }

  lemma HigherScoreFirst(res: seq<(string, real)>, i: nat, j: nat)
    requires StrictlySorted(res, Before) && i < |res| && j < |res|
    ensures res[i].1 > res[j].1 ==> i < j
  {
    if j < i {
      assert Before(res[j], res[i]);
    }
  }

  // With lists shorter than k + 2, appearing in both lists beats appearing in one.
  lemma BothBeatsOne(
    res: seq<(string, real)>, dense: seq<string>, lexical: seq<string>, k: real, i: nat, j: nat)
    requires k > -1.0 && IsFusion(res, dense, lexical, k) && Distinct(dense) && Distinct(lexical)
    requires |dense| as real < k + 2.0 && |lexical| as real < k + 2.0
    requires i < |res| && res[i].0 in dense && res[i].0 in lexical
    requires j < |res| && !(res[j].0 in dense && res[j].0 in lexical)
    ensures i < j
  {
    var x, y := res[i].0, res[j].0;
    assert res[i] in res && res[j] in res;
    var a :| 0 <= a < |dense| && dense[a] == x;
    var b :| 0 <= b < |lexical| && lexical[b] == x;
    ScoreOfPlace(dense, k, a);
    ScoreOfPlace(lexical, k, b);
    PlaceAboveHalf(k, a + 1);
    PlaceAboveHalf(k, b + 1);
    HalfReciprocal(k);
    OneListScore(dense, lexical, k, y);
    HigherScoreFirst(res, i, j);
  }

  lemma OneListScore(dense: seq<string>, lexical: seq<string>, k: real, y: string)
    requires k > -1.0 && Distinct(dense) && Distinct(lexical)
    requires !(y in dense && y in lexical)
    ensures Fused(dense, lexical, k, y) <= Reciprocal(k, 1)
  {
    ReciprocalOrder(k + 1.0, k + 2.0);
    if y in dense {
      var c :| 0 <= c < |dense| && dense[c] == y;
      ScoreOfPlace(dense, k, c);
      PlacesFall(k, 1, c + 1);
      ScoreOfAbsent(lexical, k, y);
    } else {
      ScoreOfAbsent(dense, k, y);
      if y in lexical {
        var c :| 0 <= c < |lexical| && lexical[c] == y;
        ScoreOfPlace(lexical, k, c);
        PlacesFall(k, 1, c + 1);
      } else {
        ScoreOfAbsent(lexical, k, y);
      }
    }
  }

  // The bound is sharp: from length k + 2 on, an id last in both lists does not outscore the first of one.
  lemma LastInBothMayLose(dense: seq<string>, lexical: seq<string>, k: real)
    requires k > -1.0 && Distinct(dense) && Distinct(lexical)
    requires |dense| == |lexical| >= 2 && dense[|dense| - 1] == lexical[|lexical| - 1] && dense[0] !in lexical
    ensures Fused(dense, lexical, k, dense[|dense| - 1]) > Fused(dense, lexical, k, dense[0])
            <==> |dense| as real < k + 2.0
  {
    var n := |dense|;
    ScoreOfPlace(dense, k, n - 1);
    ScoreOfPlace(lexical, k, n - 1);
    ScoreOfPlace(dense, k, 0);
    ScoreOfAbsent(lexical, k, dense[0]);
    PlaceAboveHalf(k, n);
    HalfReciprocal(k);
  }

  // Ranked no later in both lists and earlier in one: ranked earlier in the fusion.
  lemma Dominance(
    res: seq<(string, real)>, dense: seq<string>, lexical: seq<string>, k: real,
    i: nat, j: nat, a: nat, a': nat, b: nat, b': nat)
    requires k > -1.0 && IsFusion(res, dense, lexical, k) && Distinct(dense) && Distinct(lexical)
    requires i < |res| && j < |res|
    requires a <= a' < |dense| && dense[a] == res[i].0 && dense[a'] == res[j].0
    requires b <= b' < |lexical| && lexical[b] == res[i].0 && lexical[b'] == res[j].0
    requires a < a' || b < b'
    ensures i < j
  {
    assert res[i] in res && res[j] in res;
    ScoreOfPlace(dense, k, a);
    ScoreOfPlace(dense, k, a');
    ScoreOfPlace(lexical, k, b);
    ScoreOfPlace(lexical, k, b');
    PlacesFall(k, a + 1, a' + 1);
    PlacesFall(k, b + 1, b' + 1);
    HigherScoreFirst(res, i, j);
  }
}
