/** Stable sorting by a comparison, and what determines its result. */
module Sorting {
  import opened Sequences

  // `before(a, b)`: a must come before b.
  type Order<!T> = (T, T) -> bool

  ghost predicate StrictTotal<T(!new)>(before: Order<T>) {
    && (forall a :: !before(a, a))
    && (forall a, b :: a != b ==> before(a, b) || before(b, a))
    && (forall a, b, c :: before(a, b) && before(b, c) ==> before(a, c))
  }

  // Ties allowed: not being before is transitive.
  ghost predicate StrictWeak<T(!new)>(before: Order<T>) {
    && (forall a, b :: before(a, b) ==> !before(b, a))
    && (forall a, b, c :: !before(b, a) && !before(c, b) ==> !before(c, a))
  }

  ghost predicate Sorted<T(!new)>(s: seq<T>, before: Order<T>) {
    forall i, j :: 0 <= i < j < |s| ==> !before(s[j], s[i])
  }

  ghost predicate StrictlySorted<T(!new)>(s: seq<T>, before: Order<T>) {
    forall i, j :: 0 <= i < j < |s| ==> before(s[i], s[j])
  }

  // Before the first element that does not have to precede `x`.
  function InsertSorted<T>(x: T, s: seq<T>, before: Order<T>): seq<T> {
    if s == [] || !before(s[0], x) then [x] + s else [s[0]] + InsertSorted(x, s[1..], before)
  }

  function SortBy<T>(s: seq<T>, before: Order<T>): seq<T> {
    if s == [] then [] else InsertSorted(s[0], SortBy(s[1..], before), before)
  }

  lemma {:induction false} InsertPermutes<T>(x: T, s: seq<T>, before: Order<T>)
    ensures multiset(InsertSorted(x, s, before)) == multiset(s) + multiset{x}
    ensures |InsertSorted(x, s, before)| == |s| + 1
  {
    if s != [] {
      assert s == [s[0]] + s[1..];
      InsertPermutes(x, s[1..], before);
    }
  }

  lemma {:induction false} SortPermutes<T>(s: seq<T>, before: Order<T>)
    ensures multiset(SortBy(s, before)) == multiset(s) && |SortBy(s, before)| == |s|
  {
    if s != [] {
      assert s == [s[0]] + s[1..];
      SortPermutes(s[1..], before);
      InsertPermutes(s[0], SortBy(s[1..], before), before);
    }
  }

  lemma {:induction false} InsertKeepsSorted<T(!new)>(x: T, s: seq<T>, before: Order<T>)
    requires StrictWeak(before) && Sorted(s, before)
    ensures Sorted(InsertSorted(x, s, before), before)
  {
    if s != [] {
      var rest := InsertSorted(x, s[1..], before);
      InsertKeepsSorted(x, s[1..], before);
      InsertPermutes(x, s[1..], before);
      if before(s[0], x) {
        forall j | 0 <= j < |rest| ensures !before(rest[j], s[0]) {
          assert rest[j] in multiset(rest);
          if rest[j] != x {
            assert rest[j] in s[1..];
          }
        }
      } else {
        forall j | 0 <= j < |s| ensures !before(s[j], x) {
          assert j > 0 ==> !before(s[j], s[0]);
        }
      }
    }
  }

  lemma {:induction false} SortSorts<T(!new)>(s: seq<T>, before: Order<T>)
    requires StrictWeak(before)
    ensures Sorted(SortBy(s, before), before)
  {
    if s != [] {
      SortSorts(s[1..], before);
      InsertKeepsSorted(s[0], SortBy(s[1..], before), before);
    }
  }

  // Stability, in its simplest form: what is sorted is left alone.
  lemma {:induction false} SortOfSorted<T(!new)>(s: seq<T>, before: Order<T>)
    requires Sorted(s, before)
    ensures SortBy(s, before) == s
  {
    if s != [] {
      SortOfSorted(s[1..], before);
      assert s == [s[0]] + s[1..];
    }
  }

  // Under a strict total order the elements determine the sorted sequence.
  lemma {:induction false} StrictlySortedUnique<T(!new)>(a: seq<T>, b: seq<T>, before: Order<T>)
    requires StrictTotal(before) && StrictlySorted(a, before) && StrictlySorted(b, before)
    requires forall x :: x in a <==> x in b
    ensures a == b
  {
    if a == [] {
      assert forall i :: 0 <= i < |b| ==> b[i] in b;
    } else {
      assert a[0] in b;
      assert b[0] in a;
      var i :| 0 <= i < |b| && b[i] == a[0];
      var j :| 0 <= j < |a| && a[j] == b[0];
      assert i == 0;
      forall x ensures x in a[1..] <==> x in b[1..] {
        if x in a[1..] {
          var m :| 0 <= m < |a[1..]| && a[1..][m] == x;
          assert before(a[0], x) && x in a;
        }
        if x in b[1..] {
          var m :| 0 <= m < |b[1..]| && b[1..][m] == x;
          assert before(b[0], x) && x in b;
        }
      }
      StrictlySortedUnique(a[1..], b[1..], before);
      assert a == [a[0]] + a[1..] && b == [b[0]] + b[1..];
    }
  }

  lemma TotalIsWeak<T(!new)>(before: Order<T>)
    requires StrictTotal(before)
    ensures StrictWeak(before)
  {
    forall a, b, c | !before(b, a) && !before(c, b) ensures !before(c, a) {
      assert (a == b || before(a, b)) && (b == c || before(b, c));
    }
  }

  // Sorting distinct elements by a strict total order sorts strictly.
  lemma SortStrictly<T(!new)>(s: seq<T>, before: Order<T>)
    requires StrictTotal(before) && Distinct(s)
    ensures StrictlySorted(SortBy(s, before), before)
    ensures forall x :: x in SortBy(s, before) <==> x in s
    ensures |SortBy(s, before)| == |s|
  {
    var r := SortBy(s, before);
    TotalIsWeak(before);
    SortSorts(s, before);
    SortPermutes(s, before);
    forall x ensures x in r <==> x in s {
      assert x in multiset(r) <==> x in multiset(s);
    }
    DistinctCounts(s);
    forall i, j | 0 <= i < j < |r| ensures before(r[i], r[j]) {
      if r[i] == r[j] {
        TwiceCounts(r, i, j);
      }
    }
  }

  lemma {:induction false} DistinctCounts<T(!new)>(s: seq<T>)
    requires Distinct(s)
    ensures forall x :: multiset(s)[x] <= 1
  {
    if s != [] {
      DistinctCounts(s[1..]);
      assert s == [s[0]] + s[1..];
      assert s[0] !in s[1..];
    }
  }

  lemma TwiceCounts<T(!new)>(s: seq<T>, i: nat, j: nat)
    requires i < j < |s| && s[i] == s[j]
    ensures multiset(s)[s[i]] >= 2
  {
    assert s == s[..i] + [s[i]] + s[i + 1..j] + [s[j]] + s[j + 1..];
  }

  // ---------- Text order ----------

  // Lexicographic by code point, as Rust compares strings.
  predicate Less(a: string, b: string) {
    b != "" && (a == "" || a[0] < b[0] || (a[0] == b[0] && Less(a[1..], b[1..])))
  }

  lemma {:induction false} LessTotal(a: string, b: string)
    ensures !Less(a, a) && (a != b ==> Less(a, b) || Less(b, a))
  {
    if a != "" {
      LessTotal(a[1..], a[1..]);
      if b != "" {
        LessTotal(a[1..], b[1..]);
        assert a == [a[0]] + a[1..] && b == [b[0]] + b[1..];
      }
    }
  }

  lemma {:induction false} LessTransitive(a: string, b: string, c: string)
    requires Less(a, b) && Less(b, c)
    ensures Less(a, c)
  {
    if a != "" && a[0] == b[0] && b[0] == c[0] {
      LessTransitive(a[1..], b[1..], c[1..]);
    }
  }
}
