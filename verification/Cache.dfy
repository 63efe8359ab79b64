/**
 The in-memory semantic cache: an exact tier on query text, a similarity tier on embeddings, and
 replacement of the entry with the least timestamp. Clock readings are parameters.
 */
module Cache {
  import opened Outcomes
  import opened Text
  import opened Reals

  datatype Entry<+R> = Entry(query: string, embedding: seq<real>, response: R, lastAccessed: nat)

  // Queries are compared trimmed and without ASCII case.
  function QueryKey(query: string): string {
    FoldAscii(Trim(query))
  }

  // ---------- The exact tier ----------

  function FindExact<R>(es: seq<Entry<R>>, query: string): (hit: Option<nat>)
    ensures hit.Some? ==> hit.value < |es| && QueryKey(es[hit.value].query) == QueryKey(query)
    ensures forall j :: 0 <= j < (if hit.Some? then hit.value else |es|) ==>
                          QueryKey(es[j].query) != QueryKey(query)
  {
    if es == [] then None
    else
      var n := |es| - 1;
      var earlier := FindExact(es[..n], query);
      if earlier.Some? then earlier
      else if QueryKey(es[n].query) == QueryKey(query) then Some(n) else None
  }

  lemma {:induction false} FindExactPrefix<R>(es: seq<Entry<R>>, query: string, n: nat)
    requires n <= |es| && FindExact(es[..n], query).Some?
    ensures FindExact(es, query) == FindExact(es[..n], query)
  {
    if n < |es| {
      assert es[..|es| - 1][..n] == es[..n];
      FindExactPrefix(es[..|es| - 1], query, n);
    } else {
      assert es[..n] == es;
    }
  }

  // ---------- What equivalent queries are ----------

  // Equal, or the two cases of one ASCII letter.
  predicate SameLetter(a: char, b: char) {
    || a == b
    || (65 <= a as int <= 90 && b as int == a as int + 32)
    || (65 <= b as int <= 90 && a as int == b as int + 32)
  }

  ghost predicate SameLetters(a: string, b: string) {
    |a| == |b| && forall i :: 0 <= i < |a| ==> SameLetter(a[i], b[i])
  }

  // Equal up to white space around them and the case of ASCII letters.
  ghost predicate Equivalent(a: string, b: string) {
    SameLetters(Trim(a), Trim(b))
  }

  lemma FoldMeaning(a: string, b: string)
    ensures FoldAscii(a) == FoldAscii(b) <==> SameLetters(a, b)
  {
    if |a| == |b| {
      forall i | 0 <= i < |a| ensures FoldAscii(a)[i] == FoldAscii(b)[i] <==> SameLetter(a[i], b[i]) {
        LowerMeaning(a[i], b[i]);
      }
      if FoldAscii(a) == FoldAscii(b) {
        assert forall i :: 0 <= i < |a| ==> FoldAscii(a)[i] == FoldAscii(b)[i];
      }
    } else {
      assert |FoldAscii(a)| == |a| && |FoldAscii(b)| == |b|;
    }
  }

  lemma LowerMeaning(a: char, b: char)
    ensures LowerAscii(a) == LowerAscii(b) <==> SameLetter(a, b)
  {
  }

  lemma KeyMeaning(a: string, b: string)
    ensures QueryKey(a) == QueryKey(b) <==> Equivalent(a, b)
  {
    FoldMeaning(Trim(a), Trim(b));
  }

  // Entry `i` is the first with an equivalent query.
  ghost predicate FirstEquivalent<R>(es: seq<Entry<R>>, query: string, i: int) {
    && 0 <= i < |es| && Equivalent(es[i].query, query)
    && forall j :: 0 <= j < i ==> !Equivalent(es[j].query, query)
  }

  // The first equivalent entry gives its response and is refreshed, and nothing else changes.
  ghost predicate HitAt<R>(es: seq<Entry<R>>, query: string, i: int, now: nat, response: R, after: seq<Entry<R>>) {
    && FirstEquivalent(es, query, i) && response == es[i].response
    && after == es[i := Entry(es[i].query, es[i].embedding, es[i].response, now)]
  }

  // The exact tier hits the first equivalent entry, and misses when there is none.
  lemma FindExactMeaning<R>(es: seq<Entry<R>>, query: string)
    ensures var hit := FindExact(es, query);
            if hit.Some? then FirstEquivalent(es, query, hit.value)
            else forall j :: 0 <= j < |es| ==> !Equivalent(es[j].query, query)
  {
    hide Equivalent, QueryKey;
    forall j | 0 <= j < |es| ensures QueryKey(es[j].query) == QueryKey(query) <==> Equivalent(es[j].query, query) {
      KeyMeaning(es[j].query, query);
    }
  }

  // So it hits alike for equivalent queries, ...
  lemma {:induction false} EquivalentHitsAlike<R>(es: seq<Entry<R>>, query: string, other: string)
    requires Equivalent(query, other)
    ensures FindExact(es, query) == FindExact(es, other)
  {
    KeyMeaning(query, other);
    if es != [] {
      EquivalentHitsAlike(es[..|es| - 1], query, other);
    }
  }

  // ... such as one with more white space around it, ...
  lemma PaddedIsEquivalent(before: string, query: string, after: string)
    requires Blank(before) && Blank(after)
    ensures Equivalent(before + query + after, query)
  {
    var b, a := TrimSplits(query);
    assert before + query + after == (before + b) + Trim(query) + (a + after);
    TrimPadded(before + b, Trim(query), a + after);
  }

  lemma SameWhitespace(a: string, b: string)
    requires SameLetters(a, b)
    ensures forall i :: 0 <= i < |a| ==> (IsWhitespace(a[i]) <==> IsWhitespace(b[i]))
  {
    forall i | 0 <= i < |a| ensures IsWhitespace(a[i]) <==> IsWhitespace(b[i]) {
      assert SameLetter(a[i], b[i]);
    }
  }

  lemma SameSlices(a: string, b: string, from: nat, to: nat)
    requires SameLetters(a, b) && from <= to <= |a|
    ensures SameLetters(a[from..to], b[from..to])
  {
  }

  lemma SameBlank(a: string, b: string)
    requires SameLetters(a, b) && Blank(a)
    ensures Blank(b)
  {
    SameWhitespace(a, b);
  }

  lemma SameTrimmed(a: string, b: string)
    requires SameLetters(a, b) && Trimmed(a)
    ensures Trimmed(b)
  {
    SameWhitespace(a, b);
  }

  // ... or one in other cases, ...
  lemma RecasedIsEquivalent(query: string, other: string)
    requires SameLetters(query, other)
    ensures Equivalent(query, other)
  {
    var b, a := TrimSplits(query);
    var lo, hi := |b|, |b| + |Trim(query)|;
    SameSlices(query, other, 0, lo);
    SameSlices(query, other, lo, hi);
    SameSlices(query, other, hi, |query|);
    assert query[0..lo] == b && query[lo..hi] == Trim(query) && query[hi..|query|] == a;
    assert other == other[0..lo] + other[lo..hi] + other[hi..|query|];
    hide SameLetters, Blank, Trimmed, Trim;
    SameBlank(b, other[0..lo]);
    SameTrimmed(Trim(query), other[lo..hi]);
    SameBlank(a, other[hi..|query|]);
    TrimPadded(other[0..lo], other[lo..hi], other[hi..|query|]);
  }

  // ... and not for a trimmed query in which any character has changed otherwise.
  lemma ChangedIsNotEquivalent(query: string, i: nat, c: char)
    requires Trimmed(query) && i < |query| && !SameLetter(query[i], c)
    ensures !Equivalent(query, query[i := c])
  {
    var other := query[i := c];
    var b, a := TrimSplits(other);
    assert "" + query + "" == query;
    TrimPadded("", query, "");
    if |Trim(other)| == |query| {
      assert other == Trim(other);
    }
  }

  // ---------- The similarity tier ----------

  function Dot(a: seq<real>, b: seq<real>): real
    requires |a| == |b|
  {
    if a == [] then 0.0
    else Dot(a[..|a| - 1], b[..|b| - 1]) + Times(a[|a| - 1], b[|b| - 1])
  }

  predicate Comparable<R>(e: Entry<R>, embedding: seq<real>) {
    |e.embedding| == |embedding|
  }

  // The running best of the scan, which starts from similarity -1.
  function Best<R>(es: seq<Entry<R>>, embedding: seq<real>): (r: (Option<nat>, real))
    ensures r.0.Some? ==> r.0.value < |es|
  {
    if es == [] then (None, -1.0)
    else
      var n := |es| - 1;
      var (best, sim) := Best(es[..n], embedding);
      if Comparable(es[n], embedding) && Dot(es[n].embedding, embedding) > sim
      then (Some(n), Dot(es[n].embedding, embedding)) else (best, sim)
  }

  function FindSimilar<R>(es: seq<Entry<R>>, embedding: seq<real>, threshold: real): (hit: Option<nat>)
    ensures hit.Some? ==> hit.value < |es|
  {
    var (best, sim) := Best(es, embedding);
    if sim >= threshold then best else None
  }

  // Entry `i` is the earliest of the comparable entries with the greatest similarity.
  ghost predicate EarliestMaximiser<R(!new)>(es: seq<Entry<R>>, embedding: seq<real>, i: nat) {
    && i < |es| && Comparable(es[i], embedding)
    && forall j :: 0 <= j < |es| && Comparable(es[j], embedding) ==>
         var mine, other := Dot(es[i].embedding, embedding), Dot(es[j].embedding, embedding);
         other <= mine && (j < i ==> other < mine)
  }

  lemma {:induction false} BestIsEarliestMaximiser<R(!new)>(es: seq<Entry<R>>, embedding: seq<real>)
    ensures var (best, sim) := Best(es, embedding);
            && (best.Some? ==>
                  && EarliestMaximiser(es, embedding, best.value)
                  && sim == Dot(es[best.value].embedding, embedding) > -1.0)
            && (best.None? ==> sim == -1.0 && forall j :: 0 <= j < |es| && Comparable(es[j], embedding) ==>
                                 Dot(es[j].embedding, embedding) <= -1.0)
  {
    if es != [] {
      var n := |es| - 1;
      var init := es[..n];
      BestIsEarliestMaximiser(init, embedding);
      assert forall j :: 0 <= j < n ==> es[j] == init[j];
    }
  }

  // For every threshold: a hit is the earliest maximiser, and there is one when some comparable
  // entry reaches the threshold and beats the starting similarity.
  lemma SimilarHitExactly<R(!new)>(es: seq<Entry<R>>, embedding: seq<real>, threshold: real)
    ensures var hit := FindSimilar(es, embedding, threshold);
            && (hit.Some? <==> exists j :: 0 <= j < |es| && Comparable(es[j], embedding)
                                 && Dot(es[j].embedding, embedding) >= threshold
                                 && Dot(es[j].embedding, embedding) > -1.0)
            && (hit.Some? ==>
                  && EarliestMaximiser(es, embedding, hit.value)
                  && Dot(es[hit.value].embedding, embedding) >= threshold)
  {
    BestIsEarliestMaximiser(es, embedding);
  }

  // ---------- Geometry of the similarity tier ----------

  function DistanceSquared(a: seq<real>, b: seq<real>): real
    requires |a| == |b|
  {
    if a == [] then 0.0
    else DistanceSquared(a[..|a| - 1], b[..|b| - 1]) + Square(a[|a| - 1] - b[|b| - 1])
  }

  predicate Unit(a: seq<real>) {
    Dot(a, a) == 1.0
  }

  lemma {:induction false} DistanceFromDot(a: seq<real>, b: seq<real>)
    requires |a| == |b|
    ensures DistanceSquared(a, b) == Dot(a, a) + Dot(b, b) - 2.0 * Dot(a, b)
  {
    if a != [] {
      var x, y := a[|a| - 1], b[|b| - 1];
      DistanceFromDot(a[..|a| - 1], b[..|b| - 1]);
      SquareOfDifference(x, y);
    }
  }

  lemma {:induction false} DistanceIsPositive(a: seq<real>, b: seq<real>)
    requires |a| == |b|
    ensures DistanceSquared(a, b) >= 0.0 && (DistanceSquared(a, b) == 0.0 ==> a == b)
  {
    if a != [] {
      DistanceIsPositive(a[..|a| - 1], b[..|b| - 1]);
      assert a == a[..|a| - 1] + [a[|a| - 1]] && b == b[..|b| - 1] + [b[|b| - 1]];
    }
  }

  // For unit vectors a hit is close, and a stored embedding finds an identical one.
  lemma SimilarHitIsClose<R(!new)>(es: seq<Entry<R>>, embedding: seq<real>, threshold: real)
    requires Unit(embedding) && forall e :: e in es && Comparable(e, embedding) ==> Unit(e.embedding)
    ensures var hit := FindSimilar(es, embedding, threshold);
            && (hit.Some? ==>
                  && Comparable(es[hit.value], embedding)
                  && DistanceSquared(es[hit.value].embedding, embedding) <= 2.0 - 2.0 * threshold)
            && (threshold <= 1.0 && (exists e :: e in es && e.embedding == embedding) ==>
                  hit.Some? && es[hit.value].embedding == embedding)
  {
    SimilarHitExactly(es, embedding, threshold);
    var hit := FindSimilar(es, embedding, threshold);
    if hit.Some? {
      assert es[hit.value] in es;
      DistanceFromDot(es[hit.value].embedding, embedding);
      DistanceIsPositive(es[hit.value].embedding, embedding);
    }
    if threshold <= 1.0 && exists e :: e in es && e.embedding == embedding {
      var j :| 0 <= j < |es| && es[j].embedding == embedding;
      assert Dot(es[j].embedding, embedding) == 1.0;
    }
  }

  // ---------- Replacement ----------

  function Touch<R>(es: seq<Entry<R>>, hit: Option<nat>, now: nat): seq<Entry<R>>
    requires hit.Some? ==> hit.value < |es|
  {
    if hit.Some? then es[hit.value := es[hit.value].(lastAccessed := now)] else es
  }

  function Response<R>(es: seq<Entry<R>>, hit: Option<nat>): Option<R>
    requires hit.Some? ==> hit.value < |es|
  {
    if hit.Some? then Some(es[hit.value].response) else None
  }

  // The first entry with the least timestamp.
  function Oldest<R>(es: seq<Entry<R>>): (v: nat)
    requires es != []
    ensures v < |es|
    ensures forall i :: 0 <= i < |es| ==> es[v].lastAccessed <= es[i].lastAccessed
    ensures forall i :: 0 <= i < v ==> es[v].lastAccessed < es[i].lastAccessed
  {
    var n := |es| - 1;
    if n == 0 then 0
    else
      var v := Oldest(es[..n]);
      if es[n].lastAccessed < es[v].lastAccessed then n else v
  }

  function Victim<R>(es: seq<Entry<R>>, capacity: nat): (v: Option<nat>)
    ensures v.Some? ==> v.value < |es|
  {
    if |es| >= capacity && es != [] then Some(Oldest(es)) else None
  }

  function DropAt<T>(s: seq<T>, v: Option<nat>): seq<T>
    requires v.Some? ==> v.value < |s|
  {
    if v.Some? then s[..v.value] + s[v.value + 1..] else s
  }

  function Inserted<R>(es: seq<Entry<R>>, capacity: nat, e: Entry<R>): seq<Entry<R>> {
    DropAt(es, Victim(es, capacity)) + [e]
  }

  // The first entry with the least timestamp gives way to a new one at the end.
  ghost predicate ReplacedAt<R>(es: seq<Entry<R>>, v: int, e: Entry<R>, after: seq<Entry<R>>) {
    && 0 <= v < |es| && after == es[..v] + es[v + 1..] + [e]
    && (forall i :: 0 <= i < |es| ==> es[v].lastAccessed <= es[i].lastAccessed)
    && forall i :: 0 <= i < v ==> es[v].lastAccessed < es[i].lastAccessed
  }

  // ---------- The cache object ----------

  class SemanticCache<R> {
    var entries: seq<Entry<R>>
    const capacity: nat
    const threshold: real

    constructor (capacity: nat, threshold: real)
      ensures entries == [] && this.capacity == capacity && this.threshold == threshold
    {
      entries := [];
      this.capacity := capacity;
      this.threshold := threshold;
    }

    method GetExact(query: string, now: nat) returns (r: Option<R>)
      modifies this
      ensures entries == Touch(old(entries), FindExact(old(entries), query), now)
      ensures r == Response(old(entries), FindExact(old(entries), query))
      ensures r.None? ==>
                && entries == old(entries)
                && forall j :: 0 <= j < |entries| ==> !Equivalent(entries[j].query, query)
      ensures r.Some? ==> exists i :: HitAt(old(entries), query, i, now, r.value, entries)
    {
      ghost var before := entries;
      FindExactMeaning(before, query);
      hide Equivalent;
      var norm := QueryKey(query);
      for i := 0 to |entries|
        invariant entries == old(entries)
        invariant FindExact(entries[..i], query) == None
      {
        assert entries[..i + 1][..i] == entries[..i];
        if QueryKey(entries[i].query) == norm {
          FindExactPrefix(entries, query, i + 1);
          r := Some(entries[i].response);
          entries := entries[i := entries[i].(lastAccessed := now)];
          assert HitAt(before, query, i, now, r.value, entries);
          return;
        }
      }
      assert entries[..|entries|] == entries;
      return None;
    }

    method GetSimilar(embedding: seq<real>, now: nat) returns (r: Option<R>)
      modifies this
      ensures entries == Touch(old(entries), FindSimilar(old(entries), embedding, threshold), now)
      ensures r == Response(old(entries), FindSimilar(old(entries), embedding, threshold))
    {
      var bestSim, bestEntry: Option<nat> := -1.0, None;
      for i := 0 to |entries|
        invariant (bestEntry, bestSim) == Best(entries[..i], embedding)
        invariant bestEntry.Some? ==> bestEntry.value < i
      {
        assert entries[..i + 1][..i] == entries[..i];
        if |entries[i].embedding| == |embedding| {
          var dot := Dot(entries[i].embedding, embedding);
          if dot > bestSim {
            bestSim, bestEntry := dot, Some(i);
          }
        }
      }
      assert entries[..|entries|] == entries;
      r := None;
      if bestSim >= threshold && bestEntry.Some? {
        var i := bestEntry.value;
        r := Some(entries[i].response);
        entries := entries[i := entries[i].(lastAccessed := now)];
      }
    }

    method Insert(query: string, embedding: seq<real>, response: R, now: nat)
      modifies this
      ensures entries == Inserted(old(entries), capacity, Entry(query, embedding, response, now))
      ensures |old(entries)| < capacity || old(entries) == [] ==>
                entries == old(entries) + [Entry(query, embedding, response, now)]
      ensures |old(entries)| >= capacity && old(entries) != [] ==>
                exists v :: ReplacedAt(old(entries), v, Entry(query, embedding, response, now), entries)
    {
      ghost var before := entries;
      if |entries| >= capacity && entries != [] {
        var idx := 0;
        for i := 1 to |entries|
          invariant idx < i && idx == Oldest(entries[..i])
        {
          assert entries[..i + 1][..i] == entries[..i];
          if entries[i].lastAccessed < entries[idx].lastAccessed {
            idx := i;
          }
        }
        assert entries[..|entries|] == entries;
        entries := entries[..idx] + entries[idx + 1..];
        assert ReplacedAt(before, idx, Entry(query, embedding, response, now),
          entries + [Entry(query, embedding, response, now)]);
      }
      entries := entries + [Entry(query, embedding, response, now)];
    }
  }
}
