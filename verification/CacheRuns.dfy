/**
 Whole runs of the semantic cache: the capacity bound, least-recently-used replacement measured
 by the access history, and the comparison of caches of different capacities.
 */
module CacheRuns {
  import opened Outcomes
  import opened Sequences
  import Text
  import opened Recency
  import opened Cache

  datatype Op<+R> =
    | Exact(query: string)
    | Similar(embedding: seq<real>)
    | Put(query: string, embedding: seq<real>, response: R)

  // An operation and the clock reading it makes.
  datatype Timed<+R> = Timed(op: Op<R>, now: nat)

  // The entry an operation hits.
  function Hit<R>(es: seq<Entry<R>>, threshold: real, op: Op<R>): (hit: Option<nat>)
    ensures hit.Some? ==> hit.value < |es|
  {
    match op
    case Exact(query) => FindExact(es, query)
    case Similar(embedding) => FindSimilar(es, embedding, threshold)
    case Put(_, _, _) => None
  }

  function Step<R>(es: seq<Entry<R>>, capacity: nat, threshold: real, t: Timed<R>): seq<Entry<R>> {
    match t.op
    case Put(query, embedding, response) => Inserted(es, capacity, Entry(query, embedding, response, t.now))
    case _ => Touch(es, Hit(es, threshold, t.op), t.now)
  }

  function Run<R>(capacity: nat, threshold: real, ops: seq<Timed<R>>): seq<Entry<R>> {
    if ops == [] then []
    else Step(Run(capacity, threshold, ops[..|ops| - 1]), capacity, threshold, ops[|ops| - 1])
  }

  // Whatever the clock does.
  lemma {:induction false} CapacityBound<R>(capacity: nat, threshold: real, ops: seq<Timed<R>>)
    ensures |Run(capacity, threshold, ops)| <= Effective(capacity)
  {
    if ops != [] {
      CapacityBound(capacity, threshold, ops[..|ops| - 1]);
      StepBound(Run(capacity, threshold, ops[..|ops| - 1]), capacity, threshold, ops[|ops| - 1]);
    }
  }

  lemma StepBound<R>(es: seq<Entry<R>>, capacity: nat, threshold: real, t: Timed<R>)
    requires |es| <= Effective(capacity)
    ensures |Step(es, capacity, threshold, t)| <= Effective(capacity)
  {
    if t.op.Put? {
      assert |Inserted(es, capacity, Entry(t.op.query, t.op.embedding, t.op.response, t.now))| <= Effective(capacity);
    } else {
      assert |Touch(es, Hit(es, threshold, t.op), t.now)| == |es|;
    }
  }

  ghost predicate Increasing<R>(ops: seq<Timed<R>>) {
    forall i, j :: 0 <= i < j < |ops| ==> ops[i].now < ops[j].now
  }

  // The last clock reading; -1 before the first.
  function Clock<R>(ops: seq<Timed<R>>): int {
    if ops == [] then -1 else ops[|ops| - 1].now
  }

  // ---------- Entries as a store of keys and access times ----------

  function Stamps<K(!new), R>(keys: seq<K>, es: seq<Entry<R>>): Store<K>
    requires |keys| == |es| && Distinct(keys)
  {
    map i | 0 <= i < |keys| :: keys[i] := es[i].lastAccessed
  }

  lemma {:induction false} KeySetSize<K(!new)>(keys: seq<K>)
    requires Distinct(keys)
    ensures |set k | k in keys| == |keys|
  {
    if keys != [] {
      var n := |keys| - 1;
      KeySetSize(keys[..n]);
      assert keys == keys[..n] + [keys[n]];
      assert (set k | k in keys) == (set k | k in keys[..n]) + {keys[n]};
    }
  }

  lemma StampsSize<K(!new), R>(keys: seq<K>, es: seq<Entry<R>>)
    requires |keys| == |es| && Distinct(keys)
    ensures |Stamps(keys, es)| == |es|
  {
    KeySetSize(keys);
    assert Stamps(keys, es).Keys == set k | k in keys;
    assert |Stamps(keys, es).Keys| == |Stamps(keys, es)|;
  }

  lemma TouchFaithful<K(!new), R>(
    keys: seq<K>, es: seq<Entry<R>>, history: seq<K>, capacity: nat, clock: int, i: nat, now: nat)
    requires |keys| == |es| && Distinct(keys) && i < |es| && clock < now
    requires Faithful(Stamps(keys, es), history, capacity, clock)
    ensures Faithful(Stamps(keys, Touch(es, Some(i), now)), history + [keys[i]], capacity, now)
  {
    hide Faithful;
    var m' := Stamps(keys, Touch(es, Some(i), now));
    assert m' == Stamps(keys, es)[keys[i] := now];
    AccessKeepsFaithful(Stamps(keys, es), history, capacity, clock, keys[i], now, m');
  }

  // What is left after a drop, index by index.
  function Kept(v: Option<nat>, i: nat): nat {
    if v.None? || i < v.value then i else i + 1
  }

  lemma DropAtIndex<T>(s: seq<T>, v: Option<nat>, i: nat)
    requires (v.Some? ==> v.value < |s|) && i < |DropAt(s, v)|
    ensures Kept(v, i) < |s| && DropAt(s, v)[i] == s[Kept(v, i)]
  {
  }

  lemma DropKeepsDistinct<K(!new)>(keys: seq<K>, v: Option<nat>)
    requires Distinct(keys) && (v.Some? ==> v.value < |keys|)
    ensures Distinct(DropAt(keys, v))
    ensures forall k :: k in DropAt(keys, v) <==> k in keys && (v.Some? ==> k != keys[v.value])
  {
    if v.Some? {
      var d := DropAt(keys, v);
      forall k | k in keys && k != keys[v.value] ensures k in d {
        var i :| 0 <= i < |keys| && keys[i] == k;
        assert d[if i < v.value then i else i - 1] == k;
      }
    }
  }

  lemma DropStamps<K(!new), R>(keys: seq<K>, es: seq<Entry<R>>, v: nat)
    requires |keys| == |es| && Distinct(keys) && v < |es|
    ensures Distinct(DropAt(keys, Some(v)))
    ensures Stamps(DropAt(keys, Some(v)), DropAt(es, Some(v))) == Stamps(keys, es) - {keys[v]}
  {
    DropKeepsDistinct(keys, Some(v));
    var kept, keptEs := DropAt(keys, Some(v)), DropAt(es, Some(v));
    forall i | 0 <= i < |kept| ensures Stamps(kept, keptEs)[kept[i]] == Stamps(keys, es)[kept[i]] {
      DropAtIndex(keys, Some(v), i);
      DropAtIndex(es, Some(v), i);
    }
    assert Stamps(kept, keptEs).Keys == Stamps(keys, es).Keys - {keys[v]} by {
      assert forall k :: k in Stamps(kept, keptEs) <==> k in kept;
      assert forall k :: k in Stamps(keys, es) <==> k in keys;
    }
  }

  lemma AppendStamps<K(!new), R>(keys: seq<K>, es: seq<Entry<R>>, k: K, e: Entry<R>)
    requires |keys| == |es| && Distinct(keys) && k !in keys
    ensures Distinct(keys + [k])
    ensures Stamps(keys + [k], es + [e]) == Stamps(keys, es)[k := e.lastAccessed]
  {
    assert forall x :: x in Stamps(keys + [k], es + [e]) <==> x in keys + [k];
    assert forall x :: x in Stamps(keys, es) <==> x in keys;
  }

  lemma InsertFaithful<K(!new), R>(
    keys: seq<K>, es: seq<Entry<R>>, history: seq<K>, capacity: nat, clock: int, k: K, e: Entry<R>)
    requires |keys| == |es| && Distinct(keys) && k !in keys && clock < e.lastAccessed
    requires Faithful(Stamps(keys, es), history, capacity, clock)
    ensures var keys' := DropAt(keys, Victim(es, capacity)) + [k];
            && Distinct(keys')
            && Faithful(Stamps(keys', Inserted(es, capacity, e)), history + [k], capacity, e.lastAccessed)
  {
    hide Faithful;
    InsertIsAccess(keys, es, capacity, k, e);
    var keys' := DropAt(keys, Victim(es, capacity)) + [k];
    AccessKeepsFaithful(Stamps(keys, es), history, capacity, clock, k, e.lastAccessed,
      Stamps(keys', Inserted(es, capacity, e)));
  }

  lemma InsertIsAccess<K(!new), R>(keys: seq<K>, es: seq<Entry<R>>, capacity: nat, k: K, e: Entry<R>)
    requires |keys| == |es| && Distinct(keys) && k !in keys
    ensures var keys' := DropAt(keys, Victim(es, capacity)) + [k];
            && Distinct(keys')
            && Access(Stamps(keys, es), k, capacity, e.lastAccessed, Stamps(keys', Inserted(es, capacity, e)))
  {
    var v, m := Victim(es, capacity), Stamps(keys, es);
    DropKeepsDistinct(keys, v);
    StampsSize(keys, es);
    AppendStamps(DropAt(keys, v), DropAt(es, v), k, e);
    if v.Some? {
      DropStamps(keys, es, v.value);
      assert IsOldest(m, keys[v.value]);
    }
  }

  // ---------- Replacement follows the access history ----------

  // A run that also numbers the inserted entries and records which entry each access reached.
  datatype Traced<+R> = Traced(entries: seq<Entry<R>>, ids: seq<nat>, next: nat, history: seq<nat>)

  function TracedStep<R>(s: Traced<R>, capacity: nat, threshold: real, t: Timed<R>): Traced<R>
    requires |s.ids| == |s.entries|
  {
    var entries := Step(s.entries, capacity, threshold, t);
    if t.op.Put? then
      Traced(entries, DropAt(s.ids, Victim(s.entries, capacity)) + [s.next], s.next + 1, s.history + [s.next])
    else
      var hit := Hit(s.entries, threshold, t.op);
      Traced(entries, s.ids, s.next, if hit.Some? then s.history + [s.ids[hit.value]] else s.history)
  }

  function TracedRun<R>(capacity: nat, threshold: real, ops: seq<Timed<R>>): (s: Traced<R>)
    ensures |s.ids| == |s.entries| && s.entries == Run(capacity, threshold, ops)
  {
    if ops == [] then Traced([], [], 0, [])
    else TracedStep(TracedRun(capacity, threshold, ops[..|ops| - 1]), capacity, threshold, ops[|ops| - 1])
  }

  ghost predicate TraceInv<R>(s: Traced<R>, capacity: nat, clock: int) {
    && |s.ids| == |s.entries| && Distinct(s.ids)
    && (forall id :: id in s.ids ==> id < s.next)
    && Faithful(Stamps(s.ids, s.entries), s.history, capacity, clock)
  }

  lemma FaithfulLater<K(!new)>(m: Store<K>, history: seq<K>, capacity: nat, clock: int, later: int)
    requires Faithful(m, history, capacity, clock) && clock <= later
    ensures Faithful(m, history, capacity, later)
  {
  }

  lemma TracedStepKeepsInv<R>(s: Traced<R>, capacity: nat, threshold: real, t: Timed<R>, clock: int)
    requires TraceInv(s, capacity, clock) && clock < t.now
    ensures TraceInv(TracedStep(s, capacity, threshold, t), capacity, t.now)
  {
    if t.op.Put? {
      TracedPutKeepsInv(s, capacity, threshold, t, clock);
    } else {
      TracedLookupKeepsInv(s, capacity, threshold, t, clock);
    }
  }

  lemma TracedPutKeepsInv<R>(s: Traced<R>, capacity: nat, threshold: real, t: Timed<R>, clock: int)
    requires TraceInv(s, capacity, clock) && clock < t.now && t.op.Put?
    ensures TraceInv(TracedStep(s, capacity, threshold, t), capacity, t.now)
  {
    hide Faithful;
    var e := Entry(t.op.query, t.op.embedding, t.op.response, t.now);
    DropKeepsDistinct(s.ids, Victim(s.entries, capacity));
    InsertFaithful(s.ids, s.entries, s.history, capacity, clock, s.next, e);
    var s' := TracedStep(s, capacity, threshold, t);
    assert s'.entries == Inserted(s.entries, capacity, e);
    assert s'.ids == DropAt(s.ids, Victim(s.entries, capacity)) + [s.next];
  }

  lemma TracedLookupKeepsInv<R>(s: Traced<R>, capacity: nat, threshold: real, t: Timed<R>, clock: int)
    requires TraceInv(s, capacity, clock) && clock < t.now && !t.op.Put?
    ensures TraceInv(TracedStep(s, capacity, threshold, t), capacity, t.now)
  {
    hide Faithful;
    var hit := Hit(s.entries, threshold, t.op);
    if hit.Some? {
      TouchFaithful(s.ids, s.entries, s.history, capacity, clock, hit.value, t.now);
    } else {
      FaithfulLater(Stamps(s.ids, s.entries), s.history, capacity, clock, t.now);
    }
  }

  lemma {:induction false} TracedRunInv<R>(capacity: nat, threshold: real, ops: seq<Timed<R>>)
    requires Increasing(ops)
    ensures TraceInv(TracedRun(capacity, threshold, ops), capacity, Clock(ops))
  {
    if ops != [] {
      var init := ops[..|ops| - 1];
      TracedRunInv(capacity, threshold, init);
      TracedStepKeepsInv(TracedRun(capacity, threshold, init), capacity, threshold, ops[|ops| - 1], Clock(init));
    }
  }

  // The n-th inserted entry is cached exactly when fewer distinct other entries than the capacity
  // were inserted or hit since it was last inserted or hit.
  lemma LruExactly<R>(capacity: nat, threshold: real, ops: seq<Timed<R>>, id: nat)
    requires Increasing(ops)
    ensures var s := TracedRun(capacity, threshold, ops);
            id in s.ids <==> id in s.history && |Since(s.history, id)| < Effective(capacity)
  {
    var s := TracedRun(capacity, threshold, ops);
    TracedRunInv(capacity, threshold, ops);
    ResidentExactly(Stamps(s.ids, s.entries), s.history, capacity, Clock(ops), id);
  }

  // ---------- Entries with inequivalent queries ----------

  function QueryKeys<R>(es: seq<Entry<R>>): seq<string> {
    seq(|es|, i requires 0 <= i < |es| => QueryKey(es[i].query))
  }

  // The cached queries are pairwise inequivalent.
  ghost predicate Inequivalent<R>(es: seq<Entry<R>>) {
    Distinct(QueryKeys(es))
  }

  lemma MissMeansAbsent<R>(es: seq<Entry<R>>, query: string)
    ensures FindExact(es, query).None? <==> QueryKey(query) !in QueryKeys(es)
  {
    var hit := FindExact(es, query);
    if hit.Some? {
      assert QueryKeys(es)[hit.value] == QueryKey(query);
    }
  }

  // Inserting a query that the exact tier just missed keeps the cached queries inequivalent.
  lemma InsertAfterMiss<R>(es: seq<Entry<R>>, capacity: nat, e: Entry<R>)
    requires Inequivalent(es) && FindExact(es, e.query).None?
    ensures Inequivalent(Inserted(es, capacity, e))
    ensures QueryKeys(Inserted(es, capacity, e)) ==
            DropAt(QueryKeys(es), Victim(es, capacity)) + [QueryKey(e.query)]
  {
    MissMeansAbsent(es, e.query);
    DropKeepsDistinct(QueryKeys(es), Victim(es, capacity));
    DropQueryKeys(es, Victim(es, capacity));
    AppendQueryKeys(DropAt(es, Victim(es, capacity)), e);
  }

  // In general it does exactly when no equivalent entry is left after making room.
  lemma InsertInequivalentExactly<R>(es: seq<Entry<R>>, capacity: nat, e: Entry<R>)
    requires Inequivalent(es)
    ensures Inequivalent(Inserted(es, capacity, e)) <==>
            FindExact(DropAt(es, Victim(es, capacity)), e.query).None?
  {
    var kept := DropAt(es, Victim(es, capacity));
    DropKeepsDistinct(QueryKeys(es), Victim(es, capacity));
    DropQueryKeys(es, Victim(es, capacity));
    AppendQueryKeys(kept, e);
    MissMeansAbsent(kept, e.query);
    if QueryKey(e.query) in QueryKeys(kept) {
      var i :| 0 <= i < |QueryKeys(kept)| && QueryKeys(kept)[i] == QueryKey(e.query);
      assert (QueryKeys(kept) + [QueryKey(e.query)])[i] == (QueryKeys(kept) + [QueryKey(e.query)])[|kept|];
    }
  }

  // Exact lookup sees only the key of a query, and among inequivalent entries has one match at most.
  lemma {:induction false} ExactByKey<R>(es: seq<Entry<R>>, query: string, other: string)
    requires QueryKey(query) == QueryKey(other)
    ensures FindExact(es, query) == FindExact(es, other)
    ensures Inequivalent(es) ==>
              forall i, j :: 0 <= i < j < |es| ==>
                !(QueryKey(es[i].query) == QueryKey(query) && QueryKey(es[j].query) == QueryKey(query))
  {
    if es != [] {
      ExactByKey(es[..|es| - 1], query, other);
      if Inequivalent(es) {
        forall i, j | 0 <= i < j < |es|
          ensures !(QueryKey(es[i].query) == QueryKey(query) && QueryKey(es[j].query) == QueryKey(query))
        {
          assert QueryKeys(es)[i] != QueryKeys(es)[j];
        }
      }
    }
  }

  lemma AppendQueryKeys<R>(es: seq<Entry<R>>, e: Entry<R>)
    ensures QueryKeys(es + [e]) == QueryKeys(es) + [QueryKey(e.query)]
  {
  }

  lemma DropQueryKeys<R>(es: seq<Entry<R>>, v: Option<nat>)
    requires v.Some? ==> v.value < |es|
    ensures QueryKeys(DropAt(es, v)) == DropAt(QueryKeys(es), v)
  {
    forall i | 0 <= i < |DropAt(es, v)| ensures QueryKeys(DropAt(es, v))[i] == DropAt(QueryKeys(es), v)[i] {
      DropAtIndex(es, v, i);
      DropAtIndex(QueryKeys(es), v, i);
    }
  }

  // Inequivalent entries are in step with a history of accessed keys.
  ghost predicate KeyedInv<R>(es: seq<Entry<R>>, history: seq<string>, capacity: nat, clock: int) {
    Inequivalent(es) && Faithful(Stamps(QueryKeys(es), es), history, capacity, clock)
  }

  lemma TouchKeepsKeyed<R>(
    es: seq<Entry<R>>, history: seq<string>, capacity: nat, clock: int, i: nat, now: nat)
    requires KeyedInv(es, history, capacity, clock) && i < |es| && clock < now
    ensures KeyedInv(Touch(es, Some(i), now), history + [QueryKey(es[i].query)], capacity, now)
  {
    hide Faithful;
    assert QueryKeys(Touch(es, Some(i), now)) == QueryKeys(es);
    TouchFaithful(QueryKeys(es), es, history, capacity, clock, i, now);
  }

  lemma InsertKeepsKeyed<R>(
    es: seq<Entry<R>>, history: seq<string>, capacity: nat, clock: int, e: Entry<R>)
    requires KeyedInv(es, history, capacity, clock) && FindExact(es, e.query).None? && clock < e.lastAccessed
    ensures KeyedInv(Inserted(es, capacity, e), history + [QueryKey(e.query)], capacity, e.lastAccessed)
  {
    hide Faithful;
    InsertAfterMiss(es, capacity, e);
    MissMeansAbsent(es, e.query);
    InsertFaithful(QueryKeys(es), es, history, capacity, clock, QueryKey(e.query), e);
  }

  // The exact tier hits a query exactly when its key was accessed and fewer distinct other keys than
  // the capacity were accessed since.
  lemma KeyedHit<R>(es: seq<Entry<R>>, history: seq<string>, capacity: nat, clock: int, query: string)
    requires KeyedInv(es, history, capacity, clock)
    ensures FindExact(es, query).Some? <==>
            QueryKey(query) in history && |Since(history, QueryKey(query))| < Effective(capacity)
  {
    hide Faithful;
    ResidentExactly(Stamps(QueryKeys(es), es), history, capacity, clock, QueryKey(query));
    MissMeansAbsent(es, query);
  }

  // ---------- Inclusion under one sequence of calls ----------

  // The number of inserts in a run.
  function Puts<R>(ops: seq<Timed<R>>): nat {
    if ops == [] then 0 else Puts(ops[..|ops| - 1]) + if ops[|ops| - 1].op.Put? then 1 else 0
  }

  ghost predicate DistinctTimes<R>(es: seq<Entry<R>>) {
    forall i, j :: 0 <= i < j < |es| ==> es[i].lastAccessed != es[j].lastAccessed
  }

  ghost predicate NotAfter<R>(es: seq<Entry<R>>, clock: int) {
    forall i :: 0 <= i < |es| ==> es[i].lastAccessed <= clock
  }

  // What holds of a cache after a run with `puts` inserts, none of a query with a cached equivalent.
  ghost predicate Tidy<R>(es: seq<Entry<R>>, capacity: nat, puts: nat, clock: int) {
    && |es| == (if puts < Effective(capacity) then puts else Effective(capacity))
    && Inequivalent(es) && DistinctTimes(es) && NotAfter(es, clock)
  }

  ghost predicate Included<R(!new)>(small: seq<Entry<R>>, large: seq<Entry<R>>) {
    forall e :: e in small ==> e in large
  }

  lemma TouchKeepsTidy<R>(es: seq<Entry<R>>, capacity: nat, puts: nat, clock: int, hit: Option<nat>, now: nat)
    requires Tidy(es, capacity, puts, clock) && clock < now && (hit.Some? ==> hit.value < |es|)
    ensures Tidy(Touch(es, hit, now), capacity, puts, now)
  {
    assert QueryKeys(Touch(es, hit, now)) == QueryKeys(es);
  }

  lemma InsertKeepsTidy<R>(es: seq<Entry<R>>, capacity: nat, puts: nat, clock: int, e: Entry<R>)
    requires Tidy(es, capacity, puts, clock) && clock < e.lastAccessed && FindExact(es, e.query).None?
    ensures Tidy(Inserted(es, capacity, e), capacity, puts + 1, e.lastAccessed)
  {
    InsertAfterMiss(es, capacity, e);
    DropKeepsTimes(es, Victim(es, capacity), clock);
    AppendKeepsTimes(DropAt(es, Victim(es, capacity)), clock, e);
  }

  lemma DropKeepsTimes<R>(es: seq<Entry<R>>, v: Option<nat>, clock: int)
    requires DistinctTimes(es) && NotAfter(es, clock) && (v.Some? ==> v.value < |es|)
    ensures DistinctTimes(DropAt(es, v)) && NotAfter(DropAt(es, v), clock)
  {
    var kept := DropAt(es, v);
    forall i | 0 <= i < |kept| ensures kept[i] == es[Kept(v, i)] {
      DropAtIndex(es, v, i);
    }
  }

  lemma AppendKeepsTimes<R>(kept: seq<Entry<R>>, clock: int, e: Entry<R>)
    requires DistinctTimes(kept) && NotAfter(kept, clock) && clock < e.lastAccessed
    ensures DistinctTimes(kept + [e]) && NotAfter(kept + [e], e.lastAccessed)
  {
  }

  lemma InequivalentAt<R>(es: seq<Entry<R>>, i: nat, j: nat)
    requires Inequivalent(es) && i < |es| && j < |es| && QueryKey(es[i].query) == QueryKey(es[j].query)
    ensures i == j
  {
    assert QueryKeys(es)[i] == QueryKeys(es)[j];
  }

  // Both caches hit one entry, or the smaller one misses and does not have what the larger one hits.
  ghost predicate SameHit<R(!new)>(small: seq<Entry<R>>, a: Option<nat>, large: seq<Entry<R>>, b: Option<nat>)
    requires (a.Some? ==> a.value < |small|) && (b.Some? ==> b.value < |large|)
  {
    if a.Some? then b.Some? && small[a.value] == large[b.value]
    else b.Some? ==> large[b.value] !in small
  }

  // The exact tiers always do.
  lemma ExactAgrees<R(!new)>(small: seq<Entry<R>>, large: seq<Entry<R>>, query: string)
    requires Inequivalent(large) && Included(small, large)
    ensures SameHit(small, FindExact(small, query), large, FindExact(large, query))
  {
    var a, b := FindExact(small, query), FindExact(large, query);
    if a.Some? {
      var e := small[a.value];
      assert e in small;
      var j :| 0 <= j < |large| && large[j] == e;
      InequivalentAt(large, b.value, j);
    }
  }

  lemma TouchedIn<R(!new)>(
    small: seq<Entry<R>>, a: Option<nat>, large: seq<Entry<R>>, b: Option<nat>, now: nat, i: nat)
    requires Inequivalent(small) && Included(small, large) && i < |small|
    requires (a.Some? ==> a.value < |small|) && (b.Some? ==> b.value < |large|) && SameHit(small, a, large, b)
    ensures Touch(small, a, now)[i] in Touch(large, b, now)
  {
    var large' := Touch(large, b, now);
    if a == Some(i) {
      assert large'[b.value] == Touch(small, a, now)[i];
    } else {
      assert small[i] in small;
      var j :| 0 <= j < |large| && large[j] == small[i];
      if b == Some(j) {
        InequivalentAt(small, a.value, i);
      }
      assert large'[j] == small[i];
    }
  }

  // A lookup keeps inclusion exactly when both caches have the same hit.
  lemma TouchIncludedExactly<R(!new)>(
    small: seq<Entry<R>>, a: Option<nat>, large: seq<Entry<R>>, b: Option<nat>, clock: int, now: nat)
    requires Inequivalent(small) && Inequivalent(large) && Included(small, large)
    requires NotAfter(small, clock) && NotAfter(large, clock) && clock < now
    requires (a.Some? ==> a.value < |small|) && (b.Some? ==> b.value < |large|)
    ensures Included(Touch(small, a, now), Touch(large, b, now)) <==> SameHit(small, a, large, b)
  {
    if SameHit(small, a, large, b) {
      forall i | 0 <= i < |small| ensures Touch(small, a, now)[i] in Touch(large, b, now) {
        TouchedIn(small, a, large, b, now, i);
      }
    } else {
      DifferentHit(small, a, large, b, clock, now);
    }
  }

  lemma DifferentHit<R(!new)>(
    small: seq<Entry<R>>, a: Option<nat>, large: seq<Entry<R>>, b: Option<nat>, clock: int, now: nat)
    requires Inequivalent(large) && Included(small, large)
    requires NotAfter(small, clock) && NotAfter(large, clock) && clock < now
    requires (a.Some? ==> a.value < |small|) && (b.Some? ==> b.value < |large|) && !SameHit(small, a, large, b)
    ensures !Included(Touch(small, a, now), Touch(large, b, now))
  {
    var small', large' := Touch(small, a, now), Touch(large, b, now);
    if a.Some? {
      var e := small'[a.value];
      assert e in small' && small[a.value] in small;
      if e in large' {
        var j :| 0 <= j < |large| && large'[j] == e;
        var m :| 0 <= m < |large| && large[m] == small[a.value];
        InequivalentAt(large, m, j);
        assert false;
      }
    } else {
      var e := large[b.value];
      assert e in small';
      if e in large' {
        var j :| 0 <= j < |large| && large'[j] == e;
        InequivalentAt(large, b.value, j);
        assert false;
      }
    }
  }

  // If the larger cache drops an entry of the smaller one, the smaller one drops it too.
  lemma VictimShared<R(!new)>(
    small: seq<Entry<R>>, c: nat, large: seq<Entry<R>>, c': nat, puts: nat, clock: int, i: nat)
    requires c <= c' && Included(small, large)
    requires Tidy(small, c, puts, clock) && Tidy(large, c', puts, clock)
    requires Victim(large, c').Some? && i < |small| && small[i] == large[Victim(large, c').value]
    ensures Victim(small, c) == Some(i)
  {
    var v := Oldest(small);
    assert small[v] in small;
    var m :| 0 <= m < |large| && large[m] == small[v];
    assert small[i].lastAccessed <= large[m].lastAccessed;
  }

  lemma SurvivorIncluded<R(!new)>(
    small: seq<Entry<R>>, c: nat, large: seq<Entry<R>>, c': nat, puts: nat, clock: int, i: nat)
    requires c <= c' && Included(small, large)
    requires Tidy(small, c, puts, clock) && Tidy(large, c', puts, clock)
    requires i < |small| && Victim(small, c) != Some(i)
    ensures small[i] in DropAt(large, Victim(large, c'))
  {
    hide Tidy;
    var v' := Victim(large, c');
    assert small[i] in small;
    var j :| 0 <= j < |large| && large[j] == small[i];
    assert v' != Some(j) by {
      if v' == Some(j) {
        VictimShared(small, c, large, c', puts, clock, i);
      }
    }
    KeptIn(large, v', j);
  }

  lemma KeptIn<T>(s: seq<T>, v: Option<nat>, j: nat)
    requires (v.Some? ==> v.value < |s|) && j < |s| && v != Some(j)
    ensures s[j] in DropAt(s, v)
  {
    assert DropAt(s, v)[if v.None? || j < v.value then j else j - 1] == s[j];
  }

  lemma InsertKeepsIncluded<R(!new)>(
    small: seq<Entry<R>>, c: nat, large: seq<Entry<R>>, c': nat, puts: nat, clock: int, e: Entry<R>)
    requires c <= c' && Included(small, large)
    requires Tidy(small, c, puts, clock) && Tidy(large, c', puts, clock)
    ensures Included(Inserted(small, c, e), Inserted(large, c', e))
  {
    hide Tidy;
    var v := Victim(small, c);
    forall i | 0 <= i < |DropAt(small, v)| ensures DropAt(small, v)[i] in DropAt(large, Victim(large, c')) {
      DropAtIndex(small, v, i);
      SurvivorIncluded(small, c, large, c', puts, clock, Kept(v, i));
    }
  }

  // The smaller cache, included in the larger one, misses what the larger one misses.
  lemma MissShared<R(!new)>(small: seq<Entry<R>>, large: seq<Entry<R>>, query: string)
    requires Included(small, large) && FindExact(large, query).None?
    ensures FindExact(small, query).None?
  {
    forall i | 0 <= i < |small| ensures QueryKey(small[i].query) != QueryKey(query) {
      assert small[i] in small;
    }
  }

  // Every insert is of a query that the cache has no equivalent of at that time.
  ghost predicate InsertsMissed<R>(capacity: nat, threshold: real, ops: seq<Timed<R>>) {
    forall n :: 0 <= n < |ops| && ops[n].op.Put? ==>
      FindExact(Run(capacity, threshold, ops[..n]), ops[n].op.query).None?
  }

  // Every similarity lookup has the same hit in both caches.
  ghost predicate LookupsAgree<R(!new)>(c: nat, c': nat, threshold: real, ops: seq<Timed<R>>) {
    forall n :: 0 <= n < |ops| ==> LookupAgrees(c, c', threshold, ops[..n], ops[n].op)
  }

  ghost predicate LookupAgrees<R(!new)>(c: nat, c': nat, threshold: real, before: seq<Timed<R>>, op: Op<R>) {
    var small, large := Run(c, threshold, before), Run(c', threshold, before);
    op.Similar? ==> SameHit(small, Hit(small, threshold, op), large, Hit(large, threshold, op))
  }

  ghost predicate RunIncluded<R(!new)>(c: nat, c': nat, threshold: real, ops: seq<Timed<R>>) {
    Included(Run(c, threshold, ops), Run(c', threshold, ops))
  }

  ghost predicate AlwaysIncluded<R(!new)>(c: nat, c': nat, threshold: real, ops: seq<Timed<R>>) {
    forall n :: 0 <= n <= |ops| ==> RunIncluded(c, c', threshold, ops[..n])
  }

  lemma StepTidy<R>(es: seq<Entry<R>>, capacity: nat, threshold: real, puts: nat, clock: int, t: Timed<R>)
    requires Tidy(es, capacity, puts, clock) && clock < t.now
    requires t.op.Put? ==> FindExact(es, t.op.query).None?
    ensures Tidy(Step(es, capacity, threshold, t), capacity, puts + if t.op.Put? then 1 else 0, t.now)
  {
    hide Tidy;
    if t.op.Put? {
      InsertKeepsTidy(es, capacity, puts, clock, Entry(t.op.query, t.op.embedding, t.op.response, t.now));
    } else {
      TouchKeepsTidy(es, capacity, puts, clock, Hit(es, threshold, t.op), t.now);
    }
  }

  lemma StepIncludedExactly<R(!new)>(
    small: seq<Entry<R>>, c: nat, large: seq<Entry<R>>, c': nat, threshold: real, puts: nat, clock: int, t: Timed<R>)
    requires c <= c' && Included(small, large)
    requires Tidy(small, c, puts, clock) && Tidy(large, c', puts, clock) && clock < t.now
    ensures Included(Step(small, c, threshold, t), Step(large, c', threshold, t)) <==>
            (t.op.Similar? ==> SameHit(small, Hit(small, threshold, t.op), large, Hit(large, threshold, t.op)))
  {
    if t.op.Put? {
      hide Tidy, Included;
      InsertKeepsIncluded(small, c, large, c', puts, clock,
        Entry(t.op.query, t.op.embedding, t.op.response, t.now));
    } else {
      hide DistinctTimes, Included, SameHit;
      TouchIncludedExactly(small, Hit(small, threshold, t.op), large, Hit(large, threshold, t.op), clock, t.now);
      if t.op.Exact? {
        ExactAgrees(small, large, t.op.query);
      }
    }
  }

  lemma AlwaysIncludedNext<R(!new)>(c: nat, c': nat, threshold: real, ops: seq<Timed<R>>)
    requires ops != []
    ensures AlwaysIncluded(c, c', threshold, ops) <==>
            AlwaysIncluded(c, c', threshold, ops[..|ops| - 1]) && RunIncluded(c, c', threshold, ops)
  {
    hide RunIncluded;
    var init := ops[..|ops| - 1];
    assert ops[..|ops|] == ops;
    assert forall n :: 0 <= n <= |init| ==> init[..n] == ops[..n];
  }

  lemma LookupsAgreeNext<R(!new)>(c: nat, c': nat, threshold: real, ops: seq<Timed<R>>)
    requires ops != []
    ensures LookupsAgree(c, c', threshold, ops) <==>
            && LookupsAgree(c, c', threshold, ops[..|ops| - 1])
            && LookupAgrees(c, c', threshold, ops[..|ops| - 1], ops[|ops| - 1].op)
  {
    hide LookupAgrees;
    var init := ops[..|ops| - 1];
    assert forall n :: 0 <= n < |init| ==> init[..n] == ops[..n];
  }

  lemma InsertsMissedInit<R>(capacity: nat, threshold: real, ops: seq<Timed<R>>)
    requires ops != [] && InsertsMissed(capacity, threshold, ops)
    ensures InsertsMissed(capacity, threshold, ops[..|ops| - 1])
    ensures ops[|ops| - 1].op.Put? ==>
              FindExact(Run(capacity, threshold, ops[..|ops| - 1]), ops[|ops| - 1].op.query).None?
  {
    hide Run;
    var init := ops[..|ops| - 1];
    assert forall n :: 0 <= n < |init| ==> init[..n] == ops[..n];
  }

  lemma {:induction false} RunInclusion<R(!new)>(c: nat, c': nat, threshold: real, ops: seq<Timed<R>>)
    requires c <= c' && Increasing(ops) && InsertsMissed(c', threshold, ops)
    ensures AlwaysIncluded(c, c', threshold, ops) <==> LookupsAgree(c, c', threshold, ops)
    ensures Tidy(Run(c', threshold, ops), c', Puts(ops), Clock(ops))
    ensures AlwaysIncluded(c, c', threshold, ops) ==> Tidy(Run(c, threshold, ops), c, Puts(ops), Clock(ops))
  {
    if ops != [] {
      hide Tidy, Included, SameHit, AlwaysIncluded, LookupsAgree, InsertsMissed;
      var init, last := ops[..|ops| - 1], ops[|ops| - 1];
      var small, large := Run(c, threshold, init), Run(c', threshold, init);
      InsertsMissedInit(c', threshold, ops);
      RunInclusion(c, c', threshold, init);
      AlwaysIncludedNext(c, c', threshold, ops);
      LookupsAgreeNext(c, c', threshold, ops);
      StepTidy(large, c', threshold, Puts(init), Clock(init), last);
      if AlwaysIncluded(c, c', threshold, init) {
        AlwaysIncludedLast(c, c', threshold, init);
        if last.op.Put? {
          MissShared(small, large, last.op.query);
        }
        StepTidy(small, c, threshold, Puts(init), Clock(init), last);
        StepIncludedExactly(small, c, large, c', threshold, Puts(init), Clock(init), last);
      }
    }
  }

  lemma AlwaysIncludedLast<R(!new)>(c: nat, c': nat, threshold: real, ops: seq<Timed<R>>)
    requires AlwaysIncluded(c, c', threshold, ops)
    ensures RunIncluded(c, c', threshold, ops)
  {
    hide RunIncluded;
    assert ops[..|ops|] == ops;
  }

  // Under one sequence of calls that inserts only what the larger cache misses, the larger cache always
  // holds every entry of the smaller one, timestamps included, exactly when all similarity lookups have
  // the same hit in both; then it answers every exact lookup that the smaller one answers, alike.
  lemma LargerCacheIncludes<R(!new)>(c: nat, c': nat, threshold: real, ops: seq<Timed<R>>)
    requires c <= c' && Increasing(ops) && InsertsMissed(c', threshold, ops)
    ensures AlwaysIncluded(c, c', threshold, ops) <==> LookupsAgree(c, c', threshold, ops)
    ensures LookupsAgree(c, c', threshold, ops) ==>
              var small, large := Run(c, threshold, ops), Run(c', threshold, ops);
              forall query :: FindExact(small, query).Some? ==>
                && FindExact(large, query).Some?
                && Response(small, FindExact(small, query)) == Response(large, FindExact(large, query))
  {
    RunInclusion(c, c', threshold, ops);
    if LookupsAgree(c, c', threshold, ops) {
      AlwaysIncludedLast(c, c', threshold, ops);
      var small, large := Run(c, threshold, ops), Run(c', threshold, ops);
      forall query | FindExact(small, query).Some?
        ensures FindExact(large, query).Some?
        ensures Response(small, FindExact(small, query)) == Response(large, FindExact(large, query))
      {
        ExactAgrees(small, large, query);
      }
    }
  }

  // In particular without similarity lookups.
  lemma ExactRunsAgree<R(!new)>(c: nat, c': nat, threshold: real, ops: seq<Timed<R>>)
    requires forall n :: 0 <= n < |ops| ==> !ops[n].op.Similar?
    ensures LookupsAgree(c, c', threshold, ops)
  {
  }

  // Three inserts, a similarity lookup, and one more insert.
  function Straying(): seq<Timed<nat>> {
    [Timed(Put("a", [1.0], 0), 0), Timed(Put("b", [1.0], 1), 1), Timed(Put("d", [], 2), 2),
     Timed(Similar([1.0]), 3), Timed(Put("e", [], 3), 4)]
  }

  lemma LetterKey(c: char)
    requires 'a' <= c <= 'z'
    ensures QueryKey([c]) == [c]
  {
    assert Text.Trim([c]) == [c];
  }

  lemma RunAfter<R>(capacity: nat, threshold: real, ops: seq<Timed<R>>, n: nat)
    requires n < |ops|
    ensures Run(capacity, threshold, ops[..n + 1]) ==
            Step(Run(capacity, threshold, ops[..n]), capacity, threshold, ops[n])
  {
    assert ops[..n + 1][..n] == ops[..n];
  }

  // The hit among entries of which the first is equal to the embedding [1.0].
  lemma FirstIsSimilar(es: seq<Entry<nat>>, threshold: real)
    requires es != [] && es[0].embedding == [1.0] && threshold <= 1.0
    requires forall i :: 0 <= i < |es| ==> es[i].embedding == [1.0] || es[i].embedding == []
    ensures FindSimilar(es, [1.0], threshold) == Some(0)
  {
    assert Dot([1.0], [1.0]) == 1.0 by {
      assert [1.0][..0] == [];
    }
    assert Comparable(es[0], [1.0]);
    SimilarHitExactly(es, [1.0], threshold);
  }

  function StrayingEntry(n: nat): Entry<nat>
    requires n < 5 && Straying()[n].op.Put?
  {
    var t := Straying()[n];
    Entry(t.op.query, t.op.embedding, t.op.response, t.now)
  }

  // After each call: what is cached with capacity 2, and with capacity 3.
  function StrayingCaches(n: nat): (seq<Entry<nat>>, seq<Entry<nat>>)
    requires n <= 5
  {
    var a, b, d, e := StrayingEntry(0), StrayingEntry(1), StrayingEntry(2), StrayingEntry(4);
    if n == 0 then ([], [])
    else if n == 1 then ([a], [a])
    else if n == 2 then ([a, b], [a, b])
    else if n == 3 then ([b, d], [a, b, d])
    else if n == 4 then ([b.(lastAccessed := 3), d], [a.(lastAccessed := 3), b, d])
    else ([b.(lastAccessed := 3), e], [a.(lastAccessed := 3), d, e])
  }

  lemma StrayingStep(threshold: real, n: nat)
    requires threshold <= 1.0 && n < 5
    ensures Step(StrayingCaches(n).0, 2, threshold, Straying()[n]) == StrayingCaches(n + 1).0
    ensures Step(StrayingCaches(n).1, 3, threshold, Straying()[n]) == StrayingCaches(n + 1).1
  {
    hide *;
    if n == 3 {
      StrayingLookup(threshold);
    } else {
      StrayingInsert(threshold, n);
    }
  }

  lemma StrayingLookup(threshold: real)
    requires threshold <= 1.0
    ensures Step(StrayingCaches(3).0, 2, threshold, Straying()[3]) == StrayingCaches(4).0
    ensures Step(StrayingCaches(3).1, 3, threshold, Straying()[3]) == StrayingCaches(4).1
  {
    hide FindSimilar;
    FirstIsSimilar(StrayingCaches(3).0, threshold);
    FirstIsSimilar(StrayingCaches(3).1, threshold);
  }

  lemma StrayingInsert(threshold: real, n: nat)
    requires n < 5 && n != 3
    ensures Step(StrayingCaches(n).0, 2, threshold, Straying()[n]) == StrayingCaches(n + 1).0
    ensures Step(StrayingCaches(n).1, 3, threshold, Straying()[n]) == StrayingCaches(n + 1).1
  {
    hide FindSimilar, FindExact;
  }

  lemma {:induction false} StrayingRun(threshold: real, n: nat)
    requires threshold <= 1.0 && n <= 5
    ensures Run(2, threshold, Straying()[..n]) == StrayingCaches(n).0
    ensures Run(3, threshold, Straying()[..n]) == StrayingCaches(n).1
  {
    if n > 0 {
      StrayingRun(threshold, n - 1);
      RunAfter(2, threshold, Straying(), n - 1);
      RunAfter(3, threshold, Straying(), n - 1);
      hide Run, Step;
      StrayingStep(threshold, n - 1);
    }
  }

  lemma StrayingMisses(n: nat)
    requires n < 5 && Straying()[n].op.Put?
    ensures FindExact(StrayingCaches(n).1, Straying()[n].op.query).None?
  {
    LetterKey('a');
    LetterKey('b');
    LetterKey('d');
    LetterKey('e');
  }

  lemma StrayingEnds()
    ensures FindExact(StrayingCaches(5).0, "b").Some? && FindExact(StrayingCaches(5).1, "b").None?
  {
    LetterKey('a');
    LetterKey('b');
    LetterKey('d');
    LetterKey('e');
  }

  // The similarity lookup refreshes "b" in the smaller cache, but the earlier and equally similar "a" in the
  // larger one, which then drops "b" and loses an exact hit that the smaller one keeps.
  lemma LargerCacheCanMiss(threshold: real)
    requires threshold <= 1.0
    ensures Increasing(Straying()) && InsertsMissed(3, threshold, Straying())
    ensures FindExact(Run(2, threshold, Straying()), "b").Some?
    ensures FindExact(Run(3, threshold, Straying()), "b").None?
  {
    hide Run, StrayingCaches, FindExact;
    forall n | 0 <= n < 5 && Straying()[n].op.Put?
      ensures FindExact(Run(3, threshold, Straying()[..n]), Straying()[n].op.query).None?
    {
      StrayingRun(threshold, n);
      StrayingMisses(n);
    }
    StrayingRun(threshold, 5);
    assert Straying()[..5] == Straying();
    StrayingEnds();
  }
}
