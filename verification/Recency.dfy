/**
 Least-recently-used replacement by timestamps, for keys of any type: under a strictly increasing
 clock, what a bounded store keeps is a function of the access history alone.
 */
module Recency {
  // The time of the last access to each stored key.
  type Store<!K> = map<K, nat>

  // A store of capacity 0 still holds the latest key.
  function Effective(capacity: nat): nat {
    if capacity == 0 then 1 else capacity
  }

  ghost predicate IsOldest<K>(m: Store<K>, v: K) {
    v in m && forall k :: k in m ==> m[v] <= m[k]
  }

  // One access: refresh a stored key, or make room by dropping an oldest key and add the new one.
  ghost predicate Access<K(!new)>(m: Store<K>, k: K, capacity: nat, now: nat, m': Store<K>) {
    if k in m || |m| < capacity || m == map[] then m' == m[k := now]
    else exists v :: IsOldest(m, v) && m' == (m - {v})[k := now]
  }

  // The keys accessed since the last access to `k`.
  ghost function Since<K>(history: seq<K>, k: K): set<K> {
    if history == [] then {}
    else
      var n := |history| - 1;
      if history[n] == k then {} else Since(history[..n], k) + {history[n]}
  }

  ghost function Newer<K>(m: Store<K>, k: K): set<K>
    requires k in m
  {
    set x | x in m && m[x] > m[k]
  }

  ghost predicate Injective<K(!new)>(m: Store<K>) {
    forall a, b :: a in m && b in m && a != b ==> m[a] != m[b]
  }

  /** What every access keeps. */
  ghost predicate Faithful<K(!new)>(m: Store<K>, history: seq<K>, capacity: nat, clock: int) {
    && |m| <= Effective(capacity)
    && Injective(m)
    && (forall k :: k in m ==> m[k] <= clock)
    && (forall k :: k in m ==> Recorded(m, history, k))
    && (forall k :: k !in m ==> Gone(history, capacity, k))
  }

  // The newer keys are the ones accessed since.
  ghost predicate Recorded<K(!new)>(m: Store<K>, history: seq<K>, k: K)
    requires k in m
  {
    k in history && Since(history, k) == Newer(m, k)
  }

  ghost predicate Gone<K(!new)>(history: seq<K>, capacity: nat, k: K) {
    k in history ==> |Since(history, k)| >= Effective(capacity)
  }

  lemma SubsetSize<K>(a: set<K>, b: set<K>)
    requires a <= b
    ensures |a| <= |b|
  {
    assert b == a + (b - a);
  }

  lemma SinceNext<K>(history: seq<K>, k: K, other: K)
    ensures Since(history + [k], other) == if other == k then {} else Since(history, other) + {k}
  {
    assert (history + [k])[..|history|] == history;
  }

  lemma NewerSize<K>(m: Store<K>, k: K)
    requires k in m
    ensures |Newer(m, k)| < |m|
  {
    SubsetSize(Newer(m, k), m.Keys - {k});
  }

  // The store after an access to `k` that drops `gone`: the oldest key, or nothing.
  ghost function After<K>(m: Store<K>, gone: set<K>, k: K, now: nat): Store<K> {
    (m - gone)[k := now]
  }

  ghost predicate Droppable<K(!new)>(m: Store<K>, gone: set<K>, k: K) {
    gone == {} || (k !in m && exists v :: gone == {v} && IsOldest(m, v))
  }

  lemma RecordedAfter<K(!new)>(m: Store<K>, history: seq<K>, gone: set<K>, k: K, now: nat, x: K)
    requires Injective(m) && Droppable(m, gone, k) && forall y :: y in m ==> m[y] < now
    requires x in After(m, gone, k, now) && (x in m ==> Recorded(m, history, x))
    ensures Recorded(After(m, gone, k, now), history + [k], x)
  {
    var m' := After(m, gone, k, now);
    SinceNext(history, k, x);
    if x == k {
      assert Newer(m', k) == {};
    } else {
      assert Newer(m', x) == Newer(m, x) + {k};
    }
  }

  lemma AllRecordedAfter<K(!new)>(m: Store<K>, history: seq<K>, gone: set<K>, k: K, now: nat)
    requires Injective(m) && Droppable(m, gone, k) && forall y :: y in m ==> m[y] < now
    requires forall x :: x in m ==> Recorded(m, history, x)
    ensures var m' := After(m, gone, k, now);
            && Injective(m')
            && (forall x :: x in m' ==> m'[x] <= now && Recorded(m', history + [k], x))
  {
    forall x | x in After(m, gone, k, now)
      ensures Recorded(After(m, gone, k, now), history + [k], x)
    {
      RecordedAfter(m, history, gone, k, now, x);
    }
  }

  lemma GoneAfter<K(!new)>(m: Store<K>, history: seq<K>, capacity: nat, gone: set<K>, k: K, x: K)
    requires x !in m ==> Gone(history, capacity, x)
    requires Injective(m) && Droppable(m, gone, k) && (gone != {} ==> |m| == Effective(capacity))
    requires x in gone ==> Recorded(m, history, x)
    requires x != k && (x in m ==> x in gone)
    ensures Gone(history + [k], capacity, x)
  {
    SinceNext(history, k, x);
    if x in gone {
      assert Newer(m, x) == m.Keys - {x};
      assert |Newer(m, x) + {k}| == |m.Keys|;
    } else if x in history {
      SubsetSize(Since(history, x), Since(history + [k], x));
    }
  }

  lemma AfterSize<K(!new)>(m: Store<K>, gone: set<K>, k: K, now: nat, capacity: nat)
    requires Droppable(m, gone, k) && |m| <= Effective(capacity)
    requires k in m || gone != {} || |m| < Effective(capacity)
    ensures |After(m, gone, k, now)| <= Effective(capacity)
  {
    var m' := After(m, gone, k, now);
    assert m'.Keys == m.Keys - gone + {k};
    assert |m'.Keys| == |m'| && |m.Keys| == |m|;
  }

  // What an access drops.
  lemma AccessDrops<K(!new)>(m: Store<K>, k: K, capacity: nat, now: nat, m': Store<K>) returns (gone: set<K>)
    requires Access(m, k, capacity, now, m')
    ensures Droppable(m, gone, k) && m' == After(m, gone, k, now)
    ensures gone == {} ==> k in m || |m| < Effective(capacity)
    ensures gone != {} ==> |m| >= Effective(capacity)
  {
    if k in m || |m| < capacity || m == map[] {
      gone := {};
      assert m - gone == m;
    } else {
      var v :| IsOldest(m, v) && m' == (m - {v})[k := now];
      gone := {v};
    }
  }

  lemma AccessKeepsFaithful<K(!new)>(
    m: Store<K>, history: seq<K>, capacity: nat, clock: int, k: K, now: nat, m': Store<K>)
    requires Faithful(m, history, capacity, clock) && clock < now && Access(m, k, capacity, now, m')
    ensures Faithful(m', history + [k], capacity, now)
  {
    var gone := AccessDrops(m, k, capacity, now, m');
    AfterSize(m, gone, k, now, capacity);
    AllRecordedAfter(m, history, gone, k, now);
    forall x | x !in m' ensures Gone(history + [k], capacity, x) {
      GoneAfter(m, history, capacity, gone, k, x);
    }
  }

  // A key is stored exactly when fewer distinct others than the capacity were accessed since.
  lemma ResidentExactly<K(!new)>(m: Store<K>, history: seq<K>, capacity: nat, clock: int, k: K)
    requires Faithful(m, history, capacity, clock)
    ensures k in m <==> k in history && |Since(history, k)| < Effective(capacity)
  {
    if k in m {
      NewerSize(m, k);
    }
  }
}
