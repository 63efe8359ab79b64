/**
 Whole runs of the query pipeline over one cache: calls one after the other, and calls that interleave.
 */
module PipelineRuns {
  import opened Outcomes
  import opened Text
  import opened Recency
  import opened Cache
  import CacheRuns
  import opened Firewall
  import opened FallbackSql
  import opened QueryPipeline
  import opened PipelineCall
  import Ingestion
  import HybridSearch

  // ---------- What calls in sequence keep ----------

  ghost predicate Decodable(cfg: Config, es: Entries) {
    forall e :: e in es ==> cfg.decode(e.response).Some?
  }

  // A call past the exact tier had missed, and nothing equivalent was inserted since.
  ghost predicate SerialInv(cfg: Config, es: Entries, call: Call) {
    && CacheRuns.Inequivalent(es) && Decodable(cfg, es)
    && (!call.pc.Start? && !call.pc.Done? ==> FindExact(es, call.query).None?)
  }

  lemma TouchKeepsSerial(cfg: Config, es: Entries, hit: Option<nat>, now: nat)
    requires CacheRuns.Inequivalent(es) && Decodable(cfg, es) && (hit.Some? ==> hit.value < |es|)
    ensures CacheRuns.Inequivalent(Touch(es, hit, now)) && Decodable(cfg, Touch(es, hit, now))
    ensures CacheRuns.QueryKeys(Touch(es, hit, now)) == CacheRuns.QueryKeys(es)
  {
    assert CacheRuns.QueryKeys(Touch(es, hit, now)) == CacheRuns.QueryKeys(es);
    forall j | 0 <= j < |es| ensures cfg.decode(Touch(es, hit, now)[j].response).Some? {
      assert es[j] in es;
    }
  }

  // A tier that hits ends the call, and one that misses changes nothing.
  lemma TierKeepsSerial(cfg: Config, es: Entries, call: Call, hit: Option<nat>, now: nat, otherwise: Pc)
    requires CacheRuns.Inequivalent(es) && Decodable(cfg, es)
    requires if hit.Some? then hit.value < |es| else FindExact(es, call.query).None?
    ensures SerialInv(cfg, Touch(es, hit, now), FromCache(cfg, call, Response(es, hit), otherwise))
  {
    TouchKeepsSerial(cfg, es, hit, now);
    assert hit.Some? ==> es[hit.value] in es;
  }

  lemma StoreKeepsSerial(cfg: Config, es: Entries, payload: SemanticResponse, e: Entry<string>)
    requires RoundTrips(cfg) && CacheRuns.Inequivalent(es) && Decodable(cfg, es) && FindExact(es, e.query).None?
    requires cfg.encode(Verified(payload)) == Some(e.response)
    ensures CacheRuns.Inequivalent(Inserted(es, cfg.capacity, e)) && Decodable(cfg, Inserted(es, cfg.capacity, e))
  {
    CacheRuns.InsertAfterMiss(es, cfg.capacity, e);
  }

  lemma EmbeddingKeepsSerial(cfg: Config, es: Entries, call: Call, i: Input)
    requires SerialInv(cfg, es, call) && call.pc.Embedding?
    ensures SerialInv(cfg, Advance(cfg, es, call, i).0, Advance(cfg, es, call, i).1)
  {
    if i.embedding.Some? {
      var hit := FindSimilar(es, i.embedding.value, cfg.threshold);
      TierKeepsSerial(cfg, es, call, hit, i.now, Searching(call.pc.parsed.intent, i.embedding.value));
    }
  }

  lemma StoringKeepsSerial(cfg: Config, es: Entries, call: Call, i: Input)
    requires RoundTrips(cfg) && SerialInv(cfg, es, call) && call.pc.Storing?
    ensures SerialInv(cfg, Advance(cfg, es, call, i).0, Advance(cfg, es, call, i).1)
  {
    var bytes := cfg.encode(Verified(call.pc.payload));
    var (es', call') := Advance(cfg, es, call, i);
    assert call'.pc.Done?;
    if bytes.Some? {
      var e := Entry(call.query, call.pc.vector, bytes.value, i.now);
      assert es' == Inserted(es, cfg.capacity, e);
      StoreKeepsSerial(cfg, es, call.pc.payload, e);
    } else {
      assert es' == es;
    }
  }

  lemma QuietAdvance(cfg: Config, es: Entries, call: Call, i: Input)
    requires !call.pc.Start? && !call.pc.Embedding? && !call.pc.Storing?
    ensures var (es', call') := Advance(cfg, es, call, i);
            es' == es && call'.query == call.query && !call'.pc.Start? && (call.pc.Done? ==> call' == call)
  {
  }

  lemma AdvanceKeepsSerial(cfg: Config, es: Entries, call: Call, i: Input)
    requires RoundTrips(cfg) && SerialInv(cfg, es, call)
    ensures SerialInv(cfg, Advance(cfg, es, call, i).0, Advance(cfg, es, call, i).1)
  {
    if call.pc.Start? {
      TierKeepsSerial(cfg, es, call, FindExact(es, call.query), i.now, Parsing);
    } else if call.pc.Embedding? {
      EmbeddingKeepsSerial(cfg, es, call, i);
    } else if call.pc.Storing? {
      StoringKeepsSerial(cfg, es, call, i);
    } else {
      QuietAdvance(cfg, es, call, i);
    }
  }

  lemma {:induction false} FinishKeepsSerial(cfg: Config, es: Entries, call: Call, io: nat -> Input)
    requires RoundTrips(cfg) && SerialInv(cfg, es, call)
    ensures var es' := Finish(cfg, es, call, io).0; CacheRuns.Inequivalent(es') && Decodable(cfg, es')
    decreases 8 - Stage(call.pc)
  {
    if !call.pc.Done? {
      var i := io(Stage(call.pc));
      StageGrows(cfg, es, call, i);
      AdvanceKeepsSerial(cfg, es, call, i);
      var (es', call') := Advance(cfg, es, call, i);
      FinishKeepsSerial(cfg, es', call', io);
    }
  }

  // Queries one after the other, each with its inputs.
  function Serial(cfg: Config, queries: seq<(string, nat -> Input)>): Entries {
    if queries == [] then []
    else
      var last := queries[|queries| - 1];
      Finish(cfg, Serial(cfg, queries[..|queries| - 1]), Call(last.0, Start, {}), last.1).0
  }

  // Calls in sequence never cache two equivalent queries.
  lemma {:induction false} SerialIsInequivalent(cfg: Config, queries: seq<(string, nat -> Input)>)
    requires RoundTrips(cfg)
    ensures CacheRuns.Inequivalent(Serial(cfg, queries)) && Decodable(cfg, Serial(cfg, queries))
  {
    if queries != [] {
      var init, last := queries[..|queries| - 1], queries[|queries| - 1];
      SerialIsInequivalent(cfg, init);
      FinishKeepsSerial(cfg, Serial(cfg, init), Call(last.0, Start, {}), last.1);
    }
  }

  // ---------- What calls in sequence hit ----------

  function KeyOfHit(es: Entries, hit: Option<nat>): seq<string>
    requires hit.Some? ==> hit.value < |es|
  {
    if hit.Some? then [QueryKey(es[hit.value].query)] else []
  }

  // The key of the entry that a step hits, in either tier, or inserts.
  function AccessedKey(cfg: Config, es: Entries, call: Call, i: Input): seq<string> {
    match call.pc
    case Start => KeyOfHit(es, FindExact(es, call.query))
    case Embedding(_) =>
      if i.embedding.Some? then KeyOfHit(es, FindSimilar(es, i.embedding.value, cfg.threshold)) else []
    case Storing(_, payload) => if cfg.encode(Verified(payload)).Some? then [QueryKey(call.query)] else []
    case _ => []
  }

  function Accesses(cfg: Config, es: Entries, call: Call, io: nat -> Input): seq<string>
    decreases 8 - Stage(call.pc)
  {
    if call.pc.Done? then []
    else
      var i := io(Stage(call.pc));
      StageGrows(cfg, es, call, i);
      var (es', call') := Advance(cfg, es, call, i);
      AccessedKey(cfg, es, call, i) + Accesses(cfg, es', call', io)
  }

  lemma AccessesStep(cfg: Config, es: Entries, call: Call, io: nat -> Input)
    requires !call.pc.Done?
    ensures var i := io(Stage(call.pc));
            Accesses(cfg, es, call, io) ==
            AccessedKey(cfg, es, call, i) + Accesses(cfg, Advance(cfg, es, call, i).0, Advance(cfg, es, call, i).1, io)
  {
  }

  function SerialAccesses(cfg: Config, queries: seq<(string, nat -> Input)>): seq<string> {
    if queries == [] then []
    else
      var init, last := queries[..|queries| - 1], queries[|queries| - 1];
      SerialAccesses(cfg, init) + Accesses(cfg, Serial(cfg, init), Call(last.0, Start, {}), last.1)
  }

  // The three clock readings of a call increase.
  predicate CallTicks(io: nat -> Input) {
    io(0).now < io(2).now < io(7).now
  }

  ghost predicate Ticking(queries: seq<(string, nat -> Input)>) {
    && (forall n :: 0 <= n < |queries| ==> CallTicks(queries[n].1))
    && forall m, n :: 0 <= m < n < |queries| ==> queries[m].1(7).now < queries[n].1(0).now
  }

  // The last possible clock reading before a stage.
  function LastRead(before: int, io: nat -> Input, stage: nat): int {
    if stage == 0 then before else if stage <= 2 then io(0).now else if stage <= 7 then io(2).now else io(7).now
  }

  function SerialClock(queries: seq<(string, nat -> Input)>): int {
    if queries == [] then -1 else queries[|queries| - 1].1(7).now
  }

  lemma KeyedLater(es: Entries, history: seq<string>, capacity: nat, clock: int, later: int)
    requires CacheRuns.KeyedInv(es, history, capacity, clock) && clock <= later
    ensures CacheRuns.KeyedInv(es, history, capacity, later)
  {
    hide Faithful;
    CacheRuns.FaithfulLater(CacheRuns.Stamps(CacheRuns.QueryKeys(es), es), history, capacity, clock, later);
  }

  lemma TierKeepsKeyed(es: Entries, hit: Option<nat>, history: seq<string>, capacity: nat, clock: int, now: nat)
    requires CacheRuns.KeyedInv(es, history, capacity, clock) && clock < now && (hit.Some? ==> hit.value < |es|)
    ensures CacheRuns.KeyedInv(Touch(es, hit, now), history + KeyOfHit(es, hit), capacity, now)
  {
    hide CacheRuns.KeyedInv;
    if hit.Some? {
      CacheRuns.TouchKeepsKeyed(es, history, capacity, clock, hit.value, now);
    } else {
      assert history + [] == history;
      KeyedLater(es, history, capacity, clock, now);
    }
  }

  // Only these steps read the clock.
  predicate ReadsClock(pc: Pc) {
    pc.Start? || pc.Embedding? || pc.Storing?
  }

  lemma AdvanceKeepsKeyed(cfg: Config, es: Entries, call: Call, i: Input, history: seq<string>, clock: int)
    requires SerialInv(cfg, es, call) && CacheRuns.KeyedInv(es, history, cfg.capacity, clock)
    requires ReadsClock(call.pc) ==> clock < i.now
    ensures var es' := Advance(cfg, es, call, i).0;
            CacheRuns.KeyedInv(es', history + AccessedKey(cfg, es, call, i), cfg.capacity,
              if ReadsClock(call.pc) then i.now else clock)
  {
    hide CacheRuns.KeyedInv;
    assert history + [] == history;
    match call.pc
    case Start => TierKeepsKeyed(es, FindExact(es, call.query), history, cfg.capacity, clock, i.now);
    case Embedding(_) =>
      if i.embedding.Some? {
        var hit := FindSimilar(es, i.embedding.value, cfg.threshold);
        TierKeepsKeyed(es, hit, history, cfg.capacity, clock, i.now);
      } else {
        KeyedLater(es, history, cfg.capacity, clock, i.now);
      }
    case Storing(vector, payload) =>
      match cfg.encode(Verified(payload)) {
        case Some(bytes) =>
          CacheRuns.InsertKeepsKeyed(es, history, cfg.capacity, clock, Entry(call.query, vector, bytes, i.now));
        case None => KeyedLater(es, history, cfg.capacity, clock, i.now);
      }
    case _ =>
  }

  lemma StepKeepsKeyed(cfg: Config, es: Entries, call: Call, io: nat -> Input, history: seq<string>, before: int)
    requires SerialInv(cfg, es, call) && !call.pc.Done? && CallTicks(io) && before < io(0).now
    requires CacheRuns.KeyedInv(es, history, cfg.capacity, LastRead(before, io, Stage(call.pc)))
    ensures var (es', call') := Advance(cfg, es, call, io(Stage(call.pc)));
            CacheRuns.KeyedInv(es', history + AccessedKey(cfg, es, call, io(Stage(call.pc))), cfg.capacity,
              LastRead(before, io, Stage(call'.pc)))
  {
    hide CacheRuns.KeyedInv, SerialInv, Advance, AccessedKey;
    var i, clock := io(Stage(call.pc)), LastRead(before, io, Stage(call.pc));
    StageGrows(cfg, es, call, i);
    AdvanceKeepsKeyed(cfg, es, call, i, history, clock);
    var (es', call') := Advance(cfg, es, call, i);
    KeyedLater(es', history + AccessedKey(cfg, es, call, i), cfg.capacity,
      if ReadsClock(call.pc) then i.now else clock, LastRead(before, io, Stage(call'.pc)));
  }

  lemma DoneKeyed(cfg: Config, es: Entries, call: Call, io: nat -> Input, history: seq<string>, before: int)
    requires call.pc.Done? && CacheRuns.KeyedInv(es, history, cfg.capacity, LastRead(before, io, Stage(call.pc)))
    ensures CacheRuns.KeyedInv(
              Finish(cfg, es, call, io).0, history + Accesses(cfg, es, call, io), cfg.capacity, io(7).now)
  {
    hide CacheRuns.KeyedInv;
    assert history + [] == history;
  }

  lemma {:induction false} FinishKeepsKeyed(
    cfg: Config, es: Entries, call: Call, io: nat -> Input, history: seq<string>, before: int)
    requires RoundTrips(cfg) && SerialInv(cfg, es, call) && CallTicks(io) && before < io(0).now
    requires CacheRuns.KeyedInv(es, history, cfg.capacity, LastRead(before, io, Stage(call.pc)))
    ensures CacheRuns.KeyedInv(
              Finish(cfg, es, call, io).0, history + Accesses(cfg, es, call, io), cfg.capacity, io(7).now)
    decreases 8 - Stage(call.pc)
  {
    hide *;
    if call.pc.Done? {
      DoneKeyed(cfg, es, call, io, history, before);
    } else {
      var i := io(Stage(call.pc));
      StageGrows(cfg, es, call, i);
      AdvanceKeepsSerial(cfg, es, call, i);
      StepKeepsKeyed(cfg, es, call, io, history, before);
      FinishStep(cfg, es, call, io);
      AccessesStep(cfg, es, call, io);
      var (es', call') := Advance(cfg, es, call, i);
      var key, more := AccessedKey(cfg, es, call, i), Accesses(cfg, es', call', io);
      FinishKeepsKeyed(cfg, es', call', io, history + key, before);
      assert history + (key + more) == (history + key) + more;
    }
  }

  lemma {:induction false} SerialKeyed(cfg: Config, queries: seq<(string, nat -> Input)>)
    requires RoundTrips(cfg) && Ticking(queries)
    ensures CacheRuns.KeyedInv(Serial(cfg, queries), SerialAccesses(cfg, queries), cfg.capacity, SerialClock(queries))
  {
    if queries != [] {
      hide CacheRuns.KeyedInv, RoundTrips;
      var init, last := queries[..|queries| - 1], queries[|queries| - 1];
      SerialKeyed(cfg, init);
      SerialIsInequivalent(cfg, init);
      FinishKeepsKeyed(
        cfg, Serial(cfg, init), Call(last.0, Start, {}), last.1, SerialAccesses(cfg, init), SerialClock(init));
    } else {
      assert CacheRuns.QueryKeys<string>([]) == [];
    }
  }

  // After any calls in sequence, through both tiers and with any failures: the exact tier hits a query exactly
  // when its key was accessed and fewer distinct other keys than the capacity were accessed since.
  lemma HitExactly(cfg: Config, queries: seq<(string, nat -> Input)>, query: string)
    requires RoundTrips(cfg) && Ticking(queries)
    ensures var history := SerialAccesses(cfg, queries);
            FindExact(Serial(cfg, queries), query).Some? <==>
            QueryKey(query) in history && |Since(history, QueryKey(query))| < Effective(cfg.capacity)
  {
    hide CacheRuns.KeyedInv, RoundTrips;
    SerialKeyed(cfg, queries);
    CacheRuns.KeyedHit(Serial(cfg, queries), SerialAccesses(cfg, queries), cfg.capacity, SerialClock(queries), query);
  }

  // ---------- Caches of different capacities ----------

  // Embeddings that belong to inequivalent queries do not reach the threshold.
  ghost predicate Dissimilar(threshold: real, queries: seq<(string, nat -> Input)>) {
    forall m, n :: 0 <= m < |queries| && 0 <= n < |queries| && QueryKey(queries[m].0) != QueryKey(queries[n].0) ==>
      Unlike(threshold, queries[m].1(2).embedding, queries[n].1(2).embedding)
  }

  predicate Unlike(threshold: real, a: Option<seq<real>>, b: Option<seq<real>>) {
    a.Some? && b.Some? && |a.value| == |b.value| ==> Dot(a.value, b.value) < threshold
  }

  // Each call, on an empty cache, comes to insert its answer.
  ghost predicate Answering(cfg: Config, queries: seq<(string, nat -> Input)>) {
    forall n :: 0 <= n < |queries| ==>
      Accesses(cfg, [], Call(queries[n].0, Start, {}), queries[n].1) == [QueryKey(queries[n].0)]
  }

  function KeysAsked(queries: seq<(string, nat -> Input)>): seq<string> {
    seq(|queries|, n requires 0 <= n < |queries| => QueryKey(queries[n].0))
  }

  // The vector of a call past the similarity tier is its embedding.
  predicate OwnVector(call: Call, io: nat -> Input) {
    match call.pc
    case Searching(_, vector) => io(2).embedding == Some(vector)
    case Generating(_, vector, _) => io(2).embedding == Some(vector)
    case FallingBack(_, vector, _) => io(2).embedding == Some(vector)
    case Requerying(vector, _, _) => io(2).embedding == Some(vector)
    case Storing(vector, _) => io(2).embedding == Some(vector)
    case _ => true
  }

  lemma AdvanceKeepsVector(cfg: Config, es: Entries, call: Call, io: nat -> Input)
    requires OwnVector(call, io)
    ensures OwnVector(Advance(cfg, es, call, io(Stage(call.pc))).1, io)
  {
  }

  // Every entry has the embedding of the call that inserted it.
  ghost predicate FromQueries(es: Entries, queries: seq<(string, nat -> Input)>) {
    forall e :: e in es ==> FromQuery(e, queries)
  }

  ghost predicate FromQuery(e: Entry<string>, queries: seq<(string, nat -> Input)>) {
    exists n :: 0 <= n < |queries| && queries[n].0 == e.query && queries[n].1(2).embedding == Some(e.embedding)
  }

  lemma TouchKeepsFrom(es: Entries, hit: Option<nat>, now: nat, queries: seq<(string, nat -> Input)>)
    requires FromQueries(es, queries) && (hit.Some? ==> hit.value < |es|)
    ensures FromQueries(Touch(es, hit, now), queries)
  {
    forall j | 0 <= j < |es| ensures FromQuery(Touch(es, hit, now)[j], queries) {
      assert es[j] in es;
    }
  }

  lemma AdvanceKeepsFrom(cfg: Config, es: Entries, call: Call, n: nat, queries: seq<(string, nat -> Input)>)
    requires n < |queries| && call.query == queries[n].0 && OwnVector(call, queries[n].1) && FromQueries(es, queries)
    ensures FromQueries(Advance(cfg, es, call, queries[n].1(Stage(call.pc))).0, queries)
  {
    hide FromQuery;
    var i := queries[n].1(Stage(call.pc));
    match call.pc
    case Start => TouchKeepsFrom(es, FindExact(es, call.query), i.now, queries);
    case Embedding(_) =>
      if i.embedding.Some? {
        TouchKeepsFrom(es, FindSimilar(es, i.embedding.value, cfg.threshold), i.now, queries);
      }
    case Storing(vector, payload) =>
      if cfg.encode(Verified(payload)).Some? {
        OwnEntry(Entry(call.query, vector, cfg.encode(Verified(payload)).value, i.now), n, queries);
      }
    case _ =>
  }

  lemma OwnEntry(e: Entry<string>, n: nat, queries: seq<(string, nat -> Input)>)
    requires n < |queries| && queries[n].0 == e.query && queries[n].1(2).embedding == Some(e.embedding)
    ensures FromQuery(e, queries)
  {
  }

  lemma {:induction false} FinishKeepsFrom(
    cfg: Config, es: Entries, call: Call, n: nat, queries: seq<(string, nat -> Input)>)
    requires n < |queries| && call.query == queries[n].0 && OwnVector(call, queries[n].1) && FromQueries(es, queries)
    ensures FromQueries(Finish(cfg, es, call, queries[n].1).0, queries)
    decreases 8 - Stage(call.pc)
  {
    if !call.pc.Done? {
      hide FromQueries, OwnVector;
      var i := queries[n].1(Stage(call.pc));
      StageGrows(cfg, es, call, i);
      AdvanceKeepsVector(cfg, es, call, queries[n].1);
      AdvanceKeepsFrom(cfg, es, call, n, queries);
      var (es', call') := Advance(cfg, es, call, i);
      FinishKeepsFrom(cfg, es', call', n, queries);
    }
  }

  lemma {:induction false} SerialFrom(cfg: Config, queries: seq<(string, nat -> Input)>, k: nat)
    requires k <= |queries|
    ensures FromQueries(Serial(cfg, queries[..k]), queries)
  {
    if k > 0 {
      hide FromQueries;
      assert queries[..k][..k - 1] == queries[..k - 1];
      SerialFrom(cfg, queries, k - 1);
      FinishKeepsFrom(cfg, Serial(cfg, queries[..k - 1]), Call(queries[k - 1].0, Start, {}), k - 1, queries);
    }
  }

  // Past the tiers, what a call accesses does not depend on the cache.
  lemma {:induction false} TailIndependent(cfg: Config, es: Entries, other: Entries, call: Call, io: nat -> Input)
    requires !call.pc.Start? && !call.pc.Parsing? && !call.pc.Embedding?
    ensures Accesses(cfg, es, call, io) == Accesses(cfg, other, call, io)
    decreases 8 - Stage(call.pc)
  {
    if !call.pc.Done? {
      var i := io(Stage(call.pc));
      StageGrows(cfg, es, call, i);
      StageGrows(cfg, other, call, i);
      var (es', call') := Advance(cfg, es, call, i);
      TailIndependent(cfg, es', Advance(cfg, other, call, i).0, call', io);
    }
  }

  // A call that both tiers miss does what it does on an empty cache.
  lemma MissAccesses(cfg: Config, es: Entries, query: string, io: nat -> Input)
    requires FindExact(es, query).None?
    requires io(2).embedding.Some? ==> FindSimilar(es, io(2).embedding.value, cfg.threshold).None?
    ensures Accesses(cfg, es, Call(query, Start, {}), io) == Accesses(cfg, [], Call(query, Start, {}), io)
  {
    var start, parsing := Call(query, Start, {}), Call(query, Parsing, {});
    var embedding := Call(query, Embedding(ParseQuestion(cfg, query, io(1).model)), {});
    AccessesStep(cfg, es, start, io);
    AccessesStep(cfg, [], start, io);
    AccessesStep(cfg, es, parsing, io);
    AccessesStep(cfg, [], parsing, io);
    AccessesStep(cfg, es, embedding, io);
    AccessesStep(cfg, [], embedding, io);
    hide Accesses;
    assert Advance(cfg, es, start, io(0)) == (es, parsing) && Advance(cfg, [], start, io(0)) == ([], parsing);
    assert Advance(cfg, es, parsing, io(1)) == (es, embedding) && Advance(cfg, [], parsing, io(1)) == ([], embedding);
    var next := Advance(cfg, es, embedding, io(2)).1;
    assert Advance(cfg, es, embedding, io(2)) == (es, next) && Advance(cfg, [], embedding, io(2)) == ([], next);
    TailIndependent(cfg, es, [], next, io);
  }

  // An exact hit that decodes is all a call accesses.
  lemma HitAccesses(cfg: Config, es: Entries, query: string, io: nat -> Input)
    requires FindExact(es, query).Some? && Decodable(cfg, es)
    ensures Accesses(cfg, es, Call(query, Start, {}), io) == [QueryKey(query)]
  {
    var start := Call(query, Start, {});
    AccessesStep(cfg, es, start, io);
    assert es[FindExact(es, query).value] in es;
    var (es', call') := Advance(cfg, es, start, io(0));
    assert call'.pc.Done? && Accesses(cfg, es', call', io) == [];
  }

  lemma EntryUnlike(threshold: real, e: Entry<string>, n: nat, queries: seq<(string, nat -> Input)>)
    requires n < |queries| && Dissimilar(threshold, queries) && FromQuery(e, queries)
    requires QueryKey(e.query) != QueryKey(queries[n].0)
    ensures Unlike(threshold, Some(e.embedding), queries[n].1(2).embedding)
  {
    var m :| 0 <= m < |queries| && queries[m].0 == e.query && queries[m].1(2).embedding == Some(e.embedding);
  }

  // Inequivalent queries being dissimilar, an exact miss is a similarity miss.
  lemma NoSimilarHit(threshold: real, es: Entries, n: nat, queries: seq<(string, nat -> Input)>)
    requires n < |queries| && Dissimilar(threshold, queries) && FromQueries(es, queries)
    requires FindExact(es, queries[n].0).None? && queries[n].1(2).embedding.Some?
    ensures FindSimilar(es, queries[n].1(2).embedding.value, threshold).None?
  {
    hide Dissimilar, FromQuery;
    var v := queries[n].1(2).embedding.value;
    SimilarHitExactly(es, v, threshold);
    forall j | 0 <= j < |es| ensures Comparable(es[j], v) ==> Dot(es[j].embedding, v) < threshold {
      assert es[j] in es;
      EntryUnlike(threshold, es[j], n, queries);
    }
  }

  // So call `n`, on what the calls before it left, accesses its own key and no other.
  lemma CallAccesses(cfg: Config, es: Entries, n: nat, queries: seq<(string, nat -> Input)>)
    requires n < |queries| && Answering(cfg, queries) && Dissimilar(cfg.threshold, queries)
    requires Decodable(cfg, es) && FromQueries(es, queries)
    ensures Accesses(cfg, es, Call(queries[n].0, Start, {}), queries[n].1) == [QueryKey(queries[n].0)]
  {
    hide Accesses, Dissimilar, FromQueries, Decodable;
    var (query, io) := queries[n];
    if FindExact(es, query).Some? {
      HitAccesses(cfg, es, query, io);
    } else {
      if io(2).embedding.Some? {
        NoSimilarHit(cfg.threshold, es, n, queries);
      }
      MissAccesses(cfg, es, query, io);
    }
  }

  lemma {:induction false} AccessesAreAsked(cfg: Config, queries: seq<(string, nat -> Input)>, k: nat)
    requires RoundTrips(cfg) && Answering(cfg, queries) && Dissimilar(cfg.threshold, queries) && k <= |queries|
    ensures SerialAccesses(cfg, queries[..k]) == KeysAsked(queries[..k])
  {
    hide *;
    if k == 0 {
      NothingAsked(cfg, queries[..0]);
    } else {
      AccessesAreAsked(cfg, queries, k - 1);
      SerialIsInequivalent(cfg, queries[..k - 1]);
      SerialFrom(cfg, queries, k - 1);
      CallAccesses(cfg, Serial(cfg, queries[..k - 1]), k - 1, queries);
      AskedNext(queries, k);
      AccessesNext(cfg, queries, k);
    }
  }

  lemma NothingAsked(cfg: Config, queries: seq<(string, nat -> Input)>)
    requires queries == []
    ensures SerialAccesses(cfg, queries) == KeysAsked(queries)
  {
  }

  lemma AskedNext(queries: seq<(string, nat -> Input)>, k: nat)
    requires 0 < k <= |queries|
    ensures KeysAsked(queries[..k]) == KeysAsked(queries[..k - 1]) + [QueryKey(queries[k - 1].0)]
  {
  }

  lemma AccessesNext(cfg: Config, queries: seq<(string, nat -> Input)>, k: nat)
    requires 0 < k <= |queries|
    ensures SerialAccesses(cfg, queries[..k]) ==
            SerialAccesses(cfg, queries[..k - 1])
            + Accesses(cfg, Serial(cfg, queries[..k - 1]), Call(queries[k - 1].0, Start, {}), queries[k - 1].1)
  {
    assert queries[..k][..k - 1] == queries[..k - 1];
  }

  // When every call can be answered and inequivalent queries are dissimilar, a larger cache hits whenever a
  // smaller one does. (With similar queries it can miss: CacheRuns.LargerCacheCanMiss.)
  lemma LargerHitsMore(cfg: Config, larger: nat, queries: seq<(string, nat -> Input)>, query: string)
    requires RoundTrips(cfg) && Ticking(queries) && cfg.capacity <= larger
    requires Answering(cfg, queries) && Dissimilar(cfg.threshold, queries)
    requires FindExact(Serial(cfg, queries), query).Some?
    ensures FindExact(Serial(cfg.(capacity := larger), queries), query).Some?
  {
    hide Ticking, Dissimilar;
    var large := cfg.(capacity := larger);
    assert queries[..|queries|] == queries;
    AccessesAreAsked(cfg, queries, |queries|);
    AnsweringLarger(cfg, larger, queries);
    AccessesAreAsked(large, queries, |queries|);
    HitExactly(cfg, queries, query);
    HitExactly(large, queries, query);
  }

  lemma AnsweringLarger(cfg: Config, larger: nat, queries: seq<(string, nat -> Input)>)
    requires Answering(cfg, queries)
    ensures Answering(cfg.(capacity := larger), queries)
  {
    var large := cfg.(capacity := larger);
    forall n | 0 <= n < |queries|
      ensures Accesses(large, [], Call(queries[n].0, Start, {}), queries[n].1) == [QueryKey(queries[n].0)]
    {
      CapacityUnseen(cfg, larger, [], Call(queries[n].0, Start, {}), queries[n].1);
    }
  }

  lemma {:induction false} CapacityUnseen(cfg: Config, larger: nat, es: Entries, call: Call, io: nat -> Input)
    ensures Accesses(cfg, es, call, io) == Accesses(cfg.(capacity := larger), es, call, io)
    decreases 8 - Stage(call.pc)
  {
    if !call.pc.Done? {
      var i := io(Stage(call.pc));
      StageGrows(cfg, es, call, i);
      AccessesStep(cfg, es, call, io);
      AccessesStep(cfg.(capacity := larger), es, call, io);
      StepUnseen(cfg, larger, es, call, i);
      var (es', call') := Advance(cfg, es, call, i);
      hide Advance, AccessedKey, Accesses;
      if call.pc.Storing? {
        DoneAccesses(cfg, es', call', io);
        DoneAccesses(cfg.(capacity := larger), Advance(cfg.(capacity := larger), es, call, i).0, call', io);
      } else {
        CapacityUnseen(cfg, larger, es', call', io);
      }
    }
  }

  lemma StepUnseen(cfg: Config, larger: nat, es: Entries, call: Call, i: Input)
    ensures var large := cfg.(capacity := larger);
            && Advance(cfg, es, call, i).1 == Advance(large, es, call, i).1
            && AccessedKey(cfg, es, call, i) == AccessedKey(large, es, call, i)
            && (if call.pc.Storing? then Advance(cfg, es, call, i).1.pc.Done?
                else Advance(cfg, es, call, i).0 == Advance(large, es, call, i).0)
  {
  }

  lemma DoneAccesses(cfg: Config, es: Entries, call: Call, io: nat -> Input)
    requires call.pc.Done?
    ensures Accesses(cfg, es, call, io) == []
  {
  }

  // ---------- What interleaved calls keep ----------

  // A step that inserts finds no equivalent left once room is made.
  ghost predicate StoresCleanly(cfg: Config, s: System, e: Event) {
    match e
    case Begin(_) => true
    case Tick(c, _) =>
      c < |s.calls| && s.calls[c].pc.Storing? && cfg.encode(Verified(s.calls[c].pc.payload)).Some? ==>
        FindExact(DropAt(s.entries, Victim(s.entries, cfg.capacity)), s.calls[c].query).None?
  }

  lemma NextInequivalentExactly(cfg: Config, s: System, e: Event)
    requires CacheRuns.Inequivalent(s.entries)
    ensures CacheRuns.Inequivalent(Next(cfg, s, e).entries) <==> StoresCleanly(cfg, s, e)
  {
    if e.Tick? && e.call < |s.calls| {
      AdvanceInequivalentExactly(cfg, s.entries, s.calls[e.call], e.input);
    }
  }

  lemma AdvanceInequivalentExactly(cfg: Config, es: Entries, call: Call, i: Input)
    requires CacheRuns.Inequivalent(es)
    ensures CacheRuns.Inequivalent(Advance(cfg, es, call, i).0) <==>
            (call.pc.Storing? && cfg.encode(Verified(call.pc.payload)).Some? ==>
               FindExact(DropAt(es, Victim(es, cfg.capacity)), call.query).None?)
  {
    hide CacheRuns.Inequivalent;
    match call.pc
    case Start => TouchKeepsKeys(es, FindExact(es, call.query), i.now);
    case Embedding(_) =>
      if i.embedding.Some? {
        TouchKeepsKeys(es, FindSimilar(es, i.embedding.value, cfg.threshold), i.now);
      }
    case Storing(vector, payload) =>
      if cfg.encode(Verified(payload)).Some? {
        CacheRuns.InsertInequivalentExactly(es, cfg.capacity,
          Entry(call.query, vector, cfg.encode(Verified(payload)).value, i.now));
      }
    case _ =>
  }

  lemma TouchKeepsKeys(es: Entries, hit: Option<nat>, now: nat)
    requires hit.Some? ==> hit.value < |es|
    ensures CacheRuns.QueryKeys(Touch(es, hit, now)) == CacheRuns.QueryKeys(es)
    ensures CacheRuns.Inequivalent(Touch(es, hit, now)) <==> CacheRuns.Inequivalent(es)
  {
    assert CacheRuns.QueryKeys(Touch(es, hit, now)) == CacheRuns.QueryKeys(es);
  }

  ghost predicate RunInequivalent(cfg: Config, events: seq<Event>) {
    CacheRuns.Inequivalent(Run(cfg, events).entries)
  }

  ghost predicate AlwaysInequivalent(cfg: Config, events: seq<Event>) {
    forall n :: 0 <= n <= |events| ==> RunInequivalent(cfg, events[..n])
  }

  ghost predicate AlwaysCleanly(cfg: Config, events: seq<Event>) {
    forall n :: 0 <= n < |events| ==> StoresCleanly(cfg, Run(cfg, events[..n]), events[n])
  }

  // For every interleaving: the cached queries are inequivalent at all times exactly when every insertion finds
  // no equivalent left after eviction.
  lemma {:induction false} InequivalentExactly(cfg: Config, events: seq<Event>)
    ensures AlwaysInequivalent(cfg, events) <==> AlwaysCleanly(cfg, events)
  {
    hide *;
    if events == [] {
      AlwaysAtFirst(cfg, events);
    } else {
      var init := events[..|events| - 1];
      InequivalentExactly(cfg, init);
      AlwaysNext(cfg, events);
      if AlwaysInequivalent(cfg, init) {
        AlwaysLast(cfg, init);
        LastInequivalentExactly(cfg, events);
      }
    }
  }

  lemma AlwaysAtFirst(cfg: Config, events: seq<Event>)
    requires events == []
    ensures AlwaysInequivalent(cfg, events) && AlwaysCleanly(cfg, events)
  {
    assert events[..0] == events && CacheRuns.QueryKeys<string>([]) == [];
  }

  lemma AlwaysNext(cfg: Config, events: seq<Event>)
    requires events != []
    ensures var init, last := events[..|events| - 1], events[|events| - 1];
            && (AlwaysInequivalent(cfg, events) <==> AlwaysInequivalent(cfg, init) && RunInequivalent(cfg, events))
            && (AlwaysCleanly(cfg, events) <==> AlwaysCleanly(cfg, init) && StoresCleanly(cfg, Run(cfg, init), last))
  {
    hide RunInequivalent, StoresCleanly, Run;
    var init := events[..|events| - 1];
    assert forall m :: 0 <= m <= |init| ==> init[..m] == events[..m];
    assert events[..|events|] == events && init[..|init|] == init;
  }

  lemma AlwaysLast(cfg: Config, events: seq<Event>)
    requires AlwaysInequivalent(cfg, events)
    ensures RunInequivalent(cfg, events)
  {
    hide RunInequivalent;
    assert events[..|events|] == events;
  }

  lemma LastInequivalentExactly(cfg: Config, events: seq<Event>)
    requires events != [] && RunInequivalent(cfg, events[..|events| - 1])
    ensures RunInequivalent(cfg, events) <==>
            StoresCleanly(cfg, Run(cfg, events[..|events| - 1]), events[|events| - 1])
  {
    hide StoresCleanly;
    NextInequivalentExactly(cfg, Run(cfg, events[..|events| - 1]), events[|events| - 1]);
  }

  // A call between its exact miss and its end.
  predicate Pending(call: Call) {
    !call.pc.Start? && !call.pc.Done?
  }

  // No two calls past the exact tier have equivalent queries.
  ghost predicate NoOverlap(s: System) {
    forall c, d :: 0 <= c < d < |s.calls| && Pending(s.calls[c]) && Pending(s.calls[d]) ==>
      QueryKey(s.calls[c].query) != QueryKey(s.calls[d].query)
  }

  ghost predicate AllSerial(cfg: Config, s: System) {
    && CacheRuns.Inequivalent(s.entries) && Decodable(cfg, s.entries)
    && forall c :: 0 <= c < |s.calls| ==> SerialInv(cfg, s.entries, s.calls[c])
  }

  // A step makes an exact hit only of its own query.
  lemma AdvanceKeepsMiss(cfg: Config, es: Entries, call: Call, i: Input, query: string)
    requires FindExact(es, query).None? && (call.pc.Storing? ==> QueryKey(call.query) != QueryKey(query))
    ensures FindExact(Advance(cfg, es, call, i).0, query).None?
  {
    var es' := Advance(cfg, es, call, i).0;
    AdvanceEntries(cfg, es, call, i);
    forall j | 0 <= j < |es'| ensures QueryKey(es'[j].query) != QueryKey(query) {
      assert es'[j] in es';
      if o :| o in es && o.query == es'[j].query && o.response == es'[j].response {
        var m :| 0 <= m < |es| && es[m] == o;
      }
    }
  }

  lemma TickKeepsSerial(cfg: Config, s: System, c: nat, i: Input)
    requires RoundTrips(cfg) && AllSerial(cfg, s) && NoOverlap(s) && c < |s.calls|
    ensures AllSerial(cfg, Next(cfg, s, Tick(c, i)))
  {
    hide RoundTrips, Decodable, CacheRuns.Inequivalent;
    var (es', call') := Advance(cfg, s.entries, s.calls[c], i);
    AdvanceKeepsSerial(cfg, s.entries, s.calls[c], i);
    forall d | 0 <= d < |s.calls| && d != c && Pending(s.calls[d]) ensures FindExact(es', s.calls[d].query).None? {
      AdvanceKeepsMiss(cfg, s.entries, s.calls[c], i, s.calls[d].query);
    }
  }

  // Whatever interleaves: calls that never overlap with an equivalent one keep the cached queries inequivalent.
  lemma {:induction false} NoOverlapIsSerial(cfg: Config, events: seq<Event>)
    requires RoundTrips(cfg) && forall n :: 0 <= n <= |events| ==> NoOverlap(Run(cfg, events[..n]))
    ensures AllSerial(cfg, Run(cfg, events))
  {
    if events != [] {
      var n := |events| - 1;
      var init, last := events[..n], events[n];
      assert forall m :: 0 <= m <= n ==> init[..m] == events[..m];
      NoOverlapIsSerial(cfg, init);
      assert init[..n] == init;
      hide RoundTrips, Decodable, CacheRuns.Inequivalent, NoOverlap;
      match last
      case Begin(query) =>
      case Tick(c, i) =>
        if c < |Run(cfg, init).calls| {
          TickKeepsSerial(cfg, Run(cfg, init), c, i);
        }
    }
  }

  // ---------- What the calls of a run answer ----------

  // What call `c` took in at each of its stages, with the entries it saw there.
  function Taken(cfg: Config, events: seq<Event>, c: nat): map<nat, (Entries, Input)> {
    if events == [] then map[]
    else
      var init, last := events[..|events| - 1], events[|events| - 1];
      var s := Run(cfg, init);
      if last.Tick? && last.call == c && c < |s.calls| && !s.calls[c].pc.Done?
      then Taken(cfg, init, c)[Stage(s.calls[c].pc) := (s.entries, last.input)]
      else Taken(cfg, init, c)
  }

  function InputsOf(taken: map<nat, (Entries, Input)>): nat -> Input {
    (t: nat) => if t in taken then taken[t].1 else Input(0, Err(""), None, None, false, None)
  }

  function EntriesAt(taken: map<nat, (Entries, Input)>, t: nat): Entries {
    if t in taken then taken[t].0 else []
  }

  ghost predicate ReachedBy(cfg: Config, call: Call, taken: map<nat, (Entries, Input)>) {
    Reached(cfg, call, InputsOf(taken), EntriesAt(taken, 0), EntriesAt(taken, 2))
  }

  // Only earlier stages matter to how far a call has come.
  lemma EarlierStages(cfg: Config, call: Call, taken: map<nat, (Entries, Input)>, seen: (Entries, Input))
    requires ReachedBy(cfg, call, taken) && !call.pc.Done?
    ensures ReachedBy(cfg, call, taken[Stage(call.pc) := seen])
  {
    var io, io' := InputsOf(taken), InputsOf(taken[Stage(call.pc) := seen]);
    assert forall t: nat :: t != Stage(call.pc) ==> io(t) == io'(t);
    hide ExactTierAnswers, SimilarTierAnswers, IsIntent, NotFound, Prompted, IsAnswer, InputsOf;
    SameInputs(cfg, call, io, io', EntriesAt(taken, 0), EntriesAt(taken, 2));
  }

  // What is asked of the inputs before the stage of a call is asked alike of equal ones.
  lemma SameInputs(cfg: Config, call: Call, io: nat -> Input, io': nat -> Input, exact: Entries, similar: Entries)
    requires forall t: nat :: t < Stage(call.pc) ==> io(t) == io'(t)
    ensures Stage(call.pc) > 2 ==> (SimilarTierAnswers(cfg, io, similar) <==> SimilarTierAnswers(cfg, io', similar))
    ensures Stage(call.pc) > 1 ==>
              forall intent :: IsIntent(cfg, call.query, io, intent) <==> IsIntent(cfg, call.query, io', intent)
    ensures Stage(call.pc) > 3 ==> Prompted(io) == Prompted(io')
    ensures Stage(call.pc) > 4 ==> forall payload :: NotFound(cfg, io, payload) <==> NotFound(cfg, io', payload)
    ensures Stage(call.pc) > 6 ==>
              forall r :: IsAnswer(cfg, call.query, io, exact, similar, r) <==>
                          IsAnswer(cfg, call.query, io', exact, similar, r)
  {
    hide ExactTierAnswers, VerifyAndParse, FindSimilar, Cleaned;
  }

  predicate Takes(s: System, e: Event, c: nat) {
    e.Tick? && e.call == c && c < |s.calls| && !s.calls[c].pc.Done?
  }

  lemma TakenNext(cfg: Config, events: seq<Event>, c: nat)
    requires events != []
    ensures var init, last := events[..|events| - 1], events[|events| - 1];
            var s := Run(cfg, init);
            && Run(cfg, events) == Next(cfg, s, last)
            && Taken(cfg, events, c) ==
               if Takes(s, last, c) then Taken(cfg, init, c)[Stage(s.calls[c].pc) := (s.entries, last.input)]
               else Taken(cfg, init, c)
  {
  }

  lemma OtherCallStays(cfg: Config, s: System, e: Event, c: nat)
    requires c < |s.calls| && !Takes(s, e, c)
    ensures c < |Next(cfg, s, e).calls| && Next(cfg, s, e).calls[c] == s.calls[c]
  {
  }

  lemma NewCallStarts(cfg: Config, s: System, e: Event, c: nat, taken: map<nat, (Entries, Input)>)
    requires |s.calls| <= c < |Next(cfg, s, e).calls|
    ensures ReachedBy(cfg, Next(cfg, s, e).calls[c], taken) && !Takes(s, e, c)
  {
  }

  lemma {:induction false} RunReaches(cfg: Config, events: seq<Event>, c: nat)
    requires c < |Run(cfg, events).calls|
    ensures ReachedBy(cfg, Run(cfg, events).calls[c], Taken(cfg, events, c))
  {
    if events != [] {
      hide *;
      var init, last := events[..|events| - 1], events[|events| - 1];
      var s := Run(cfg, init);
      TakenNext(cfg, events, c);
      if c >= |s.calls| {
        NewCallStarts(cfg, s, last, c, Taken(cfg, init, c));
      } else {
        RunReaches(cfg, init, c);
        if Takes(s, last, c) {
          TakesMeans(s, last, c);
          StepReaches(cfg, s, c, last.input, Taken(cfg, init, c));
        } else {
          OtherCallStays(cfg, s, last, c);
        }
      }
    }
  }

  lemma TakesMeans(s: System, e: Event, c: nat)
    requires Takes(s, e, c)
    ensures e.Tick? && e.call == c && c < |s.calls| && !s.calls[c].pc.Done?
  {
  }

  lemma StepReaches(cfg: Config, s: System, c: nat, i: Input, taken: map<nat, (Entries, Input)>)
    requires c < |s.calls| && !s.calls[c].pc.Done? && ReachedBy(cfg, s.calls[c], taken)
    ensures ReachedBy(cfg, Next(cfg, s, Tick(c, i)).calls[c], taken[Stage(s.calls[c].pc) := (s.entries, i)])
  {
    var call := s.calls[c];
    var taken' := taken[Stage(call.pc) := (s.entries, i)];
    EarlierStages(cfg, call, taken, (s.entries, i));
    hide Reached;
    assert InputsOf(taken')(Stage(call.pc)) == i;
    AdvanceReaches(cfg, s.entries, call, InputsOf(taken'), EntriesAt(taken', 0), EntriesAt(taken', 2));
  }

  // Whatever interleaves: a finished call has answered as its inputs and its two lookups required.
  lemma RunAnswers(cfg: Config, events: seq<Event>, c: nat)
    requires c < |Run(cfg, events).calls| && Run(cfg, events).calls[c].pc.Done?
    ensures var call, taken := Run(cfg, events).calls[c], Taken(cfg, events, c);
            IsAnswer(cfg, call.query, InputsOf(taken), EntriesAt(taken, 0), EntriesAt(taken, 2), call.pc.result)
  {
    hide IsAnswer, Run, Taken;
    RunReaches(cfg, events, c);
  }

  // The fallback search of a call is for the intent of its question.
  lemma RunFallsBackOnIntent(cfg: Config, events: seq<Event>, c: nat)
    requires c < |Run(cfg, events).calls| && Run(cfg, events).calls[c].pc.FallingBack?
    ensures var call := Run(cfg, events).calls[c];
            IsIntent(cfg, call.query, InputsOf(Taken(cfg, events, c)), call.pc.intent)
  {
    hide IsIntent, Run, Taken;
    RunReaches(cfg, events, c);
  }

  // Equal but for the times of access.
  ghost predicate SameButTimes(es: Entries, es': Entries) {
    && |es| == |es'|
    && forall j :: 0 <= j < |es| ==> es'[j] == es[j].(lastAccessed := es'[j].lastAccessed)
  }

  // A tick of a call inserts only to end it, and then exactly the encoding of its answer, under its query and
  // its vector; it has an answer of its own in no other way.
  lemma RunStores(cfg: Config, events: seq<Event>, c: nat, i: Input)
    requires c < |Run(cfg, events).calls| && !Run(cfg, events).calls[c].pc.Done?
    ensures var s, s' := Run(cfg, events), Run(cfg, events + [Tick(c, i)]);
            var call, call', taken := s.calls[c], s'.calls[c], Taken(cfg, events, c);
            if call.pc.Storing? then
              && call'.pc.Done? && call'.pc.result.Ok? && call'.pc.result.value.Verified?
              && InputsOf(taken)(2).embedding.Some?
              && match cfg.encode(call'.pc.result.value)
                 case None => s'.entries == s.entries
                 case Some(bytes) =>
                   s'.entries == Inserted(s.entries, cfg.capacity,
                     Entry(call.query, InputsOf(taken)(2).embedding.value, bytes, i.now))
            else
              && SameButTimes(s.entries, s'.entries)
              && (call'.pc.Done? && call'.pc.result.Ok? && call'.pc.result.value.Verified? ==>
                    call.pc.Start? || call.pc.Embedding?)
  {
    RunReaches(cfg, events, c);
    RunNext(cfg, events, Tick(c, i));
    hide Run, Advance, Taken, InputsOf, Inserted;
    StepStores(cfg, Run(cfg, events).entries, Run(cfg, events).calls[c], i);
  }

  lemma StepStores(cfg: Config, es: Entries, call: Call, i: Input)
    requires !call.pc.Done?
    ensures var (es', call') := Advance(cfg, es, call, i);
            if call.pc.Storing? then
              && call'.pc == Done(Ok(Verified(call.pc.payload)))
              && match cfg.encode(Verified(call.pc.payload))
                 case None => es' == es
                 case Some(bytes) => es' == Inserted(es, cfg.capacity, Entry(call.query, call.pc.vector, bytes, i.now))
            else
              && SameButTimes(es, es')
              && (call'.pc.Done? && call'.pc.result.Ok? && call'.pc.result.value.Verified? ==>
                    call.pc.Start? || call.pc.Embedding?)
  {
    hide FindExact, FindSimilar, VerifyAndParse, Cleaned, Inserted;
  }

  // ---------- Proved absence ----------

  // The chunks of the fallback search over a table.
  ghost predicate FallbackAnswer(
    chunks: seq<Chunk>, table: seq<Ingestion.Customer>, intent: string, esc: Option<char>)
  {
    Members(chunks) ==
    set row | row in FallbackRows(table, intent, esc) :: Chunk(row.kunnr, HybridSearch.ChunkText(row))
  }

  // In every run: a call that goes from the fallback search straight to storing "not found" has proved, for an
  // intent with words that match themselves, that no stored sentence contains them all; for plain words it does
  // so exactly when none does.
  lemma AbsenceAnswered(
    cfg: Config, events: seq<Event>, c: nat, i: Input, table: seq<Ingestion.Customer>, esc: Option<char>)
    requires RoundTrips(cfg) && ProperEscape(esc)
    requires var s := Run(cfg, events);
             && c < |s.calls| && s.calls[c].pc.FallingBack? && SplitWhitespace(s.calls[c].pc.intent) != []
             && i.found.Some? && FallbackAnswer(i.found.value, table, s.calls[c].pc.intent, esc)
    ensures var s, s' := Run(cfg, events), Run(cfg, events + [Tick(c, i)]);
            var words := SplitWhitespace(s.calls[c].pc.intent);
            && (SelfMatching(words, esc) && s'.calls[c].pc.Storing? ==>
                  !s'.calls[c].pc.payload.answerFound && NoneContains(table, words))
            && ((forall w :: w in words ==> Plain(w, esc)) ==>
                  (s'.calls[c].pc.Storing? <==> NoneContains(table, words)))
  {
    var s := Run(cfg, events);
    var call := s.calls[c];
    hide SelfMatching, NoneContains, Plain;
    RunNext(cfg, events, Tick(c, i));
    RunKeepsInv(cfg, events);
    assert call in s.calls;
    AbsenceProof(table, call.pc.intent, esc);
    EmptyAnswer(i.found.value, table, call.pc.intent, esc);
  }

  lemma EmptyAnswer(chunks: seq<Chunk>, table: seq<Ingestion.Customer>, intent: string, esc: Option<char>)
    requires FallbackAnswer(chunks, table, intent, esc)
    ensures chunks == [] <==> FallbackRows(table, intent, esc) == []
  {
    var rows := FallbackRows(table, intent, esc);
    if chunks != [] {
      assert chunks[0] in Members(chunks);
    }
    if rows != [] {
      assert rows[0] in rows;
      assert Chunk(rows[0].kunnr, HybridSearch.ChunkText(rows[0])) in Members(chunks);
    }
  }

  // ---------- What interleaved calls do not keep ----------

  // The stages of a call that finds nothing anywhere, on an empty cache.
  function FruitlessPc(cfg: Config, query: string, i: Input, payload: SemanticResponse, k: nat): Pc
    requires i.embedding.Some?
  {
    var parsed, vector := ParseQuestion(cfg, query, i.model), i.embedding.value;
    if k == 0 then Start
    else if k == 1 then Parsing
    else if k == 2 then Embedding(parsed)
    else if k == 3 then Searching(parsed.intent, vector)
    else if k == 4 then Generating(parsed.intent, vector, [])
    else if k == 5 then FallingBack(parsed.intent, vector, payload)
    else Storing(vector, payload)
  }

  ghost predicate Fruitless(cfg: Config, i: Input, payload: SemanticResponse) {
    && i.embedding.Some? && i.found == Some([]) && !i.crossEncoder && i.model.Ok?
    && VerifyAndParse(i.model.value, [], cfg.decodeResponse) == Ok(payload) && !payload.answerFound
  }

  lemma FruitlessStep(cfg: Config, query: string, i: Input, payload: SemanticResponse, k: nat)
    requires Fruitless(cfg, i, payload) && k < 6
    ensures Advance(cfg, [], Call(query, FruitlessPc(cfg, query, i, payload, k), {}), i) ==
            ([], Call(query, FruitlessPc(cfg, query, i, payload, k + 1), {}))
  {
    assert {} + Members([]) == {};
  }

  // Drives call `c` from its start to the point before its insertion.
  lemma {:induction false} FruitlessRun(
    cfg: Config, events: seq<Event>, c: nat, query: string, i: Input, payload: SemanticResponse, k: nat)
    returns (more: seq<Event>)
    requires Fruitless(cfg, i, payload) && k <= 6
    requires Run(cfg, events).entries == [] && c < |Run(cfg, events).calls|
    requires Run(cfg, events).calls[c] == Call(query, FruitlessPc(cfg, query, i, payload, k), {})
    ensures Run(cfg, more).entries == []
    ensures Run(cfg, more).calls ==
            Run(cfg, events).calls[c := Call(query, FruitlessPc(cfg, query, i, payload, 6), {})]
    decreases 6 - k
  {
    if k == 6 {
      more := events;
    } else {
      var next := events + [Tick(c, i)];
      assert next[..|events|] == events;
      FruitlessStep(cfg, query, i, payload, k);
      more := FruitlessRun(cfg, next, c, query, i, payload, k + 1);
    }
  }

  lemma RunNext(cfg: Config, events: seq<Event>, e: Event)
    ensures Run(cfg, events + [e]) == Next(cfg, Run(cfg, events), e)
  {
    assert (events + [e])[..|events|] == events;
  }

  lemma TwoStores(cfg: Config, s: System, query: string, vector: seq<real>, payload: SemanticResponse, i: Input)
    requires s.entries == [] && cfg.encode(Verified(payload)).Some? && cfg.capacity >= 2
    requires |s.calls| == 2 && s.calls[0] == s.calls[1] == Call(query, Storing(vector, payload), {})
    ensures !CacheRuns.Inequivalent(Next(cfg, Next(cfg, s, Tick(0, i)), Tick(1, i)).entries)
  {
    var e := Entry(query, vector, cfg.encode(Verified(payload)).value, i.now);
    var once := Next(cfg, s, Tick(0, i));
    assert once.entries == Inserted([], cfg.capacity, e) == [e];
    assert Next(cfg, once, Tick(1, i)).entries == Inserted([e], cfg.capacity, e) == [e, e];
    assert CacheRuns.QueryKeys([e, e])[0] == CacheRuns.QueryKeys([e, e])[1];
  }

  // Two interleaved calls with one query can cache it twice.
  lemma InterleavedCallsDuplicate(cfg: Config, query: string, i: Input, payload: SemanticResponse)
    returns (events: seq<Event>)
    requires Fruitless(cfg, i, payload) && cfg.encode(Verified(payload)).Some? && cfg.capacity >= 2
    ensures !CacheRuns.Inequivalent(Run(cfg, events).entries)
  {
    var call := Call(query, Start, {});
    RunNext(cfg, [], Begin(query));
    RunNext(cfg, [] + [Begin(query)], Begin(query));
    var begun := [] + [Begin(query)] + [Begin(query)];
    assert Run(cfg, begun) == System([], [call, call], []);
    var first := FruitlessRun(cfg, begun, 0, query, i, payload, 0);
    var second := FruitlessRun(cfg, first, 1, query, i, payload, 0);
    TwoStores(cfg, Run(cfg, second), query, i.embedding.value, payload, i);
    RunNext(cfg, second, Tick(0, i));
    RunNext(cfg, second + [Tick(0, i)], Tick(1, i));
    events := second + [Tick(0, i)] + [Tick(1, i)];
  }
}
