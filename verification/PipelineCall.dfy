/**
 One call of the query pipeline: what it must answer and what it leaves in the cache, stated over what the
 outside world supplies to it; and the pipeline as it is written, on the cache object.
 */
module PipelineCall {
  import opened Outcomes
  import opened Cache
  import opened Firewall
  import opened Rerank
  import opened QueryPipeline

  // ---------- One call at a time ----------

  function Stage(pc: Pc): nat {
    match pc
    case Start => 0
    case Parsing => 1
    case Embedding(_) => 2
    case Searching(_, _) => 3
    case Generating(_, _, _) => 4
    case FallingBack(_, _, _) => 5
    case Requerying(_, _, _) => 6
    case Storing(_, _) => 7
    case Done(_) => 8
  }

  lemma StageGrows(cfg: Config, es: Entries, call: Call, i: Input)
    requires !call.pc.Done?
    ensures Stage(call.pc) < Stage(Advance(cfg, es, call, i).1.pc) <= 8
  {
  }

  // All the steps of a call with no other call in between; `io` gives each stage its input.
  function Finish(cfg: Config, es: Entries, call: Call, io: nat -> Input): (Entries, Result<Answer, PipelineError>)
    decreases 8 - Stage(call.pc)
  {
    if call.pc.Done? then (es, call.pc.result)
    else
      StageGrows(cfg, es, call, io(Stage(call.pc)));
      var (es', call') := Advance(cfg, es, call, io(Stage(call.pc)));
      Finish(cfg, es', call', io)
  }

  lemma FinishStep(cfg: Config, es: Entries, call: Call, io: nat -> Input)
    requires !call.pc.Done?
    ensures var (es', call') := Advance(cfg, es, call, io(Stage(call.pc)));
            Finish(cfg, es, call, io) == Finish(cfg, es', call', io)
  {
  }

  // ---------- What a call must answer ----------

  // The cached response decodes.
  predicate Usable(cfg: Config, es: Entries, hit: Option<nat>)
    requires hit.Some? ==> hit.value < |es|
  {
    hit.Some? && cfg.decode(es[hit.value].response).Some?
  }

  predicate ExactTierAnswers(cfg: Config, query: string, exact: Entries) {
    Usable(cfg, exact, FindExact(exact, query))
  }

  predicate SimilarTierAnswers(cfg: Config, io: nat -> Input, similar: Entries) {
    io(2).embedding.Some? && Usable(cfg, similar, FindSimilar(similar, io(2).embedding.value, cfg.threshold))
  }

  // The question is what the model's reply decodes to, or the query itself.
  ghost predicate IsIntent(cfg: Config, query: string, io: nat -> Input, intent: string) {
    if io(1).model.Ok? && cfg.decodeQuestion(Cleaned(io(1).model.value)).Some?
    then intent == cfg.decodeQuestion(Cleaned(io(1).model.value)).value.intent
    else intent == query
  }

  // The model is prompted with what the search found, or with the three best of it.
  function Prompted(io: nat -> Input): Result<seq<Chunk>, PipelineError> {
    match io(3).found
    case None => Err(SearchFailed)
    case Some(chunks) =>
      if !io(3).crossEncoder then Ok(chunks)
      else
        match RerankCandidates(chunks, 3, io(3).scored)
        case Ok(best) => Ok(best)
        case Err(e) => Err(RerankFailed(e))
  }

  // What the answer is once the model is prompted with `chunks`. A model that is off degrades the answer to the
  // chunks. A first reply that claims an answer is final, accepted or rejected. One that does not is kept only
  // if the fallback search finds nothing or the model is off by then; else the second reply is final.
  ghost predicate IsReply(cfg: Config, io: nat -> Input, chunks: seq<Chunk>, r: Result<Answer, PipelineError>) {
    match io(4).model
    case Err(e) => r == Ok(Degraded("LLM is offline or timed out: " + e, chunks))
    case Ok(raw) =>
      var first := VerifyAndParse(raw, chunks, cfg.decodeResponse);
      if first.Err? then r == Err(Rejected(first.error))
      else if first.value.answerFound then r == Ok(Verified(first.value))
      else if io(5).found.None? then r == Err(FallbackFailed)
      else if io(5).found.value == [] || io(6).model.Err? then r == Ok(Verified(first.value))
      else
        var second := VerifyAndParse(io(6).model.value, io(5).found.value, cfg.decodeResponse);
        if second.Err? then r == Err(Rejected(second.error)) else r == Ok(Verified(second.value))
  }

  /**
   The result of a call for a query: `io` holds its inputs by stage, `exact` and `similar` are the entries it
   saw at its two lookups.
   */
  ghost predicate IsAnswer(
    cfg: Config, query: string, io: nat -> Input, exact: Entries, similar: Entries, r: Result<Answer, PipelineError>)
  {
    if ExactTierAnswers(cfg, query, exact) then
      r == Ok(cfg.decode(exact[FindExact(exact, query).value].response).value)
    else if io(2).embedding.None? then r == Err(EmbeddingFailed)
    else if SimilarTierAnswers(cfg, io, similar) then
      r == Ok(cfg.decode(similar[FindSimilar(similar, io(2).embedding.value, cfg.threshold).value].response).value)
    else
      match Prompted(io)
      case Err(e) => r == Err(e)
      case Ok(chunks) => IsReply(cfg, io, chunks, r)
  }

  // What holds of a call on its way there.
  ghost predicate Reached(cfg: Config, call: Call, io: nat -> Input, exact: Entries, similar: Entries) {
    match call.pc
    case Start => true
    case Parsing => !ExactTierAnswers(cfg, call.query, exact)
    case Embedding(parsed) =>
      !ExactTierAnswers(cfg, call.query, exact) && IsIntent(cfg, call.query, io, parsed.intent)
    case Searching(intent, vector) =>
      Missed(cfg, call.query, io, exact, similar, vector) && IsIntent(cfg, call.query, io, intent)
    case Generating(intent, vector, chunks) =>
      && Missed(cfg, call.query, io, exact, similar, vector) && IsIntent(cfg, call.query, io, intent)
      && Prompted(io) == Ok(chunks)
    case FallingBack(intent, vector, payload) =>
      && Missed(cfg, call.query, io, exact, similar, vector) && IsIntent(cfg, call.query, io, intent)
      && NotFound(cfg, io, payload)
    case Requerying(vector, payload, chunks) =>
      && Missed(cfg, call.query, io, exact, similar, vector) && NotFound(cfg, io, payload)
      && io(5).found == Some(chunks) && chunks != []
    case Storing(vector, payload) =>
      && Missed(cfg, call.query, io, exact, similar, vector)
      && IsAnswer(cfg, call.query, io, exact, similar, Ok(Verified(payload)))
    case Done(r) => IsAnswer(cfg, call.query, io, exact, similar, r)
  }

  // Both tiers missed.
  ghost predicate Missed(
    cfg: Config, query: string, io: nat -> Input, exact: Entries, similar: Entries, vector: seq<real>)
  {
    && !ExactTierAnswers(cfg, query, exact) && !SimilarTierAnswers(cfg, io, similar)
    && io(2).embedding == Some(vector)
  }

  // The first reply was accepted and claims no answer.
  ghost predicate NotFound(cfg: Config, io: nat -> Input, payload: SemanticResponse) {
    && Prompted(io).Ok? && io(4).model.Ok? && !payload.answerFound
    && VerifyAndParse(io(4).model.value, Prompted(io).value, cfg.decodeResponse) == Ok(payload)
  }

  lemma AdvanceReaches(cfg: Config, es: Entries, call: Call, io: nat -> Input, exact: Entries, similar: Entries)
    requires Reached(cfg, call, io, exact, similar) && !call.pc.Done?
    requires (call.pc.Start? ==> exact == es) && (call.pc.Embedding? ==> similar == es)
    ensures Reached(cfg, Advance(cfg, es, call, io(Stage(call.pc))).1, io, exact, similar)
  {
    hide *;
    if call.pc.Start? || call.pc.Parsing? || call.pc.Embedding? {
      LookupReaches(cfg, es, call, io, exact, similar);
    } else if call.pc.Searching? || call.pc.Generating? {
      PromptReaches(cfg, es, call, io, exact, similar);
    } else {
      ReplyReaches(cfg, es, call, io, exact, similar);
    }
  }

  lemma LookupReaches(cfg: Config, es: Entries, call: Call, io: nat -> Input, exact: Entries, similar: Entries)
    requires Reached(cfg, call, io, exact, similar) && (call.pc.Start? || call.pc.Parsing? || call.pc.Embedding?)
    requires (call.pc.Start? ==> exact == es) && (call.pc.Embedding? ==> similar == es)
    ensures Reached(cfg, Advance(cfg, es, call, io(Stage(call.pc))).1, io, exact, similar)
  {
    hide FindExact, FindSimilar, Touch, Cleaned, IsReply, Prompted;
  }

  lemma PromptReaches(cfg: Config, es: Entries, call: Call, io: nat -> Input, exact: Entries, similar: Entries)
    requires Reached(cfg, call, io, exact, similar) && (call.pc.Searching? || call.pc.Generating?)
    ensures Reached(cfg, Advance(cfg, es, call, io(Stage(call.pc))).1, io, exact, similar)
  {
    hide ExactTierAnswers, SimilarTierAnswers, IsIntent, VerifyAndParse, RerankCandidates;
  }

  lemma ReplyReaches(cfg: Config, es: Entries, call: Call, io: nat -> Input, exact: Entries, similar: Entries)
    requires Reached(cfg, call, io, exact, similar)
    requires call.pc.FallingBack? || call.pc.Requerying? || call.pc.Storing?
    ensures Reached(cfg, Advance(cfg, es, call, io(Stage(call.pc))).1, io, exact, similar)
  {
    hide ExactTierAnswers, SimilarTierAnswers, IsIntent, VerifyAndParse, Prompted;
  }

  // What the cache holds after a lone call: its lookups refresh what they hit, and what it inserts encodes
  // exactly the answer it returns, under its own query and vector.
  ghost predicate IsLeft(
    cfg: Config, query: string, io: nat -> Input, es: Entries, es': Entries, r: Result<Answer, PipelineError>)
  {
    var similar := Touch(es, FindExact(es, query), io(0).now);
    if ExactTierAnswers(cfg, query, es) || io(2).embedding.None? then es' == similar
    else
      var vector := io(2).embedding.value;
      var looked := Touch(similar, FindSimilar(similar, vector, cfg.threshold), io(2).now);
      if SimilarTierAnswers(cfg, io, similar) || r.Err? || r.value.Degraded? || cfg.encode(r.value).None?
      then es' == looked
      else es' == Inserted(looked, cfg.capacity, Entry(query, vector, cfg.encode(r.value).value, io(7).now))
  }

  // The entries at each stage of a lone call that began on `es`.
  ghost predicate Holding(cfg: Config, call: Call, io: nat -> Input, es: Entries, now: Entries) {
    var similar := Touch(es, FindExact(es, call.query), io(0).now);
    match call.pc
    case Start => now == es
    case Parsing => now == similar
    case Embedding(_) => now == similar
    case Done(r) => IsLeft(cfg, call.query, io, es, now, r)
    case _ =>
      && io(2).embedding.Some?
      && now == Touch(similar, FindSimilar(similar, io(2).embedding.value, cfg.threshold), io(2).now)
  }

  lemma AdvanceHolds(cfg: Config, es: Entries, call: Call, io: nat -> Input, now: Entries)
    requires !call.pc.Done? && Holding(cfg, call, io, es, now)
    requires Reached(cfg, call, io, es, Touch(es, FindExact(es, call.query), io(0).now))
    ensures var (now', call') := Advance(cfg, now, call, io(Stage(call.pc)));
            Holding(cfg, call', io, es, now')
  {
    hide *;
    if call.pc.Storing? {
      StoringHolds(cfg, es, call, io, now);
    } else if call.pc.Start? || call.pc.Parsing? || call.pc.Embedding? {
      LookupHolds(cfg, es, call, io, now);
    } else {
      ReplyHolds(cfg, es, call, io, now);
    }
  }

  lemma LookupHolds(cfg: Config, es: Entries, call: Call, io: nat -> Input, now: Entries)
    requires Holding(cfg, call, io, es, now) && (call.pc.Start? || call.pc.Parsing? || call.pc.Embedding?)
    requires Reached(cfg, call, io, es, Touch(es, FindExact(es, call.query), io(0).now))
    ensures var (now', call') := Advance(cfg, now, call, io(Stage(call.pc))); Holding(cfg, call', io, es, now')
  {
    hide FindExact, FindSimilar, Touch, IsIntent, IsAnswer, Inserted;
  }

  lemma ReplyHolds(cfg: Config, es: Entries, call: Call, io: nat -> Input, now: Entries)
    requires Holding(cfg, call, io, es, now)
    requires call.pc.Searching? || call.pc.Generating? || call.pc.FallingBack? || call.pc.Requerying?
    requires Reached(cfg, call, io, es, Touch(es, FindExact(es, call.query), io(0).now))
    ensures var (now', call') := Advance(cfg, now, call, io(Stage(call.pc))); Holding(cfg, call', io, es, now')
  {
    hide FindExact, FindSimilar, Touch, IsIntent, IsAnswer, VerifyAndParse, RerankCandidates, Prompted, Inserted;
    hide NotFound, ExactTierAnswers, SimilarTierAnswers;
  }

  lemma StoringHolds(cfg: Config, es: Entries, call: Call, io: nat -> Input, now: Entries)
    requires Holding(cfg, call, io, es, now) && call.pc.Storing?
    requires Reached(cfg, call, io, es, Touch(es, FindExact(es, call.query), io(0).now))
    ensures var (now', call') := Advance(cfg, now, call, io(Stage(call.pc))); Holding(cfg, call', io, es, now')
  {
    hide FindExact, FindSimilar, Touch, IsAnswer, Inserted, ExactTierAnswers, SimilarTierAnswers;
  }

  lemma {:induction false} FinishAnswers(cfg: Config, es: Entries, call: Call, io: nat -> Input, now: Entries)
    requires Holding(cfg, call, io, es, now)
    requires Reached(cfg, call, io, es, Touch(es, FindExact(es, call.query), io(0).now))
    ensures var (es', r) := Finish(cfg, now, call, io);
            && IsAnswer(cfg, call.query, io, es, Touch(es, FindExact(es, call.query), io(0).now), r)
            && IsLeft(cfg, call.query, io, es, es', r)
    decreases 8 - Stage(call.pc)
  {
    if !call.pc.Done? {
      StageGrows(cfg, now, call, io(Stage(call.pc)));
      FinishStep(cfg, now, call, io);
      AdvanceReaches(cfg, now, call, io, es, Touch(es, FindExact(es, call.query), io(0).now));
      AdvanceHolds(cfg, es, call, io, now);
      SameQuery(cfg, now, call, io(Stage(call.pc)));
      hide Reached, IsAnswer, IsLeft, Finish, Advance;
      var (now', call') := Advance(cfg, now, call, io(Stage(call.pc)));
      FinishAnswers(cfg, es, call', io, now');
    }
  }

  lemma SameQuery(cfg: Config, es: Entries, call: Call, i: Input)
    ensures Advance(cfg, es, call, i).1.query == call.query
  {
  }

  // A lone call answers as it must, and leaves in the cache what it must.
  lemma LoneCall(cfg: Config, es: Entries, query: string, io: nat -> Input)
    ensures var (es', r) := Finish(cfg, es, Call(query, Start, {}), io);
            && IsAnswer(cfg, query, io, es, Touch(es, FindExact(es, query), io(0).now), r)
            && IsLeft(cfg, query, io, es, es', r)
  {
    FinishAnswers(cfg, es, Call(query, Start, {}), io, es);
  }

  // ---------- The pipeline as it is written ----------

  method StoreVerified(
    cfg: Config, cache: SemanticCache<string>, query: string, vector: seq<real>, payload: SemanticResponse, now: nat)
    returns (r: Result<Answer, PipelineError>)
    requires cache.capacity == cfg.capacity
    modifies cache
    ensures r == Ok(Verified(payload))
    ensures cache.entries == Stored(cfg, old(cache.entries), query, vector, payload, now)
  {
    r := Ok(Verified(payload));
    var bytes := cfg.encode(Verified(payload));
    if bytes.Some? {
      cache.Insert(query, vector, bytes.value, now);
    }
  }

  // How a call ends that came by a payload to store, or by its result.
  function Ending(
    cfg: Config, es: Entries, query: string, vector: seq<real>,
    r: Result<SemanticResponse, Result<Answer, PipelineError>>, now: nat): (Entries, Result<Answer, PipelineError>)
  {
    match r
    case Ok(payload) => (Stored(cfg, es, query, vector, payload, now), Ok(Verified(payload)))
    case Err(result) => (es, result)
  }

  lemma StoringEnds(cfg: Config, es: Entries, call: Call, io: nat -> Input)
    requires call.pc.Storing?
    ensures Finish(cfg, es, call, io) ==
            Ending(cfg, es, call.query, call.pc.vector, Ok(call.pc.payload), io(7).now)
  {
    FinishStep(cfg, es, call, io);
  }

  // From the first answer of the model to the payload that is stored, without touching the cache.
  method Generate(
    cfg: Config, query: string, intent: string, vector: seq<real>, chunks: seq<Chunk>, io: nat -> Input,
    ghost es: Entries, ghost call: Call)
    returns (r: Result<SemanticResponse, Result<Answer, PipelineError>>)
    requires call.pc == Generating(intent, vector, chunks) && call.query == query
    ensures Finish(cfg, es, call, io) == Ending(cfg, es, query, vector, r, io(7).now)
  {
    FinishStep(cfg, es, call, io);
    ghost var at := Advance(cfg, es, call, io(4)).1;
    if io(4).model.Err? {
      return Err(Ok(BuildDegraded(chunks, io(4).model.error)));
    }
    var verdict := VerifyAndParse(io(4).model.value, chunks, cfg.decodeResponse);
    if verdict.Err? {
      return Err(Err(Rejected(verdict.error)));
    }
    if verdict.value.answerFound {
      StoringEnds(cfg, es, at, io);
      return Ok(verdict.value);
    }
    r := FallBack(cfg, query, intent, vector, verdict.value, io, es, at);
  }

  // A second attempt on the chunks of the fallback search.
  method FallBack(
    cfg: Config, query: string, intent: string, vector: seq<real>, payload: SemanticResponse, io: nat -> Input,
    ghost es: Entries, ghost call: Call)
    returns (r: Result<SemanticResponse, Result<Answer, PipelineError>>)
    requires call.pc == FallingBack(intent, vector, payload) && call.query == query
    ensures Finish(cfg, es, call, io) == Ending(cfg, es, query, vector, r, io(7).now)
  {
    var finalPayload := payload;
    FinishStep(cfg, es, call, io);
    ghost var at := Advance(cfg, es, call, io(5)).1;
    if io(5).found.None? {
      return Err(Err(FallbackFailed));
    }
    if io(5).found.value != [] {
      FinishStep(cfg, es, at, io);
      at := Advance(cfg, es, at, io(6)).1;
      if io(6).model.Ok? {
        var verdict := VerifyAndParse(io(6).model.value, io(5).found.value, cfg.decodeResponse);
        if verdict.Err? {
          return Err(Err(Rejected(verdict.error)));
        }
        finalPayload := verdict.value;
      }
    }
    StoringEnds(cfg, es, at, io);
    return Ok(finalPayload);
  }

  // From the miss of the similarity tier to the chunks the model is prompted with.
  method Retrieve(io: nat -> Input) returns (r: Result<seq<Chunk>, PipelineError>)
    ensures forall cfg, es, query, intent, vector ::
              var at := Advance(cfg, es, Call(query, Searching(intent, vector), {}), io(3));
              && at.0 == es && at.1.query == query
              && at.1.pc == if r.Ok? then Generating(intent, vector, r.value) else Done(Err(r.error))
  {
    if io(3).found.None? {
      return Err(SearchFailed);
    }
    if !io(3).crossEncoder {
      return Ok(io(3).found.value);
    }
    var kept := RerankCandidates(io(3).found.value, RERANK_TOP, io(3).scored);
    if kept.Err? {
      return Err(RerankFailed(kept.error));
    }
    return Ok(kept.value);
  }

  // What follows a miss of both tiers.
  method RetrieveAndAnswer(
    cfg: Config, cache: SemanticCache<string>, query: string, intent: string, vector: seq<real>, io: nat -> Input)
    returns (r: Result<Answer, PipelineError>)
    requires cache.capacity == cfg.capacity
    modifies cache
    ensures (cache.entries, r) ==
            Finish(cfg, old(cache.entries), Call(query, Searching(intent, vector), {}), io)
  {
    ghost var start := Call(query, Searching(intent, vector), {});
    FinishStep(cfg, cache.entries, start, io);
    ghost var at := Advance(cfg, cache.entries, start, io(3)).1;
    var chunks := Retrieve(io);
    assert Advance(cfg, cache.entries, start, io(3)).0 == cache.entries;
    if chunks.Err? {
      return Err(chunks.error);
    }
    var payload := Generate(cfg, query, intent, vector, chunks.value, io, cache.entries, at);
    if payload.Err? {
      return payload.error;
    }
    r := StoreVerified(cfg, cache, query, vector, payload.value, io(7).now);
  }

  /** The pipeline as it is written, on a cache that no other call touches meanwhile. */
  method RunSemanticPipeline(cfg: Config, cache: SemanticCache<string>, query: string, io: nat -> Input)
    returns (r: Result<Answer, PipelineError>)
    requires cache.capacity == cfg.capacity && cache.threshold == cfg.threshold
    modifies cache
    ensures (cache.entries, r) == Finish(cfg, old(cache.entries), Call(query, Start, {}), io)
    ensures IsLeft(cfg, query, io, old(cache.entries), cache.entries, r)
    ensures IsAnswer(cfg, query, io, old(cache.entries),
              Touch(old(cache.entries), FindExact(old(cache.entries), query), io(0).now), r)
  {
    LoneCall(cfg, cache.entries, query, io);
    hide IsLeft, IsAnswer;
    ghost var at := Call(query, Start, {});
    ghost var final := Finish(cfg, cache.entries, at, io);
    FinishStep(cfg, cache.entries, at, io);
    at := Advance(cfg, cache.entries, at, io(0)).1;
    var cached := cache.GetExact(query, io(0).now);
    if cached.Some? {
      var answer := cfg.decode(cached.value);
      if answer.Some? {
        return Ok(answer.value);
      }
    }
    assert at == Call(query, Parsing, {});
    FinishStep(cfg, cache.entries, at, io);
    var parsed := ParseQuestion(cfg, query, io(1).model);
    at := at.(pc := Embedding(parsed));
    FinishStep(cfg, cache.entries, at, io);
    at := Advance(cfg, cache.entries, at, io(2)).1;
    if io(2).embedding.None? {
      return Err(EmbeddingFailed);
    }
    var vector := io(2).embedding.value;
    cached := cache.GetSimilar(vector, io(2).now);
    if cached.Some? {
      var answer := cfg.decode(cached.value);
      if answer.Some? {
        return Ok(answer.value);
      }
    }
    assert final == Finish(cfg, cache.entries, at, io) && at == Call(query, Searching(parsed.intent, vector), {});
    r := RetrieveAndAnswer(cfg, cache, query, parsed.intent, vector, io);
  }
}
