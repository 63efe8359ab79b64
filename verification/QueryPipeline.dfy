/**
 The semantic query pipeline over the shared cache, as a step machine: one step per wait on the
 outside world, so that steps of different calls interleave freely. Model outputs, embeddings and
 retrieval results are inputs of the steps.
 */
module QueryPipeline {
  import opened Outcomes
  import opened Cache
  import opened Firewall
  import opened Rerank

  const RERANK_TOP := 3

  datatype Answer = Verified(response: SemanticResponse) | Degraded(message: string, chunks: seq<Chunk>)

  datatype ParsedQuestion = ParsedQuestion(intent: string, filters: seq<string>)

  datatype PipelineError =
    | EmbeddingFailed | SearchFailed | RerankFailed(why: RerankError)
    | Rejected(reason: FirewallError) | FallbackFailed

  // Capacity and threshold of the cache, and the JSON codecs in use.
  datatype Config = Config(
    capacity: nat, threshold: real,
    encode: Answer -> Option<string>, decode: string -> Option<Answer>,
    decodeQuestion: string -> Option<ParsedQuestion>, decodeResponse: Decoder)

  // What the outside world supplies to one step; a step reads the parts it needs.
  datatype Input = Input(
    now: nat, model: Result<string, string>, embedding: Option<seq<real>>,
    found: Option<seq<Chunk>>, crossEncoder: bool, scored: Option<seq<Float>>)

  datatype Pc =
    | Start
    | Parsing
    | Embedding(parsed: ParsedQuestion)
    | Searching(intent: string, vector: seq<real>)
    | Generating(intent: string, vector: seq<real>, chunks: seq<Chunk>)
    | FallingBack(intent: string, vector: seq<real>, payload: SemanticResponse)
    | Requerying(vector: seq<real>, payload: SemanticResponse, chunks: seq<Chunk>)
    | Storing(vector: seq<real>, payload: SemanticResponse)
    | Done(result: Result<Answer, PipelineError>)

  // `retrieved` collects every chunk the call got from the database.
  datatype Call = Call(query: string, pc: Pc, retrieved: set<Chunk>)

  type Entries = seq<Entry<string>>

  function Members(chunks: seq<Chunk>): set<Chunk> {
    set c | c in chunks
  }

  function BuildDegraded(chunks: seq<Chunk>, err: string): Answer {
    Degraded("LLM is offline or timed out: " + err, chunks)
  }

  // A cached response ends the call if it decodes.
  function FromCache(cfg: Config, call: Call, bytes: Option<string>, otherwise: Pc): Call {
    match bytes
    case Some(b) =>
      (match cfg.decode(b)
       case Some(answer) => call.(pc := Done(Ok(answer)))
       case None => call.(pc := otherwise))
    case None => call.(pc := otherwise)
  }

  function ParseQuestion(cfg: Config, query: string, model: Result<string, string>): ParsedQuestion {
    var asIs := ParsedQuestion(query, []);
    match model
    case Ok(raw) => (match cfg.decodeQuestion(Cleaned(raw)) case Some(parsed) => parsed case None => asIs)
    case Err(_) => asIs
  }

  // Verifies an answer against the chunks it was prompted with.
  function Accept(
    cfg: Config, call: Call, raw: string, chunks: seq<Chunk>, vector: seq<real>, intent: Option<string>): Call
  {
    match VerifyAndParse(raw, chunks, cfg.decodeResponse)
    case Err(e) => call.(pc := Done(Err(Rejected(e))))
    case Ok(payload) =>
      call.(pc := if intent.Some? && !payload.answerFound then FallingBack(intent.value, vector, payload)
                  else Storing(vector, payload))
  }

  // A payload that does not encode is not stored.
  function Stored(
    cfg: Config, es: Entries, query: string, vector: seq<real>, payload: SemanticResponse, now: nat): Entries
  {
    match cfg.encode(Verified(payload))
    case Some(bytes) => Inserted(es, cfg.capacity, Entry(query, vector, bytes, now))
    case None => es
  }

  function Advance(cfg: Config, es: Entries, call: Call, i: Input): (Entries, Call) {
    match call.pc
    case Start =>
      var hit := FindExact(es, call.query);
      (Touch(es, hit, i.now), FromCache(cfg, call, Response(es, hit), Parsing))
    case Parsing => (es, call.(pc := Embedding(ParseQuestion(cfg, call.query, i.model))))
    case Embedding(parsed) =>
      (match i.embedding
       case None => (es, call.(pc := Done(Err(EmbeddingFailed))))
       case Some(vector) =>
         var hit := FindSimilar(es, vector, cfg.threshold);
         (Touch(es, hit, i.now), FromCache(cfg, call, Response(es, hit), Searching(parsed.intent, vector))))
    case Searching(intent, vector) =>
      (match i.found
       case None => (es, call.(pc := Done(Err(SearchFailed))))
       case Some(chunks) =>
         var searched := call.(retrieved := call.retrieved + Members(chunks));
         if !i.crossEncoder then (es, searched.(pc := Generating(intent, vector, chunks)))
         else
           match RerankCandidates(chunks, RERANK_TOP, i.scored)
           case Err(e) => (es, searched.(pc := Done(Err(RerankFailed(e)))))
           case Ok(kept) => (es, searched.(pc := Generating(intent, vector, kept))))
    case Generating(intent, vector, chunks) =>
      (match i.model
       case Err(e) => (es, call.(pc := Done(Ok(BuildDegraded(chunks, e)))))
       case Ok(raw) => (es, Accept(cfg, call, raw, chunks, vector, Some(intent))))
    case FallingBack(_, vector, payload) =>
      (match i.found
       case None => (es, call.(pc := Done(Err(FallbackFailed))))
       case Some(chunks) =>
         var searched := call.(retrieved := call.retrieved + Members(chunks));
         (es, searched.(pc := if chunks == [] then Storing(vector, payload) else Requerying(vector, payload, chunks))))
    case Requerying(vector, payload, chunks) =>
      (match i.model
       case Err(_) => (es, call.(pc := Storing(vector, payload)))
       case Ok(raw) => (es, Accept(cfg, call, raw, chunks, vector, None)))
    case Storing(vector, payload) =>
      (Stored(cfg, es, call.query, vector, payload, i.now), call.(pc := Done(Ok(Verified(payload)))))
    case Done(_) => (es, call)
  }

  // ---------- Many calls at once ----------

  // An answer that a call produced itself, and what that call had retrieved.
  datatype Production = Production(query: string, retrieved: set<Chunk>, response: SemanticResponse)

  datatype System = System(entries: Entries, calls: seq<Call>, produced: seq<Production>)

  datatype Event = Begin(query: string) | Tick(call: nat, input: Input)

  function Produced(call: Call): seq<Production> {
    if call.pc.Storing? then [Production(call.query, call.retrieved, call.pc.payload)] else []
  }

  // Ticks of calls that do not exist do nothing.
  function Next(cfg: Config, s: System, e: Event): System {
    match e
    case Begin(query) => s.(calls := s.calls + [Call(query, Start, {})])
    case Tick(c, input) =>
      if c >= |s.calls| then s
      else
        var (entries, call) := Advance(cfg, s.entries, s.calls[c], input);
        System(entries, s.calls[c := call], s.produced + Produced(s.calls[c]))
  }

  function Run(cfg: Config, events: seq<Event>): System {
    if events == [] then System([], [], []) else Next(cfg, Run(cfg, events[..|events| - 1]), events[|events| - 1])
  }

  // Serialisation is assumed to round-trip on verified answers.
  ghost predicate RoundTrips(cfg: Config) {
    forall r :: cfg.encode(Verified(r)).Some? ==> cfg.decode(cfg.encode(Verified(r)).value) == Some(Verified(r))
  }

  // A positive answer quotes, verbatim, a retrieved chunk with the cited id.
  ghost predicate GroundedIn(response: SemanticResponse, retrieved: set<Chunk>) {
    response.answerFound ==>
      exists c :: c in retrieved && c.id == response.sourceChunkId && Text.Contains(c.text, response.exactQuote)
  }

  ghost predicate CallInv(call: Call) {
    match call.pc
    case Generating(_, _, chunks) => Members(chunks) <= call.retrieved
    case FallingBack(_, _, payload) => !payload.answerFound
    case Requerying(_, payload, chunks) => !payload.answerFound && Members(chunks) <= call.retrieved
    case Storing(_, payload) => GroundedIn(payload, call.retrieved)
    case _ => true
  }

  // The response was produced and grounded by some call.
  ghost predicate Traced(response: SemanticResponse, produced: seq<Production>) {
    exists p :: p in produced && p.response == response && GroundedIn(response, p.retrieved)
  }

  // The entry holds the encoding of a traced response to its own query.
  ghost predicate EntryInv(cfg: Config, e: Entry<string>, produced: seq<Production>) {
    exists p :: p in produced && p.query == e.query && GroundedIn(p.response, p.retrieved)
                && cfg.encode(Verified(p.response)) == Some(e.response)
  }

  ghost predicate ResultInv(call: Call, produced: seq<Production>) {
    call.pc.Done? && call.pc.result.Ok? ==>
      match call.pc.result.value
      case Verified(response) => Traced(response, produced)
      case Degraded(_, chunks) => Members(chunks) <= call.retrieved
  }

  ghost predicate SystemInv(cfg: Config, s: System) {
    && (forall e :: e in s.entries ==> EntryInv(cfg, e, s.produced))
    && (forall call :: call in s.calls ==> CallInv(call) && ResultInv(call, s.produced))
  }

  lemma AcceptInv(
    cfg: Config, call: Call, raw: string, chunks: seq<Chunk>, vector: seq<real>, intent: Option<string>)
    requires Members(chunks) <= call.retrieved
    ensures CallInv(Accept(cfg, call, raw, chunks, vector, intent))
    ensures Accept(cfg, call, raw, chunks, vector, intent).pc.Done? ==>
              Accept(cfg, call, raw, chunks, vector, intent).pc.result.Err?
  {
    FirewallExactly(raw, chunks, cfg.decodeResponse);
    var r := VerifyAndParse(raw, chunks, cfg.decodeResponse);
    if r.Ok? && r.value.answerFound {
      var c :| c in chunks && c.id == r.value.sourceChunkId && Text.Contains(c.text, r.value.exactQuote);
      assert c in Members(chunks);
    }
  }

  lemma AdvanceKeepsCallInv(cfg: Config, es: Entries, call: Call, i: Input)
    requires CallInv(call)
    ensures CallInv(Advance(cfg, es, call, i).1)
  {
    match call.pc
    case Generating(intent, vector, chunks) =>
      if i.model.Ok? {
        AcceptInv(cfg, call, i.model.value, chunks, vector, Some(intent));
      }
    case Requerying(vector, _, chunks) =>
      if i.model.Ok? {
        AcceptInv(cfg, call, i.model.value, chunks, vector, None);
      }
    case _ =>
  }

  // Touching and inserting change no stored query or response.
  ghost predicate OldOrNew(es: Entries, es': Entries, cfg: Config, call: Call) {
    forall e :: e in es' ==>
      || (exists o :: o in es && o.query == e.query && o.response == e.response)
      || (call.pc.Storing? && e.query == call.query && cfg.encode(Verified(call.pc.payload)) == Some(e.response))
  }

  lemma AdvanceEntries(cfg: Config, es: Entries, call: Call, i: Input)
    ensures OldOrNew(es, Advance(cfg, es, call, i).0, cfg, call)
  {
    var es' := Advance(cfg, es, call, i).0;
    match call.pc
    case Start => TouchOldOrNew(es, FindExact(es, call.query), i.now, cfg, call);
    case Embedding(_) =>
      if i.embedding.Some? {
        TouchOldOrNew(es, FindSimilar(es, i.embedding.value, cfg.threshold), i.now, cfg, call);
      }
    case Storing(_, _) =>
      forall e | e in es' && e !in es
        ensures e.query == call.query && cfg.encode(Verified(call.pc.payload)) == Some(e.response)
      {
      }
    case _ =>
  }

  lemma TouchOldOrNew(es: Entries, hit: Option<nat>, now: nat, cfg: Config, call: Call)
    requires hit.Some? ==> hit.value < |es|
    ensures OldOrNew(es, Touch(es, hit, now), cfg, call)
  {
    var es' := Touch(es, hit, now);
    forall j | 0 <= j < |es'| ensures exists o :: o in es && o.query == es'[j].query && o.response == es'[j].response {
      assert es[j] in es;
    }
  }

  lemma TracedStays(response: SemanticResponse, produced: seq<Production>, more: seq<Production>)
    requires Traced(response, produced)
    ensures Traced(response, produced + more)
  {
    var p :| p in produced && p.response == response && GroundedIn(response, p.retrieved);
    assert p in produced + more;
  }

  lemma EntryInvStays(cfg: Config, o: Entry<string>, e: Entry<string>, produced: seq<Production>, more: seq<Production>)
    requires EntryInv(cfg, o, produced) && o.query == e.query && o.response == e.response
    ensures EntryInv(cfg, e, produced + more)
  {
    var p :| p in produced && p.query == o.query && GroundedIn(p.response, p.retrieved)
             && cfg.encode(Verified(p.response)) == Some(o.response);
    assert p in produced + more;
  }

  lemma StoredEntryInv(cfg: Config, e: Entry<string>, call: Call, produced: seq<Production>)
    requires CallInv(call) && call.pc.Storing? && e.query == call.query
    requires cfg.encode(Verified(call.pc.payload)) == Some(e.response)
    ensures EntryInv(cfg, e, produced + Produced(call))
    ensures Traced(call.pc.payload, produced + Produced(call))
  {
    var p := Production(call.query, call.retrieved, call.pc.payload);
    assert (produced + [p])[|produced|] == p;
  }

  // Where a finished call's answer comes from: the cache, or its own verified payload.
  lemma AdvanceResult(cfg: Config, es: Entries, call: Call, i: Input, produced: seq<Production>)
    requires RoundTrips(cfg) && CallInv(call) && ResultInv(call, produced)
    requires forall e :: e in es ==> EntryInv(cfg, e, produced)
    ensures ResultInv(Advance(cfg, es, call, i).1, produced + Produced(call))
  {
    match call.pc
    case Start => CachedResult(cfg, es, call, FindExact(es, call.query), Parsing, produced);
    case Embedding(parsed) =>
      if i.embedding.Some? {
        CachedResult(cfg, es, call, FindSimilar(es, i.embedding.value, cfg.threshold),
          Searching(parsed.intent, i.embedding.value), produced);
      }
    case Generating(intent, vector, chunks) =>
      if i.model.Ok? {
        AcceptInv(cfg, call, i.model.value, chunks, vector, Some(intent));
      }
    case Requerying(vector, _, chunks) =>
      if i.model.Ok? {
        AcceptInv(cfg, call, i.model.value, chunks, vector, None);
      }
    case Storing(_, payload) =>
      var p := Production(call.query, call.retrieved, payload);
      assert (produced + [p])[|produced|] == p;
    case Done(_) => assert produced + [] == produced;
    case _ =>
  }

  lemma CachedResult(
    cfg: Config, es: Entries, call: Call, hit: Option<nat>, otherwise: Pc, produced: seq<Production>)
    requires RoundTrips(cfg) && !otherwise.Done? && !call.pc.Storing?
    requires hit.Some? ==> hit.value < |es|
    requires forall e :: e in es ==> EntryInv(cfg, e, produced)
    ensures ResultInv(FromCache(cfg, call, Response(es, hit), otherwise), produced + Produced(call))
  {
    assert produced + [] == produced;
    if hit.Some? {
      var e := es[hit.value];
      assert e in es;
      var p :| p in produced && p.query == e.query && GroundedIn(p.response, p.retrieved)
               && cfg.encode(Verified(p.response)) == Some(e.response);
      assert cfg.decode(e.response) == Some(Verified(p.response));
    }
  }

  lemma TickKeepsInv(cfg: Config, s: System, c: nat, i: Input)
    requires RoundTrips(cfg) && SystemInv(cfg, s)
    ensures SystemInv(cfg, Next(cfg, s, Tick(c, i)))
  {
    if c < |s.calls| {
      var call := s.calls[c];
      assert call in s.calls;
      var (entries, call') := Advance(cfg, s.entries, call, i);
      var more := Produced(call);
      AdvanceKeepsCallInv(cfg, s.entries, call, i);
      AdvanceResult(cfg, s.entries, call, i, s.produced);
      AdvanceEntries(cfg, s.entries, call, i);
      forall e | e in entries ensures EntryInv(cfg, e, s.produced + more) {
        if o :| o in s.entries && o.query == e.query && o.response == e.response {
          EntryInvStays(cfg, o, e, s.produced, more);
        } else {
          StoredEntryInv(cfg, e, call, s.produced);
        }
      }
      forall other | other in s.calls[c := call'] ensures CallInv(other) && ResultInv(other, s.produced + more) {
        var m :| 0 <= m < |s.calls| && s.calls[c := call'][m] == other;
        assert m != c ==> other == s.calls[m] && s.calls[m] in s.calls;
        if m != c && other.pc.Done? && other.pc.result.Ok? && other.pc.result.value.Verified? {
          assert ResultInv(other, s.produced);
          TracedStays(other.pc.result.value.response, s.produced, more);
        }
      }
    }
  }

  lemma {:induction false} RunKeepsInv(cfg: Config, events: seq<Event>)
    requires RoundTrips(cfg)
    ensures SystemInv(cfg, Run(cfg, events))
  {
    if events != [] {
      RunKeepsInv(cfg, events[..|events| - 1]);
      match events[|events| - 1]
      case Begin(_) =>
      case Tick(c, i) => TickKeepsInv(cfg, Run(cfg, events[..|events| - 1]), c, i);
    }
  }

  // For every interleaving of calls, all model outputs and all retrieval results: what is cached
  // decodes to a verified answer, never a degraded one, and every verified answer, cached or
  // returned, was produced by a call that had retrieved the chunk it quotes. A degraded result lists
  // only chunks that its own call retrieved.
  lemma Grounding(cfg: Config, events: seq<Event>)
    requires RoundTrips(cfg)
    ensures var s := Run(cfg, events);
            && (forall e :: e in s.entries ==>
                  exists p :: p in s.produced && p.query == e.query && GroundedIn(p.response, p.retrieved)
                              && cfg.decode(e.response) == Some(Verified(p.response)))
            && (forall call, r :: call in s.calls && call.pc == Done(Ok(Verified(r))) ==>
                  exists p :: p in s.produced && p.response == r && GroundedIn(r, p.retrieved))
            && (forall call, m, chunks :: call in s.calls && call.pc == Done(Ok(Degraded(m, chunks))) ==>
                  Members(chunks) <= call.retrieved)
  {
    var s := Run(cfg, events);
    RunKeepsInv(cfg, events);
    forall e | e in s.entries
      ensures exists p :: p in s.produced && p.query == e.query && GroundedIn(p.response, p.retrieved)
                          && cfg.decode(e.response) == Some(Verified(p.response))
    {
      var p :| p in s.produced && p.query == e.query && GroundedIn(p.response, p.retrieved)
               && cfg.encode(Verified(p.response)) == Some(e.response);
    }
  }

  // An answer of the exact tier was produced for an equivalent query.
  lemma ExactAnswerProvenance(cfg: Config, events: seq<Event>, c: nat, i: Input, answer: Answer)
    requires RoundTrips(cfg)
    requires var s := Run(cfg, events);
             c < |s.calls| && s.calls[c].pc.Start? && Advance(cfg, s.entries, s.calls[c], i).1.pc == Done(Ok(answer))
    ensures var s := Run(cfg, events);
            answer.Verified? && exists p :: p in s.produced && QueryKey(p.query) == QueryKey(s.calls[c].query)
                                  && p.response == answer.response && GroundedIn(answer.response, p.retrieved)
  {
    var s := Run(cfg, events);
    RunKeepsInv(cfg, events);
    var e := s.entries[FindExact(s.entries, s.calls[c].query).value];
    assert e in s.entries && EntryInv(cfg, e, s.produced);
    var p :| p in s.produced && p.query == e.query && GroundedIn(p.response, p.retrieved)
             && cfg.encode(Verified(p.response)) == Some(e.response);
  }
}
