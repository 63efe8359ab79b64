/**
 Hybrid retrieval: a dense pass, then positive and `NOT` filters in order over a map of retrieved
 chunks, then rank fusion and selection. The query answers are parameters.
 */
module HybridSearch {
  import opened Outcomes
  import opened Text
  import opened Sequences
  import opened RankFusion
  import opened Firewall
  import Framing
  import Ingestion

  const FUSION_K := 60.0
  const TOP := 20

  type Row = Ingestion.Customer

  // The JSON object a chunk consists of, its keys in alphabetical order.
  function ChunkText(row: Row): string {
    Framing.Print(Framing.Obj([
      Framing.Field("city", Framing.Str(row.city)),
      Framing.Field("kunnr", Framing.Str(row.kunnr)),
      Framing.Field("name", Framing.Str(row.name))]))
  }

  // A record batch that lacks a needed column is skipped.
  datatype RecordBatch = Incomplete | Complete(rows: seq<Row>)

  // `None` is a failing read.
  type Stream = seq<Option<RecordBatch>>

  datatype SearchError = TableMissing | ReadFailed

  type Retrieved = map<string, string>

  // ---------- Reading a stream ----------

  ghost predicate Readable(stream: Stream) {
    forall i :: 0 <= i < |stream| ==> stream[i].Some?
  }

  function RowsIn(stream: Stream): seq<Row> {
    if stream == [] then []
    else
      var last := stream[|stream| - 1];
      RowsIn(stream[..|stream| - 1]) + if last.Some? && last.value.Complete? then last.value.rows else []
  }

  function Kunnrs(rows: seq<Row>): seq<string> {
    seq(|rows|, i requires 0 <= i < |rows| => rows[i].kunnr)
  }

  // Later rows replace earlier ones.
  function InsertRows(m: Retrieved, rows: seq<Row>): Retrieved {
    if rows == [] then m
    else InsertRows(m, rows[..|rows| - 1])[rows[|rows| - 1].kunnr := ChunkText(rows[|rows| - 1])]
  }

  lemma {:induction false} InsertRowsConcat(m: Retrieved, a: seq<Row>, b: seq<Row>)
    ensures InsertRows(m, a + b) == InsertRows(InsertRows(m, a), b)
  {
    if b == [] {
      assert a + b == a;
    } else {
      assert (a + b)[..|a + b| - 1] == a + b[..|b| - 1];
      InsertRowsConcat(m, a, b[..|b| - 1]);
    }
  }

  // Adds the rows of one record batch.
  method AddRows(rows: seq<Row>, ids: seq<string>, retrieved: Retrieved)
    returns (ids': seq<string>, retrieved': Retrieved)
    ensures ids' == ids + Kunnrs(rows) && retrieved' == InsertRows(retrieved, rows)
  {
    ids', retrieved' := ids, retrieved;
    for i := 0 to |rows|
      invariant ids' == ids + Kunnrs(rows[..i]) && retrieved' == InsertRows(retrieved, rows[..i])
    {
      assert rows[..i + 1][..i] == rows[..i];
      ids' := ids' + [rows[i].kunnr];
      retrieved' := retrieved'[rows[i].kunnr := ChunkText(rows[i])];
    }
    assert rows[..|rows|] == rows;
  }

  // The number of rows in the complete record batches among the first `n`.
  function RowsBefore(stream: Stream, n: nat): nat
    requires n <= |stream|
  {
    if n == 0 then 0
    else
      RowsBefore(stream, n - 1)
      + if stream[n - 1].Some? && stream[n - 1].value.Complete? then |stream[n - 1].value.rows| else 0
  }

  // Rows stand in stream order, record batch after record batch.
  lemma {:induction false} RowsInOrder(stream: Stream, k: nat, n: nat, r: nat)
    requires n < k <= |stream| && stream[n].Some? && stream[n].value.Complete? && r < |stream[n].value.rows|
    ensures |RowsIn(stream[..k])| == RowsBefore(stream, k) > RowsBefore(stream, n) + r
    ensures RowsIn(stream[..k])[RowsBefore(stream, n) + r] == stream[n].value.rows[r]
  {
    assert stream[..k][..k - 1] == stream[..k - 1];
    RowsInCount(stream, k);
    RowsInCount(stream, k - 1);
    if n < k - 1 {
      RowsInOrder(stream, k - 1, n, r);
    }
  }

  lemma {:induction false} RowsInCount(stream: Stream, k: nat)
    requires k <= |stream|
    ensures |RowsIn(stream[..k])| == RowsBefore(stream, k)
  {
    if k > 0 {
      assert stream[..k][..k - 1] == stream[..k - 1];
      RowsInCount(stream, k - 1);
    }
  }

  lemma RowsNext(stream: Stream, before: Retrieved, n: nat)
    requires n < |stream| && stream[n].Some?
    ensures var done, next := RowsIn(stream[..n]), RowsIn(stream[..n + 1]);
            if stream[n].value.Complete? then
              && Kunnrs(next) == Kunnrs(done) + Kunnrs(stream[n].value.rows)
              && InsertRows(before, next) == InsertRows(InsertRows(before, done), stream[n].value.rows)
            else next == done
  {
    assert stream[..n + 1][..n] == stream[..n];
    if stream[n].value.Complete? {
      InsertRowsConcat(before, RowsIn(stream[..n]), stream[n].value.rows);
    }
  }

  method ExtractChunks(stream: Stream, before: Retrieved)
    returns (r: Result<seq<string>, SearchError>, retrieved: Retrieved)
    ensures r.Ok? <==> Readable(stream)
    ensures r.Ok? ==> r.value == Kunnrs(RowsIn(stream)) && retrieved == InsertRows(before, RowsIn(stream))
  {
    var ids: seq<string> := [];
    retrieved := before;
    for n := 0 to |stream|
      invariant Readable(stream[..n])
      invariant ids == Kunnrs(RowsIn(stream[..n])) && retrieved == InsertRows(before, RowsIn(stream[..n]))
    {
      hide RowsIn, InsertRows, Kunnrs;
      if stream[n].None? {
        return Err(ReadFailed), retrieved;
      }
      RowsNext(stream, before, n);
      if stream[n].value.Complete? {
        ids, retrieved := AddRows(stream[n].value.rows, ids, retrieved);
      }
    }
    assert stream[..|stream|] == stream;
    return Ok(ids), retrieved;
  }

  // ---------- Filters ----------

  predicate IsNot(filter: string) {
    "NOT " <= filter
  }

  function Term(filter: string): string {
    if IsNot(filter) then filter[4..] else filter
  }

  // What happens to the map of retrieved chunks.
  datatype Event = Fetch(rows: seq<Row>) | Exclude(term: string)

  function EventOf(filter: string, rows: seq<Row>): Event {
    if IsNot(filter) then Exclude(Term(filter)) else Fetch(rows)
  }

  // The dense pass, then one event for each filter.
  function Events(dense: seq<Row>, filters: seq<string>, lexical: nat -> seq<Row>): seq<Event> {
    [Fetch(dense)] + seq(|filters|, i requires 0 <= i < |filters| => EventOf(filters[i], lexical(i)))
  }

  function Drop(m: Retrieved, term: string): Retrieved {
    map id | id in m && !Contains(m[id], term) :: m[id]
  }

  function After(m: Retrieved, e: Event): Retrieved {
    match e
    case Fetch(rows) => InsertRows(m, rows)
    case Exclude(term) => Drop(m, term)
  }

  function Replay(events: seq<Event>): Retrieved {
    if events == [] then map[] else After(Replay(events[..|events| - 1]), events[|events| - 1])
  }

  // The ids of the positive filters' rows, in filter order, repeats kept.
  function LexicalIds(filters: seq<string>, lexical: nat -> seq<Row>): seq<string> {
    if filters == [] then []
    else
      var n := |filters| - 1;
      LexicalIds(filters[..n], lexical) + if IsNot(filters[n]) then [] else Kunnrs(lexical(n))
  }

  // The number of rows of the positive filters among the first `n`.
  function IdsBefore(filters: seq<string>, lexical: nat -> seq<Row>, n: nat): nat
    requires n <= |filters|
  {
    if n == 0 then 0 else IdsBefore(filters, lexical, n - 1) + if IsNot(filters[n - 1]) then 0 else |lexical(n - 1)|
  }

  // The lexical ranking lists the keys filter after filter.
  lemma {:induction false} LexicalInOrder(filters: seq<string>, lexical: nat -> seq<Row>, k: nat, n: nat, r: nat)
    requires n < k <= |filters| && !IsNot(filters[n]) && r < |lexical(n)|
    ensures |LexicalIds(filters[..k], lexical)| == IdsBefore(filters, lexical, k) > IdsBefore(filters, lexical, n) + r
    ensures LexicalIds(filters[..k], lexical)[IdsBefore(filters, lexical, n) + r] == lexical(n)[r].kunnr
  {
    assert filters[..k][..k - 1] == filters[..k - 1];
    LexicalCount(filters, lexical, k);
    LexicalCount(filters, lexical, k - 1);
    if n < k - 1 {
      LexicalInOrder(filters, lexical, k - 1, n, r);
    }
  }

  lemma {:induction false} LexicalCount(filters: seq<string>, lexical: nat -> seq<Row>, k: nat)
    requires k <= |filters|
    ensures |LexicalIds(filters[..k], lexical)| == IdsBefore(filters, lexical, k)
  {
    if k > 0 {
      assert filters[..k][..k - 1] == filters[..k - 1];
      LexicalCount(filters, lexical, k - 1);
    }
  }

  // ---------- Which chunks survive ----------

  // The chunk of the last row with the id.
  function ChunkIn(rows: seq<Row>, id: string): (chunk: Option<string>)
    ensures chunk.Some? <==> exists i :: 0 <= i < |rows| && rows[i].kunnr == id
  {
    if rows == [] then None
    else if rows[|rows| - 1].kunnr == id then Some(ChunkText(rows[|rows| - 1]))
    else ChunkIn(rows[..|rows| - 1], id)
  }

  ghost predicate Fetches(e: Event, id: string) {
    e.Fetch? && ChunkIn(e.rows, id).Some?
  }

  // Event `j` is the last to fetch the id, and no later exclusion matches the chunk it fetched.
  ghost predicate SurvivesFrom(events: seq<Event>, id: string, j: nat) {
    && j < |events| && Fetches(events[j], id)
    && forall l :: j < l < |events| ==>
         && !Fetches(events[l], id)
         && (events[l].Exclude? ==> !Contains(ChunkIn(events[j].rows, id).value, events[l].term))
  }

  lemma {:induction false} InsertRowsAt(m: Retrieved, rows: seq<Row>, id: string)
    ensures id in InsertRows(m, rows) <==> id in m || ChunkIn(rows, id).Some?
    ensures id in InsertRows(m, rows) ==>
              InsertRows(m, rows)[id] == if ChunkIn(rows, id).Some? then ChunkIn(rows, id).value else m[id]
  {
    if rows != [] {
      InsertRowsAt(m, rows[..|rows| - 1], id);
    }
  }

  ghost predicate Survives(events: seq<Event>, id: string) {
    exists j: nat :: SurvivesFrom(events, id, j)
  }

  lemma SurvivesFromNext(init: seq<Event>, last: Event, id: string, j: nat)
    ensures SurvivesFrom(init + [last], id, j) <==>
            if Fetches(last, id) then j == |init|
            else SurvivesFrom(init, id, j)
                 && (last.Exclude? ==> !Contains(ChunkIn(init[j].rows, id).value, last.term))
  {
    var events := init + [last];
    assert events[|init|] == last;
    assert forall l :: 0 <= l < |init| ==> events[l] == init[l];
  }

  // A chunk is in the map exactly when it survives, and then has the text of its last fetch.
  lemma {:induction false} ReplaySurvivors(events: seq<Event>, id: string)
    ensures id in Replay(events) <==> Survives(events, id)
    ensures forall j: nat :: SurvivesFrom(events, id, j) ==>
              id in Replay(events) && ChunkIn(events[j].rows, id) == Some(Replay(events)[id])
  {
    if events != [] {
      var n := |events| - 1;
      var init, last := events[..n], events[n];
      assert events == init + [last];
      ReplaySurvivors(init, id);
      if last.Fetch? {
        InsertRowsAt(Replay(init), last.rows, id);
      }
      forall j: nat {
        SurvivesFromNext(init, last, id, j);
      }
      if Survives(init, id) {
        var j: nat :| SurvivesFrom(init, id, j);
        assert SurvivesFrom(events, id, j) || SurvivesFrom(events, id, n) || id !in Replay(events);
      }
      assert Fetches(last, id) ==> SurvivesFrom(events, id, n);
    }
  }

  // ---------- Selection ----------

  // The retrieved chunks of the ids, in the order of the ids.
  function Select(ids: seq<string>, m: Retrieved): seq<Chunk> {
    if ids == [] then []
    else
      var last := ids[|ids| - 1];
      Select(ids[..|ids| - 1], m) + if last in m then [Chunk(last, m[last])] else []
  }

  function Top(fused: seq<(string, real)>): seq<string> {
    if |fused| <= TOP then Ids(fused) else Ids(fused)[..TOP]
  }

  /** The result of a search over the given rows; the fusion in it is unique. */
  ghost predicate IsResult(res: seq<Chunk>, dense: seq<Row>, filters: seq<string>, lexical: nat -> seq<Row>) {
    exists fused ::
      && IsFusion(fused, Kunnrs(dense), LexicalIds(filters, lexical), FUSION_K)
      && res == Select(Top(fused), Replay(Events(dense, filters, lexical)))
  }

  // The places of the ids that are still in the map.
  function Places(ids: seq<string>, m: Retrieved): (places: seq<nat>)
    ensures forall a :: 0 <= a < |places| ==> places[a] < |ids|
    ensures forall a, b :: 0 <= a < b < |places| ==> places[a] < places[b]
  {
    if ids == [] then []
    else
      var n := |ids| - 1;
      Places(ids[..n], m) + if ids[n] in m then [n] else []
  }

  lemma {:induction false} PlacesOf(ids: seq<string>, m: Retrieved)
    ensures forall p :: p in Places(ids, m) <==> 0 <= p < |ids| && ids[p] in m
  {
    if ids != [] {
      var n := |ids| - 1;
      PlacesOf(ids[..n], m);
      assert forall p :: 0 <= p < n ==> ids[..n][p] == ids[p];
    }
  }

  lemma {:induction false} SelectSize(ids: seq<string>, m: Retrieved)
    ensures |Select(ids, m)| == |Places(ids, m)|
  {
    if ids != [] {
      SelectSize(ids[..|ids| - 1], m);
    }
  }

  lemma {:induction false} SelectAt(ids: seq<string>, m: Retrieved, a: nat)
    requires a < |Places(ids, m)|
    ensures |Select(ids, m)| == |Places(ids, m)|
    ensures var id := ids[Places(ids, m)[a]];
            id in m && Select(ids, m)[a] == Chunk(id, m[id])
  {
    SelectSize(ids, m);
    var n := |ids| - 1;
    SelectSize(ids[..n], m);
    if a < |Places(ids[..n], m)| {
      SelectAt(ids[..n], m, a);
    }
  }

  // The selection keeps, in order, exactly the ids that survive, each with the chunk last fetched.
  lemma SelectionExactly(top: seq<string>, events: seq<Event>)
    requires Distinct(top)
    ensures var res, places := Select(top, Replay(events)), Places(top, Replay(events));
            && |res| == |places| && DistinctIds(res)
            && (forall p :: p in places <==> 0 <= p < |top| && Survives(events, top[p]))
            && (forall a :: 0 <= a < |res| ==> res[a].id == top[places[a]] && Survives(events, res[a].id))
            && (forall a, j: nat :: 0 <= a < |res| && SurvivesFrom(events, res[a].id, j) ==>
                  ChunkIn(events[j].rows, res[a].id) == Some(res[a].text))
  {
    var m := Replay(events);
    var res, places := Select(top, m), Places(top, m);
    PlacesOf(top, m);
    SelectSize(top, m);
    forall id ensures id in m <==> Survives(events, id) {
      ReplaySurvivors(events, id);
    }
    forall a | 0 <= a < |res| ensures res[a].id == top[places[a]] && res[a].id in m && res[a].text == m[res[a].id] {
      SelectAt(top, m, a);
    }
    forall a, j: nat | 0 <= a < |res| && SurvivesFrom(events, res[a].id, j)
      ensures ChunkIn(events[j].rows, res[a].id) == Some(res[a].text)
    {
      ReplaySurvivors(events, res[a].id);
    }
  }

  lemma TopDistinct(fused: seq<(string, real)>, dense: seq<string>, lexical: seq<string>)
    requires IsFusion(fused, dense, lexical, FUSION_K)
    ensures Distinct(Top(fused)) && forall p :: 0 <= p < |Top(fused)| ==> Top(fused)[p] == fused[p].0
  {
    FusionConserves(fused, dense, lexical, FUSION_K);
  }

  // ---------- The search ----------

  // The map after the dense pass and the filters, one filter at a time.
  function Filtered(dense: seq<Row>, filters: seq<string>, lexical: nat -> seq<Row>): Retrieved {
    if filters == [] then InsertRows(map[], dense)
    else
      var n := |filters| - 1;
      After(Filtered(dense, filters[..n], lexical), EventOf(filters[n], lexical(n)))
  }

  lemma {:induction false} FilteredIsReplay(dense: seq<Row>, filters: seq<string>, lexical: nat -> seq<Row>)
    ensures Filtered(dense, filters, lexical) == Replay(Events(dense, filters, lexical))
  {
    var events := Events(dense, filters, lexical);
    if filters == [] {
      assert events == [Fetch(dense)] && events[..0] == [];
    } else {
      FilteredIsReplay(dense, filters[..|filters| - 1], lexical);
      assert events[..|filters|] == Events(dense, filters[..|filters| - 1], lexical);
    }
  }

  lemma FilteredNext(dense: seq<Row>, filters: seq<string>, lexical: nat -> seq<Row>, i: nat)
    requires i < |filters|
    ensures Filtered(dense, filters[..i + 1], lexical) ==
            After(Filtered(dense, filters[..i], lexical), EventOf(filters[i], lexical(i)))
    ensures LexicalIds(filters[..i + 1], lexical) ==
            LexicalIds(filters[..i], lexical) + if IsNot(filters[i]) then [] else Kunnrs(lexical(i))
  {
    assert filters[..i + 1][..i] == filters[..i];
  }

  method SelectChunks(fused: seq<(string, real)>, retrieved: Retrieved) returns (ordered: seq<Chunk>)
    requires Distinct(Ids(fused))
    ensures ordered == Select(Top(fused), retrieved)
  {
    ordered := [];
    var left := retrieved;
    var top := Top(fused);
    for i := 0 to |top|
      invariant left == map id | id in retrieved && id !in top[..i] :: retrieved[id]
      invariant ordered == Select(top[..i], retrieved)
    {
      assert top[..i + 1][..i] == top[..i];
      assert top[i] !in top[..i];
      if top[i] in left {
        ordered := ordered + [Chunk(top[i], left[top[i]])];
        left := left - {top[i]};
      }
    }
    assert top[..|top|] == top;
  }

  // Every positive filter's query can be read to the end.
  ghost predicate AllReadable(filters: seq<string>, lexical: nat -> Stream) {
    filters == [] ||
    var n := |filters| - 1;
    AllReadable(filters[..n], lexical) && (IsNot(filters[n]) || Readable(lexical(n)))
  }

  lemma {:induction false} FailureStays(filters: seq<string>, lexical: nat -> Stream, i: nat)
    requires i <= |filters| && !AllReadable(filters[..i], lexical)
    ensures !AllReadable(filters, lexical)
  {
    if i < |filters| {
      assert filters[..|filters| - 1][..i] == filters[..i];
      FailureStays(filters[..|filters| - 1], lexical, i);
    } else {
      assert filters[..i] == filters;
    }
  }

  // Applies one filter: its new lexical ids, and the map after it.
  method ApplyFilter(filter: string, stream: Stream, before: Retrieved)
    returns (r: Result<seq<string>, SearchError>, retrieved: Retrieved)
    ensures r.Ok? <==> IsNot(filter) || Readable(stream)
    ensures r.Ok? ==>
              && r.value == (if IsNot(filter) then [] else Kunnrs(RowsIn(stream)))
              && retrieved == After(before, EventOf(filter, RowsIn(stream)))
  {
    if IsNot(filter) {
      return Ok([]), Drop(before, Term(filter));
    }
    r, retrieved := ExtractChunks(stream, before);
  }

  // Applies the filters in order to the chunks of the dense pass.
  method ApplyFilters(
    filters: seq<string>, lexical: nat -> Stream, start: Retrieved, ghost dense: seq<Row>, ghost rows: nat -> seq<Row>)
    returns (r: Result<seq<string>, SearchError>, retrieved: Retrieved)
    requires start == InsertRows(map[], dense) && forall i: nat :: rows(i) == RowsIn(lexical(i))
    ensures r.Ok? <==> AllReadable(filters, lexical)
    ensures r.Ok? ==> r.value == LexicalIds(filters, rows) && retrieved == Filtered(dense, filters, rows)
  {
    var lexicalIds: seq<string> := [];
    retrieved := start;
    for i := 0 to |filters|
      invariant AllReadable(filters[..i], lexical)
      invariant lexicalIds == LexicalIds(filters[..i], rows)
      invariant retrieved == Filtered(dense, filters[..i], rows)
    {
      FilteredNext(dense, filters, rows, i);
      assert filters[..i + 1][..i] == filters[..i];
      var ids;
      ids, retrieved := ApplyFilter(filters[i], lexical(i), retrieved);
      if ids.Err? {
        FailureStays(filters, lexical, i + 1);
        return ids, retrieved;
      }
      lexicalIds := lexicalIds + ids.value;
    }
    assert filters[..|filters|] == filters;
    return Ok(lexicalIds), retrieved;
  }

  method ExecuteHybridSearch(tableOpens: bool, dense: Stream, filters: seq<string>, lexical: nat -> Stream)
    returns (r: Result<seq<Chunk>, SearchError>)
    ensures r.Ok? <==> tableOpens && Readable(dense) && AllReadable(filters, lexical)
    ensures r.Ok? ==> IsResult(r.value, RowsIn(dense), filters, (i: nat) => RowsIn(lexical(i)))
  {
    if !tableOpens {
      return Err(TableMissing);
    }
    var denseIds, retrieved := ExtractChunks(dense, map[]);
    if denseIds.Err? {
      return Err(denseIds.error);
    }
    var lexicalIds;
    lexicalIds, retrieved := ApplyFilters(
      filters, lexical, retrieved, RowsIn(dense), (i: nat) => RowsIn(lexical(i)));
    if lexicalIds.Err? {
      return Err(lexicalIds.error);
    }
    var fused := FuseRankedCandidates(denseIds.value, lexicalIds.value, FUSION_K);
    FusionConserves(fused, denseIds.value, lexicalIds.value, FUSION_K);
    FilteredIsReplay(RowsIn(dense), filters, (i: nat) => RowsIn(lexical(i)));
    var ordered := SelectChunks(fused, retrieved);
    return Ok(ordered);
  }

  // ---------- The result ----------

  // The first 20 ids of the fusion with constant 60 that survive, in its order, each with the chunk fetched last.
  lemma ResultExactly(res: seq<Chunk>, dense: seq<Row>, filters: seq<string>, lexical: nat -> seq<Row>)
    returns (fused: seq<(string, real)>, places: seq<nat>)
    requires IsResult(res, dense, filters, lexical)
    ensures IsFusion(fused, Kunnrs(dense), LexicalIds(filters, lexical), 60.0)
    ensures forall i, j :: 0 <= i < j < |fused| ==> Above(fused[i], fused[j])
    ensures |places| == |res| && DistinctIds(res)
    ensures forall a :: 0 <= a < |places| ==> places[a] < 20 && places[a] < |fused|
    ensures forall a, b :: 0 <= a < b < |places| ==> places[a] < places[b]
    ensures var events := Events(dense, filters, lexical);
            && (forall p :: p in places <==> 0 <= p < |fused| && p < 20 && Survives(events, fused[p].0))
            && (forall a :: 0 <= a < |res| ==> res[a].id == fused[places[a]].0)
            && (forall a, j: nat :: 0 <= a < |res| && SurvivesFrom(events, res[a].id, j) ==>
                  ChunkIn(events[j].rows, res[a].id) == Some(res[a].text))
  {
    var events := Events(dense, filters, lexical);
    var ids := LexicalIds(filters, lexical);
    fused :| IsFusion(fused, Kunnrs(dense), ids, FUSION_K) && res == Select(Top(fused), Replay(events));
    places := Places(Top(fused), Replay(events));
    FusionMeaning(fused, Kunnrs(dense), ids, FUSION_K);
    TopDistinct(fused, Kunnrs(dense), ids);
    SelectionExactly(Top(fused), events);
    hide IsFusion, Select, Places, Replay, Survives, SurvivesFrom, ChunkIn, Events, Above, LexicalIds;
    assert |Top(fused)| == if |fused| <= 20 then |fused| else 20;
  }

  // ---------- Matching both passes ----------

  lemma SelectedOrder(
    fused: seq<(string, real)>, d: seq<string>, x: seq<string>, m: Retrieved, i: nat, j: nat)
    requires IsFusion(fused, d, x, FUSION_K)
    requires |d| <= TOP && |x| <= TOP && Distinct(d) && Distinct(x)
    requires var res := Select(Top(fused), m);
             && i < |res| && res[i].id in d && res[i].id in x
             && j < |res| && !(res[j].id in d && res[j].id in x)
    ensures i < j
  {
    TopDistinct(fused, d, x);
    var places := Places(Top(fused), m);
    SelectSize(Top(fused), m);
    SelectAt(Top(fused), m, i);
    SelectAt(Top(fused), m, j);
    BothBeatsOne(fused, d, x, FUSION_K, places[i], places[j]);
  }

  // With both passes within the query limit and without repeats (one positive filter over a keyed
  // table), every returned chunk that matched both passes comes before every other.
  lemma DualMatchFirst(
    filters: seq<string>, dense: seq<Row>, lexical: nat -> seq<Row>, res: seq<Chunk>, i: nat, j: nat)
    requires IsResult(res, dense, filters, lexical)
    requires |dense| <= TOP && |LexicalIds(filters, lexical)| <= TOP
    requires Distinct(Kunnrs(dense)) && Distinct(LexicalIds(filters, lexical))
    requires i < |res| && res[i].id in Kunnrs(dense) && res[i].id in LexicalIds(filters, lexical)
    requires j < |res| && !(res[j].id in Kunnrs(dense) && res[j].id in LexicalIds(filters, lexical))
    ensures i < j
  {
    var fused :| IsFusion(fused, Kunnrs(dense), LexicalIds(filters, lexical), FUSION_K)
      && res == Select(Top(fused), Replay(Events(dense, filters, lexical)));
    SelectedOrder(fused, Kunnrs(dense), LexicalIds(filters, lexical), Replay(Events(dense, filters, lexical)), i, j);
  }
}
