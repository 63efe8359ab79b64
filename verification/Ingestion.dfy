/**
 Incremental ingestion of a customer CSV file: batching, the best-effort lookup of keys that
 are already stored, deduplication inside a batch, and the merge-insert keyed on `kunnr`.

 Everything the outside world decides (rows that fail to parse, lost lookup answers, failing
 embeddings and writes) is a parameter.
 */
module Ingestion {
  import opened Outcomes

  datatype Kna1Row = Kna1Row(
    kunnr: Option<string>, name1: Option<string>, ort01: Option<string>, land1: Option<string>)

  // A stored row, without its vector column.
  datatype Customer = Customer(kunnr: string, name: string, city: string, sentence: string)

  // `None`: the table does not exist.
  type Table = Option<seq<Customer>>

  datatype IngestError =
    | MalformedRow | BatchTooLarge | EmbeddingFailed | ColumnLengths | TableExists | WriteFailed
    | BatchSizeOutOfRange | ConnectionFailed | FileMissing | IndexFailed

  // What the CSV reader yields; `None` is a row that does not parse.
  type CsvItem = Option<Kna1Row>

  // One record batch of the lookup's answer.
  datatype StreamItem = Failed | NoKeyColumn | WrongType | KeyColumn(keys: seq<string>)

  datatype BatchIo = BatchIo(
    lookupOpens: bool, queryRuns: bool, stream: seq<StreamItem>,
    modelRuns: bool, writeOpens: bool, writeSucceeds: bool)
  {
    // The lookup is not mentioned: it may fail in any way.
    predicate Healthy() {
      modelRuns && writeOpens && writeSucceeds
    }
  }

  // The database connection, holding the `customers` table.
  class Connection {
    var customers: Table

    constructor (t: Table)
      ensures customers == t
    {
      customers := t;
    }
  }

  function OrUnknown(field: Option<string>): string {
    match field
    case Some(s) => s
    case None => "Unknown"
  }

  function KeyOf(row: Kna1Row): string {
    OrUnknown(row.kunnr)
  }

  function Sentence(kunnr: string, name: string, city: string, country: string): string {
    "Customer " + kunnr + " is named " + name + " and is located in " + city + ", " + country + "."
  }

  function CustomerOf(row: Kna1Row): Customer {
    var name, city := OrUnknown(row.name1), OrUnknown(row.ort01);
    Customer(KeyOf(row), name, city, Sentence(KeyOf(row), name, city, OrUnknown(row.land1)))
  }

  function Keys(t: seq<Customer>): set<string> {
    set c | c in t :: c.kunnr
  }

  function KeysOf(rows: seq<Kna1Row>): set<string> {
    set row | row in rows :: KeyOf(row)
  }

  function Contents(t: Table): seq<Customer> {
    if t.Some? then t.value else []
  }

  // ---------- The specification: insert if absent, one row at a time ----------

  function InsertIfAbsent(t: seq<Customer>, c: Customer): seq<Customer> {
    if c.kunnr in Keys(t) then t else t + [c]
  }

  function InsertAll(t: seq<Customer>, rows: seq<Kna1Row>): seq<Customer> {
    if rows == [] then t
    else InsertIfAbsent(InsertAll(t, rows[..|rows| - 1]), CustomerOf(rows[|rows| - 1]))
  }

  // The table is created by the first row.
  function InsertTable(t: Table, rows: seq<Kna1Row>): Table {
    if t.None? && rows == [] then None else Some(InsertAll(Contents(t), rows))
  }

  lemma {:induction false} InsertAllKeys(t: seq<Customer>, rows: seq<Kna1Row>)
    ensures Keys(InsertAll(t, rows)) == Keys(t) + KeysOf(rows)
  {
    if rows != [] {
      var init, last := rows[..|rows| - 1], rows[|rows| - 1];
      assert rows == init + [last];
      InsertAllKeys(t, init);
      assert KeysOf(rows) == KeysOf(init) + {KeyOf(last)};
      var u := InsertAll(t, init);
      assert Keys(u + [CustomerOf(last)]) == Keys(u) + {KeyOf(last)};
    }
  }

  lemma {:induction false} InsertAllConcat(t: seq<Customer>, a: seq<Kna1Row>, b: seq<Kna1Row>)
    ensures InsertAll(t, a + b) == InsertAll(InsertAll(t, a), b)
  {
    if b == [] {
      assert a + b == a;
    } else {
      assert (a + b)[..|a + b| - 1] == a + b[..|b| - 1];
      InsertAllConcat(t, a, b[..|b| - 1]);
    }
  }

  lemma InsertTableConcat(t: Table, a: seq<Kna1Row>, b: seq<Kna1Row>)
    ensures InsertTable(t, a + b) == InsertTable(InsertTable(t, a), b)
  {
    InsertAllConcat(Contents(t), a, b);
    if a == [] || b == [] {
      assert a == [] ==> a + b == b;
      assert b == [] ==> a + b == a;
    }
  }

  // ---------- What the specification means ----------

  ghost predicate DistinctKeys(t: seq<Customer>) {
    forall i, j :: 0 <= i < j < |t| ==> t[i].kunnr != t[j].kunnr
  }

  // Row `j` is the first with its key, and the table does not have the key yet.
  ghost predicate Fresh(t: seq<Customer>, rows: seq<Kna1Row>, j: int)
    requires 0 <= j < |rows|
  {
    && KeyOf(rows[j]) !in Keys(t)
    && forall i :: 0 <= i < j ==> KeyOf(rows[i]) != KeyOf(rows[j])
  }

  // The fresh rows, in ascending order.
  function FreshIndices(t: seq<Customer>, rows: seq<Kna1Row>): (picks: seq<nat>)
    ensures forall a :: 0 <= a < |picks| ==> picks[a] < |rows|
    ensures forall a, b :: 0 <= a < b < |picks| ==> picks[a] < picks[b]
  {
    if rows == [] then []
    else
      var n := |rows| - 1;
      var before := FreshIndices(t, rows[..n]);
      if KeyOf(rows[n]) in Keys(t) + KeysOf(rows[..n]) then before else before + [n]
  }

  function Picked(rows: seq<Kna1Row>, picks: seq<nat>): seq<Customer>
    requires forall a :: 0 <= a < |picks| ==> picks[a] < |rows|
  {
    seq(|picks|, a requires 0 <= a < |picks| => CustomerOf(rows[picks[a]]))
  }

  lemma {:induction false} FreshIndicesAreFresh(t: seq<Customer>, rows: seq<Kna1Row>)
    ensures forall j :: 0 <= j < |rows| ==> (j in FreshIndices(t, rows) <==> Fresh(t, rows, j))
  {
    if rows != [] {
      var n := |rows| - 1;
      var init := rows[..n];
      FreshIndicesAreFresh(t, init);
      forall j | 0 <= j < |rows| ensures j in FreshIndices(t, rows) <==> Fresh(t, rows, j) {
        if j < n {
          assert Fresh(t, rows, j) <==> Fresh(t, init, j);
        } else {
          assert KeyOf(rows[n]) in KeysOf(init) <==> exists i :: 0 <= i < n && KeyOf(init[i]) == KeyOf(rows[n]);
        }
      }
    }
  }

  // First occurrence wins, and the new rows follow the old ones in first-occurrence order.
  lemma {:induction false} InsertAllMeaning(t: seq<Customer>, rows: seq<Kna1Row>)
    ensures InsertAll(t, rows) == t + Picked(rows, FreshIndices(t, rows))
    ensures forall j :: 0 <= j < |rows| ==> (j in FreshIndices(t, rows) <==> Fresh(t, rows, j))
  {
    FreshIndicesAreFresh(t, rows);
    if rows != [] {
      var n := |rows| - 1;
      var init := rows[..n];
      InsertAllMeaning(t, init);
      InsertAllKeys(t, init);
      var before := FreshIndices(t, init);
      assert Picked(rows, before) == Picked(init, before);
      assert Picked(rows, before + [n]) == Picked(rows, before) + [CustomerOf(rows[n])];
    }
  }

  // The columns of a stored row and its sentence, field by field; a missing field is "Unknown".
  ghost predicate Describes(c: Customer, row: Kna1Row) {
    && HasKey(row, c.kunnr)
    && c.name == (if row.name1.Some? then row.name1.value else "Unknown")
    && c.city == (if row.ort01.Some? then row.ort01.value else "Unknown")
    && var country := if row.land1.Some? then row.land1.value else "Unknown";
       c.sentence ==
       "Customer " + c.kunnr + " is named " + c.name + " and is located in " + c.city + ", " + country + "."
  }

  lemma CustomerDescribes(row: Kna1Row)
    ensures Describes(CustomerOf(row), row)
  {
  }

  // Row `j` of the file is the first with its key, and `c` is what is stored of it.
  ghost predicate StoredFrom(c: Customer, rows: seq<Kna1Row>, j: int) {
    && 0 <= j < |rows| && Describes(c, rows[j])
    && forall i :: 0 <= i < j ==> !HasKey(rows[i], c.kunnr)
  }

  predicate HasKey(row: Kna1Row, key: string) {
    key == if row.kunnr.Some? then row.kunnr.value else "Unknown"
  }

  ghost predicate StoredFromFirst(c: Customer, rows: seq<Kna1Row>) {
    exists j :: StoredFrom(c, rows, j)
  }

  // The old rows stay, and each new one describes the first row of the file with its key.
  lemma InsertAllDescribes(t: seq<Customer>, rows: seq<Kna1Row>)
    ensures |t| <= |InsertAll(t, rows)| && InsertAll(t, rows)[..|t|] == t
    ensures forall n :: |t| <= n < |InsertAll(t, rows)| ==> StoredFromFirst(InsertAll(t, rows)[n], rows)
  {
    var picks := FreshIndices(t, rows);
    InsertAllMeaning(t, rows);
    forall n | |t| <= n < |InsertAll(t, rows)| ensures StoredFromFirst(InsertAll(t, rows)[n], rows) {
      var j := picks[n - |t|];
      assert InsertAll(t, rows)[n] == CustomerOf(rows[j]);
      CustomerDescribes(rows[j]);
      assert j in picks && Fresh(t, rows, j);
      assert StoredFrom(InsertAll(t, rows)[n], rows, j);
    }
  }

  lemma {:induction false} InsertAllKeepsDistinctKeys(t: seq<Customer>, rows: seq<Kna1Row>)
    requires DistinctKeys(t)
    ensures DistinctKeys(InsertAll(t, rows))
  {
    if rows != [] {
      InsertAllKeepsDistinctKeys(t, rows[..|rows| - 1]);
    }
  }

  // ---------- Lookup ----------

  // A query can only answer with stored keys. Which of them is left open: the ids are pasted into the
  // filter text between quotes without escaping, so the filter need not mean membership among the ids.
  function Answer(t: Table, keys: seq<string>): seq<string> {
    if keys == [] then []
    else
      var rest := Answer(t, keys[..|keys| - 1]);
      var last := keys[|keys| - 1];
      if last in Keys(Contents(t)) then rest + [last] else rest
  }

  function KeysIn(stream: seq<StreamItem>): set<string> {
    set item, k | item in stream && item.KeyColumn? && k in item.keys :: k
  }

  // Only stored keys, and all those that reached the program.
  function Existing(t: Table, ids: seq<string>, io: BatchIo): set<string> {
    if ids == [] || !io.lookupOpens || !io.queryRuns then {}
    else set k | k in KeysIn(io.stream) && k in Keys(Contents(t))
  }

  lemma {:induction false} AnswerKeys(t: Table, keys: seq<string>)
    ensures forall k :: k in Answer(t, keys) <==> k in keys && k in Keys(Contents(t))
  {
    if keys != [] {
      AnswerKeys(t, keys[..|keys| - 1]);
      assert keys == keys[..|keys| - 1] + [keys[|keys| - 1]];
    }
  }

  /** Looks up which of the ids are already stored. Every failure only shrinks the answer. */
  method FindExistingInDb(db: Connection, ids: seq<string>, io: BatchIo) returns (existing: set<string>)
    ensures existing == Existing(db.customers, ids, io)
  {
    existing := {};
    if ids == [] {
      return;
    }
    if io.lookupOpens && db.customers.Some? && io.queryRuns {
      ghost var stored := Keys(Contents(db.customers));
      for n := 0 to |io.stream|
        invariant existing == set k | k in KeysIn(io.stream[..n]) && k in stored
      {
        assert io.stream[..n + 1] == io.stream[..n] + [io.stream[n]];
        if io.stream[n].KeyColumn? {
          var column := Answer(db.customers, io.stream[n].keys);
          AnswerKeys(db.customers, io.stream[n].keys);
          ghost var before := existing;
          for i := 0 to |column|
            invariant existing == before + set k | k in column[..i]
          {
            assert column[..i + 1] == column[..i] + [column[i]];
            existing := existing + {column[i]};
          }
          assert column[..|column|] == column;
          assert KeysIn(io.stream[..n + 1]) == KeysIn(io.stream[..n]) + set k | k in io.stream[n].keys;
        } else {
          assert KeysIn(io.stream[..n + 1]) == KeysIn(io.stream[..n]);
        }
      }
      assert io.stream[..|io.stream|] == io.stream;
    }
  }

  // ---------- One batch ----------

  // The rows of a batch that are sent for embedding.
  function Pending(existing: set<string>, rows: seq<Kna1Row>): seq<Customer> {
    if rows == [] then []
    else
      var init, last := rows[..|rows| - 1], rows[|rows| - 1];
      if KeyOf(last) in KeysOf(init) || KeyOf(last) in existing then Pending(existing, init)
      else Pending(existing, init) + [CustomerOf(last)]
  }

  lemma {:induction false} PendingDescribes(existing: set<string>, rows: seq<Kna1Row>)
    ensures forall n :: 0 <= n < |Pending(existing, rows)| ==> StoredFromFirst(Pending(existing, rows)[n], rows)
  {
    if rows != [] {
      var init, last := rows[..|rows| - 1], rows[|rows| - 1];
      PendingDescribes(existing, init);
      hide StoredFromFirst, CustomerOf;
      forall n | 0 <= n < |Pending(existing, rows)| ensures StoredFromFirst(Pending(existing, rows)[n], rows) {
        if n < |Pending(existing, init)| {
          EarlierStored(Pending(existing, init)[n], init, last);
          assert rows == init + [last];
        } else {
          LastStored(rows);
        }
      }
    }
  }

  lemma EarlierStored(c: Customer, init: seq<Kna1Row>, last: Kna1Row)
    requires StoredFromFirst(c, init)
    ensures StoredFromFirst(c, init + [last])
  {
    var j :| StoredFrom(c, init, j);
    assert StoredFrom(c, init + [last], j);
  }

  lemma LastStored(rows: seq<Kna1Row>)
    requires rows != [] && KeyOf(rows[|rows| - 1]) !in KeysOf(rows[..|rows| - 1])
    ensures StoredFromFirst(CustomerOf(rows[|rows| - 1]), rows)
  {
    var init, last := rows[..|rows| - 1], rows[|rows| - 1];
    CustomerDescribes(last);
    forall i | 0 <= i < |init| ensures !HasKey(rows[i], CustomerOf(last).kunnr) {
      assert init[i] in init && KeyOf(init[i]) in KeysOf(init);
    }
    assert StoredFrom(CustomerOf(last), rows, |init|);
  }

  function Absent(t: seq<Customer>, source: seq<Customer>): seq<Customer> {
    if source == [] then []
    else
      var rest, last := Absent(t, source[..|source| - 1]), source[|source| - 1];
      if last.kunnr in Keys(t) then rest else rest + [last]
  }

  // Merge-insert with "when not matched insert all": matching is against the target only.
  function MergeInsert(t: seq<Customer>, source: seq<Customer>): seq<Customer> {
    t + Absent(t, source)
  }

  // The heart of the refinement: any sound lookup answer gives the same table.
  lemma {:induction false} MergePendingIsInsertAll(t: seq<Customer>, existing: set<string>, rows: seq<Kna1Row>)
    requires existing <= Keys(t)
    ensures MergeInsert(t, Pending(existing, rows)) == InsertAll(t, rows)
  {
    if rows != [] {
      var init, last := rows[..|rows| - 1], rows[|rows| - 1];
      MergePendingIsInsertAll(t, existing, init);
      InsertAllKeys(t, init);
      var p := Pending(existing, init);
      assert (p + [CustomerOf(last)])[..|p|] == p;
      if KeyOf(last) !in KeysOf(init) && KeyOf(last) !in Keys(t) {
        assert t + (Absent(t, p) + [CustomerOf(last)]) == t + Absent(t, p) + [CustomerOf(last)];
      }
    }
  }

  lemma {:induction false} AbsentSize(t: seq<Customer>, source: seq<Customer>)
    ensures |Absent(t, source)| <= |source|
    ensures |Absent(t, source)| == |source| <==> forall c :: c in source ==> c.kunnr !in Keys(t)
    ensures t == [] ==> Absent(t, source) == source
  {
    if source != [] {
      AbsentSize(t, source[..|source| - 1]);
      assert source == source[..|source| - 1] + [source[|source| - 1]];
    }
  }

  lemma {:induction false} PendingSource(existing: set<string>, rows: seq<Kna1Row>)
    ensures |Pending(existing, rows)| <= |rows|
    ensures Keys(Pending(existing, rows)) == KeysOf(rows) - existing
  {
    if rows != [] {
      var init, last := rows[..|rows| - 1], rows[|rows| - 1];
      PendingSource(existing, init);
      assert rows == init + [last];
      assert KeysOf(rows) == KeysOf(init) + {KeyOf(last)};
      var p := Pending(existing, init);
      assert Keys(p + [CustomerOf(last)]) == Keys(p) + {KeyOf(last)};
    }
  }

  // If nothing is known, a batch with rows leaves something to insert.
  lemma PendingSome(rows: seq<Kna1Row>)
    requires rows != []
    ensures Pending({}, rows) != []
  {
    PendingSource({}, rows);
    assert KeyOf(rows[0]) in KeysOf(rows);
    assert Keys([]) == {};
  }

  // How the number of embedded rows relates to the growth of the table.
  lemma PendingCountsGrowth(t: seq<Customer>, existing: set<string>, rows: seq<Kna1Row>)
    requires existing <= Keys(t)
    ensures |Pending(existing, rows)| >= |InsertAll(t, rows)| - |t|
    ensures |Pending(existing, rows)| == |InsertAll(t, rows)| - |t| <==> KeysOf(rows) * Keys(t) <= existing
  {
    var pending := Pending(existing, rows);
    MergePendingIsInsertAll(t, existing, rows);
    PendingSource(existing, rows);
    AbsentSize(t, pending);
    assert (forall c :: c in pending ==> c.kunnr !in Keys(t)) <==> Keys(pending) !! Keys(t);
  }

  // A count covers the growth of the table, and is exact precisely when `exact`.
  ghost predicate Counted(before: Table, now: Table, total: nat, exact: bool) {
    && total >= |Contents(now)| - |Contents(before)|
    && (total == |Contents(now)| - |Contents(before)| <==> exact)
  }

  // What the embedding engine does with a batch of sentences, vectors aside.
  function Embed(sentences: seq<string>, maxBatch: nat, io: BatchIo): Option<IngestError> {
    if |sentences| > maxBatch then Some(BatchTooLarge)
    else if sentences != [] && !io.modelRuns then Some(EmbeddingFailed)
    else None
  }

  // The parallel columns, row by row.
  function Rows(records: seq<(string, string, string)>, documents: seq<string>): seq<Customer>
    requires |records| == |documents|
  {
    seq(|records|, i requires 0 <= i < |records| =>
      Customer(records[i].2, records[i].0, records[i].1, documents[i]))
  }

  // The write goes through: the table opens, or is missing and so created.
  predicate Writable(t: Table, io: BatchIo) {
    io.writeSucceeds && (io.writeOpens || t.None?)
  }

  method InsertBatch(db: Connection, records: seq<(string, string, string)>, documents: seq<string>, io: BatchIo)
    returns (r: Result<(), IngestError>)
    modifies db
    ensures r.Ok? ==>
              && |records| == |documents|
              && db.customers == Some(MergeInsert(Contents(old(db.customers)), Rows(records, documents)))
    ensures r.Err? ==> db.customers == old(db.customers)
    ensures r.Ok? <==> |records| == |documents| && Writable(old(db.customers), io)
    ensures r != Err(BatchTooLarge)
  {
    if |records| != |documents| {
      return Err(ColumnLengths);
    }
    var rows := Rows(records, documents);
    if io.writeOpens && db.customers.Some? {
      if !io.writeSucceeds {
        return Err(WriteFailed);
      }
      db.customers := Some(MergeInsert(db.customers.value, rows));
    } else {
      if db.customers.Some? {
        return Err(TableExists);
      }
      if !io.writeSucceeds {
        return Err(WriteFailed);
      }
      AbsentSize([], rows);
      assert [] + rows == rows;
      db.customers := Some(rows);
    }
    return Ok(());
  }

  // The ids the lookup asks for: rows without a kunnr are not among them.
  function LookupIds(rows: seq<Kna1Row>): seq<string> {
    if rows == [] then []
    else
      var rest := LookupIds(rows[..|rows| - 1]);
      if rows[|rows| - 1].kunnr.Some? then rest + [rows[|rows| - 1].kunnr.value] else rest
  }

  lemma {:induction false} LookupIdsOfComplete(rows: seq<Kna1Row>)
    requires forall row :: row in rows ==> row.kunnr.Some?
    ensures forall k :: k in LookupIds(rows) <==> k in KeysOf(rows)
  {
    if rows != [] {
      var init, last := rows[..|rows| - 1], rows[|rows| - 1];
      assert rows == init + [last];
      LookupIdsOfComplete(init);
      assert KeysOf(rows) == KeysOf(init) + {KeyOf(last)};
    }
  }

  // Every row has a kunnr, and the lookup loses nothing of what it was asked for.
  ghost predicate ExactLookup(io: BatchIo, rows: seq<Kna1Row>) {
    && (forall row :: row in rows ==> row.kunnr.Some?)
    && io.lookupOpens && io.queryRuns
    && (forall k :: k in LookupIds(rows) ==> k in KeysIn(io.stream))
  }

  // The lookup returns every stored key of the batch.
  ghost predicate Covered(t: Table, rows: seq<Kna1Row>, io: BatchIo) {
    KeysOf(rows) * Keys(Contents(t)) <= Existing(t, LookupIds(rows), io)
  }

  lemma ExactLookupCovers(t: Table, rows: seq<Kna1Row>, io: BatchIo)
    requires ExactLookup(io, rows)
    ensures Covered(t, rows, io)
  {
    LookupIdsOfComplete(rows);
  }

  method CollectLookupIds(batch: seq<Kna1Row>) returns (ids: seq<string>)
    ensures ids == LookupIds(batch)
  {
    ids := [];
    for i := 0 to |batch|
      invariant ids == LookupIds(batch[..i])
    {
      assert batch[..i + 1][..i] == batch[..i];
      if batch[i].kunnr.Some? {
        ids := ids + [batch[i].kunnr.value];
      }
    }
    assert batch[..|batch|] == batch;
  }

  // Fills the parallel columns with the rows that are neither stored nor repeated in the batch.
  method CollectPending(batch: seq<Kna1Row>, existing: set<string>)
    returns (records: seq<(string, string, string)>, documents: seq<string>)
    ensures |records| == |documents|
    ensures Rows(records, documents) == Pending(existing, batch)
    ensures forall n :: 0 <= n < |records| ==>
              StoredFromFirst(Customer(records[n].2, records[n].0, records[n].1, documents[n]), batch)
  {
    records, documents := [], [];
    var localSeen := {};
    for i := 0 to |batch|
      invariant |records| == |documents|
      invariant localSeen == KeysOf(batch[..i])
      invariant Rows(records, documents) == Pending(existing, batch[..i])
    {
      assert batch[..i + 1] == batch[..i] + [batch[i]];
      assert KeysOf(batch[..i + 1]) == KeysOf(batch[..i]) + {KeyOf(batch[i])};
      var row := batch[i];
      var kunnr := OrUnknown(row.kunnr);
      var seen := kunnr in localSeen;
      localSeen := localSeen + {kunnr};
      if seen || kunnr in existing {
        continue;
      }
      var name, city, country := OrUnknown(row.name1), OrUnknown(row.ort01), OrUnknown(row.land1);
      ghost var before := Rows(records, documents);
      documents := documents + [Sentence(kunnr, name, city, country)];
      records := records + [(name, city, kunnr)];
      assert Rows(records, documents) == before + [CustomerOf(row)];
    }
    assert batch[..|batch|] == batch;
    PendingDescribes(existing, batch);
    forall n | 0 <= n < |records|
      ensures StoredFromFirst(Customer(records[n].2, records[n].0, records[n].1, documents[n]), batch)
    {
      assert Rows(records, documents)[n] == Customer(records[n].2, records[n].0, records[n].1, documents[n]);
    }
  }

  method ProcessCurrentBatch(db: Connection, batch: seq<Kna1Row>, maxBatch: nat, io: BatchIo)
    returns (r: Result<nat, IngestError>)
    modifies db
    ensures r.Ok? ==> db.customers == InsertTable(old(db.customers), batch)
    ensures r.Err? ==> db.customers == old(db.customers)
    ensures |batch| <= maxBatch ==> r != Err(BatchTooLarge)
    ensures |batch| <= maxBatch && io.Healthy() ==> r.Ok?
    ensures var pending := Pending(Existing(old(db.customers), LookupIds(batch), io), batch);
            && (r.Ok? <==> pending == [] || (|pending| <= maxBatch && io.modelRuns && Writable(old(db.customers), io)))
            && (r == Err(BatchTooLarge) <==> |pending| > maxBatch)
            && (r.Ok? ==> r.value == |pending|)
    ensures r.Ok? ==> r.value <= |batch|
    ensures r.Ok? ==> Counted(old(db.customers), db.customers, r.value, Covered(old(db.customers), batch, io))
  {
    var ids := CollectLookupIds(batch);
    var existing := FindExistingInDb(db, ids, io);
    var records, documents := CollectPending(batch, existing);

    ghost var t := Contents(db.customers);
    MergePendingIsInsertAll(t, existing, batch);
    PendingSource(existing, batch);
    if existing == {} && batch != [] {
      PendingSome(batch);
    }
    PendingCountsGrowth(t, existing, batch);
    assert |Rows(records, documents)| == |documents|;
    if documents == [] {
      assert InsertAll(t, batch) == t + Absent(t, []) == t;
      return Ok(0);
    }
    var embedding := Embed(documents, maxBatch, io);
    if embedding.Some? {
      return Err(embedding.value);
    }
    var inserted := InsertBatch(db, records, documents, io);
    if inserted.Err? {
      return Err(inserted.error);
    }
    return Ok(|documents|);
  }

  // ---------- A whole file ----------

  // The rows before the first one that does not parse.
  function ParsedRows(reader: seq<CsvItem>): seq<Kna1Row> {
    if reader == [] || reader[0].None? then [] else [reader[0].value] + ParsedRows(reader[1..])
  }

  ghost predicate AllParsed(reader: seq<CsvItem>) {
    forall i :: 0 <= i < |reader| ==> reader[i].Some?
  }

  lemma {:induction false} ParsedRowsAt(reader: seq<CsvItem>)
    ensures |ParsedRows(reader)| <= |reader|
    ensures forall i :: 0 <= i < |ParsedRows(reader)| ==> reader[i] == Some(ParsedRows(reader)[i])
    ensures |ParsedRows(reader)| < |reader| ==> reader[|ParsedRows(reader)|].None?
    ensures AllParsed(reader) <==> |ParsedRows(reader)| == |reader|
  {
    if reader != [] && reader[0].Some? {
      ParsedRowsAt(reader[1..]);
      assert AllParsed(reader) <==> AllParsed(reader[1..]);
    }
  }

  lemma ParsedAt(reader: seq<CsvItem>, i: nat)
    requires i < |reader| && i <= |ParsedRows(reader)|
    ensures if reader[i].Some? then i < |ParsedRows(reader)| && ParsedRows(reader)[i] == reader[i].value
            else i == |ParsedRows(reader)| && !AllParsed(reader)
  {
    ParsedRowsAt(reader);
  }

  lemma ParsedAll(reader: seq<CsvItem>)
    ensures |ParsedRows(reader)| <= |reader|
    ensures AllParsed(reader) <==> |ParsedRows(reader)| == |reader|
  {
    ParsedRowsAt(reader);
  }

  // A batch size of 0 behaves like 1: the length test follows the push.
  function Step(batchSize: nat): nat {
    if batchSize == 0 then 1 else batchSize
  }

  // The number of rows in the first `j` full batches.
  function Offset(j: nat, step: nat): nat {
    if j == 0 then 0 else Offset(j - 1, step) + step
  }

  function Window(rows: seq<Kna1Row>, step: nat, j: nat): seq<Kna1Row> {
    var lo, hi := Offset(j, step), Offset(j + 1, step);
    if |rows| <= lo then [] else if |rows| <= hi then rows[lo..] else rows[lo..hi]
  }

  // The table after the first `k` batches.
  ghost predicate AfterBatches(before: Table, after: Table, rows: seq<Kna1Row>, step: nat, k: nat) {
    Offset(k, step) <= |rows| && after == InsertTable(before, rows[..Offset(k, step)])
  }

  // The lookup of batch `j` covers the keys that are stored by then.
  ghost predicate BatchCovered(before: Table, rows: seq<Kna1Row>, step: nat, io: nat -> BatchIo, j: nat) {
    Offset(j, step) <= |rows| ==>
      Covered(InsertTable(before, rows[..Offset(j, step)]), Window(rows, step, j), io(j))
  }

  ghost predicate BatchesCovered(before: Table, rows: seq<Kna1Row>, step: nat, io: nat -> BatchIo, k: nat) {
    forall j: nat :: j < k ==> BatchCovered(before, rows, step, io, j)
  }

  ghost predicate AllCovered(before: Table, rows: seq<Kna1Row>, step: nat, io: nat -> BatchIo) {
    forall j: nat :: BatchCovered(before, rows, step, io, j)
  }

  // Batches after the last row ask for nothing.
  lemma LastCovered(before: Table, rows: seq<Kna1Row>, step: nat, io: nat -> BatchIo, k: nat)
    requires |rows| <= Offset(k, step)
    ensures AllCovered(before, rows, step, io) <==> BatchesCovered(before, rows, step, io, k)
  {
    forall j: nat | j >= k ensures BatchCovered(before, rows, step, io, j) {
      OffsetGrows(k, j, step);
      assert KeysOf([]) == {};
    }
  }

  lemma {:induction false} OffsetGrows(k: nat, j: nat, step: nat)
    requires k <= j
    ensures Offset(k, step) <= Offset(j, step)
  {
    if k < j {
      OffsetGrows(k, j - 1, step);
    }
  }

  // Processes the next batch of a run that began with table `before` and has stored `done`.
  method FlushBatch(
    db: Connection, batch: seq<Kna1Row>, maxBatch: nat, io: BatchIo, total: nat,
    ghost before: Table, ghost done: seq<Kna1Row>, ghost exact: bool)
    returns (r: Result<nat, IngestError>)
    requires db.customers == InsertTable(before, done)
    requires Counted(before, db.customers, total, exact)
    modifies db
    ensures r.Ok? ==> db.customers == InsertTable(before, done + batch)
    ensures r.Ok? ==> Counted(before, db.customers, r.value, exact && Covered(old(db.customers), batch, io))
    ensures r.Err? ==> db.customers == old(db.customers)
    ensures |batch| <= maxBatch ==> r != Err(BatchTooLarge)
    ensures |batch| <= maxBatch && io.Healthy() ==> r.Ok?
  {
    var inserted := ProcessCurrentBatch(db, batch, maxBatch, io);
    if inserted.Err? {
      return inserted;
    }
    InsertTableConcat(before, done, batch);
    return Ok(total + inserted.value);
  }

  // The rows read so far are the stored full batches followed by a part of the next one.
  ghost predicate Reading(rows: seq<Kna1Row>, step: nat, i: nat, j: nat, done: seq<Kna1Row>, batch: seq<Kna1Row>) {
    && i <= |rows| && rows[..i] == done + batch
    && |done| == Offset(j, step) && |batch| < step
  }

  lemma ReadingMore(rows: seq<Kna1Row>, step: nat, i: nat, j: nat, done: seq<Kna1Row>, batch: seq<Kna1Row>)
    requires Reading(rows, step, i, j, done, batch) && i < |rows| && |batch| + 1 < step
    ensures Reading(rows, step, i + 1, j, done, batch + [rows[i]])
  {
    assert rows[..i + 1] == rows[..i] + [rows[i]];
  }

  lemma ReadingFull(rows: seq<Kna1Row>, step: nat, i: nat, j: nat, done: seq<Kna1Row>, batch: seq<Kna1Row>)
    requires Reading(rows, step, i, j, done, batch) && i < |rows| && |batch| + 1 == step
    ensures Reading(rows, step, i + 1, j + 1, done + (batch + [rows[i]]), [])
    ensures batch + [rows[i]] == Window(rows, step, j)
  {
    assert rows[..i + 1] == rows[..i] + [rows[i]];
    assert rows[..i + 1] == (done + (batch + [rows[i]])) + [];
  }

  lemma ReadingLast(rows: seq<Kna1Row>, step: nat, j: nat, done: seq<Kna1Row>, batch: seq<Kna1Row>)
    requires Reading(rows, step, |rows|, j, done, batch)
    ensures rows == done + batch && batch == Window(rows, step, j)
  {
    assert rows[..|rows|] == rows;
  }

  lemma ReadingStored(rows: seq<Kna1Row>, step: nat, i: nat, j: nat, done: seq<Kna1Row>, batch: seq<Kna1Row>)
    requires Reading(rows, step, i, j, done, batch)
    ensures Offset(j, step) <= |rows| && done == rows[..Offset(j, step)]
  {
    assert done == rows[..i][..|done|];
  }

  // The state of the reading loop before row `i`; `j` batches, the rows `done`, are stored.
  ghost predicate Running(
    before: Table, now: Table, rows: seq<Kna1Row>, step: nat, i: nat, j: nat,
    done: seq<Kna1Row>, batch: seq<Kna1Row>, total: nat, io: nat -> BatchIo)
  {
    && Reading(rows, step, i, j, done, batch)
    && now == InsertTable(before, done)
    && Counted(before, now, total, BatchesCovered(before, rows, step, io, j))
  }

  lemma RunningStart(before: Table, rows: seq<Kna1Row>, step: nat, io: nat -> BatchIo)
    requires step > 0
    ensures Running(before, before, rows, step, 0, 0, [], [], 0, io)
  {
  }

  lemma RunningStored(
    before: Table, now: Table, rows: seq<Kna1Row>, step: nat, i: nat, j: nat,
    done: seq<Kna1Row>, batch: seq<Kna1Row>, total: nat, io: nat -> BatchIo)
    requires Running(before, now, rows, step, i, j, done, batch, total, io)
    ensures AfterBatches(before, now, rows, step, j) && i < Offset(j + 1, step) && i <= |rows|
  {
    ReadingStored(rows, step, i, j, done, batch);
  }

  lemma BatchesNext(before: Table, rows: seq<Kna1Row>, step: nat, io: nat -> BatchIo, j: nat, batch: seq<Kna1Row>)
    requires Offset(j, step) <= |rows| && batch == Window(rows, step, j)
    ensures BatchesCovered(before, rows, step, io, j + 1) <==>
            && BatchesCovered(before, rows, step, io, j)
            && Covered(InsertTable(before, rows[..Offset(j, step)]), batch, io(j))
  {
    hide Covered, Window, InsertTable;
    assert BatchCovered(before, rows, step, io, j) <==>
      Covered(InsertTable(before, rows[..Offset(j, step)]), batch, io(j));
  }

  lemma RunningEnd(
    before: Table, now: Table, rows: seq<Kna1Row>, step: nat, j: nat,
    done: seq<Kna1Row>, batch: seq<Kna1Row>, total: nat, io: nat -> BatchIo)
    requires Running(before, now, rows, step, |rows|, j, done, batch, total, io)
    ensures now == InsertTable(before, done) && rows == done + batch && |batch| < step
    ensures Counted(before, now, total, BatchesCovered(before, rows, step, io, j))
    ensures AllCovered(before, rows, step, io) <==>
            BatchesCovered(before, rows, step, io, j) && (batch == [] || Covered(now, batch, io(j)))
  {
    hide InsertTable, Counted, BatchesCovered, AllCovered, Window, Covered;
    ReadingStored(rows, step, |rows|, j, done, batch);
    ReadingLast(rows, step, j, done, batch);
    AllCoveredLast(before, rows, step, io, j, batch);
  }

  lemma AllCoveredLast(before: Table, rows: seq<Kna1Row>, step: nat, io: nat -> BatchIo, j: nat, batch: seq<Kna1Row>)
    requires Offset(j, step) <= |rows| && batch == Window(rows, step, j) && |rows| <= Offset(j, step) + |batch|
    requires |batch| < step
    ensures AllCovered(before, rows, step, io) <==>
            && BatchesCovered(before, rows, step, io, j)
            && (batch == [] || Covered(InsertTable(before, rows[..Offset(j, step)]), batch, io(j)))
  {
    hide InsertTable, BatchesCovered, AllCovered, Window, Covered;
    if batch == [] {
      LastCovered(before, rows, step, io, j);
    } else {
      LastCovered(before, rows, step, io, j + 1);
      BatchesNext(before, rows, step, io, j, batch);
    }
  }

  // One turn of the reading loop: push the row, and store the batch once it is full.
  method PushRow(
    row: Kna1Row, batch: seq<Kna1Row>, j: nat, total: nat,
    db: Connection, batchSize: nat, maxBatch: nat, io: nat -> BatchIo,
    ghost before: Table, ghost rows: seq<Kna1Row>, ghost i: nat, ghost done: seq<Kna1Row>)
    returns (r: Result<nat, IngestError>, rest: seq<Kna1Row>, j': nat, ghost done': seq<Kna1Row>)
    requires i < |rows| && row == rows[i]
    requires Running(before, db.customers, rows, Step(batchSize), i, j, done, batch, total, io)
    modifies db
    ensures r.Ok? ==>
              Running(before, db.customers, rows, Step(batchSize), i + 1, j', done', rest, r.value, io)
    ensures r.Err? ==> db.customers == old(db.customers)
    ensures Step(batchSize) <= maxBatch && io(j).Healthy() ==> r.Ok?
    ensures Step(batchSize) <= maxBatch ==> r != Err(BatchTooLarge)
  {
    hide Covered, BatchCovered, BatchesCovered, Counted, InsertTable, Window;
    rest, j', done' := batch + [row], j, done;
    if |rest| < batchSize {
      ReadingMore(rows, Step(batchSize), i, j, done, batch);
      return Ok(total), rest, j', done';
    }
    ReadingFull(rows, Step(batchSize), i, j, done, batch);
    ReadingStored(rows, Step(batchSize), i, j, done, batch);
    BatchesNext(before, rows, Step(batchSize), io, j, rest);
    r := FlushBatch(
      db, rest, maxBatch, io(j), total, before, done, BatchesCovered(before, rows, Step(batchSize), io, j));
    done', rest, j' := done + rest, [], j + 1;
  }

  // After the last row: store what is left of a batch.
  method FlushRest(
    batch: seq<Kna1Row>, j: nat, total: nat, db: Connection, batchSize: nat, maxBatch: nat, io: nat -> BatchIo,
    ghost before: Table, ghost rows: seq<Kna1Row>, ghost done: seq<Kna1Row>)
    returns (r: Result<nat, IngestError>)
    requires Running(before, db.customers, rows, Step(batchSize), |rows|, j, done, batch, total, io)
    modifies db
    ensures r.Ok? ==> db.customers == InsertTable(before, rows)
    ensures r.Ok? ==> Counted(before, db.customers, r.value, AllCovered(before, rows, Step(batchSize), io))
    ensures r.Err? ==> AfterBatches(before, db.customers, rows, Step(batchSize), j)
    ensures |rows| < Offset(j + 1, Step(batchSize))
    ensures Step(batchSize) <= maxBatch && io(j).Healthy() ==> r.Ok?
    ensures Step(batchSize) <= maxBatch ==> r != Err(BatchTooLarge)
  {
    RunningStored(before, db.customers, rows, Step(batchSize), |rows|, j, done, batch, total, io);
    RunningEnd(before, db.customers, rows, Step(batchSize), j, done, batch, total, io);
    if batch == [] {
      assert done + [] == done;
      return Ok(total);
    }
    r := FlushBatch(
      db, batch, maxBatch, io(j), total, before, done, BatchesCovered(before, rows, Step(batchSize), io, j));
  }

  /** `stored` counts the batches that were stored in full before an error. */
  method ProcessCsvInBatches(
    reader: seq<CsvItem>, db: Connection, batchSize: nat, maxBatch: nat, io: nat -> BatchIo)
    returns (r: Result<nat, IngestError>, ghost stored: nat)
    modifies db
    ensures r.Ok? ==> AllParsed(reader) && db.customers == InsertTable(old(db.customers), ParsedRows(reader))
    ensures r.Err? ==> AfterBatches(old(db.customers), db.customers, ParsedRows(reader), Step(batchSize), stored)
    ensures (forall j: nat :: io(j).Healthy()) && Step(batchSize) <= maxBatch ==>
              && (r.Ok? <==> AllParsed(reader))
              && (r.Err? ==> |ParsedRows(reader)| < Offset(stored + 1, Step(batchSize)))
    ensures Step(batchSize) <= maxBatch ==> r != Err(BatchTooLarge)
    ensures r.Ok? ==>
              Counted(old(db.customers), db.customers, r.value,
                AllCovered(old(db.customers), ParsedRows(reader), Step(batchSize), io))
  {
    ghost var before, rows, step := db.customers, ParsedRows(reader), Step(batchSize);
    ghost var done: seq<Kna1Row> := [];
    var batchRecords: seq<Kna1Row>, totalInserted: nat, j: nat := [], 0, 0;
    hide *;
    RunningStart(before, rows, step, io);
    for i := 0 to |reader|
      invariant Running(before, db.customers, rows, step, i, j, done, batchRecords, totalInserted, io)
    {
      hide *;
      RunningStored(before, db.customers, rows, step, i, j, done, batchRecords, totalInserted, io);
      ParsedAt(reader, i);
      stored := j;
      if reader[i].None? {
        return Err(MalformedRow), j;
      }
      r, batchRecords, j, done := PushRow(
        reader[i].value, batchRecords, j, totalInserted, db, batchSize, maxBatch, io,
        before, rows, i, done);
      if r.Err? {
        return r, stored;
      }
      totalInserted := r.value;
    }
    stored := j;
    RunningStored(before, db.customers, rows, step, |reader|, j, done, batchRecords, totalInserted, io);
    ParsedAll(reader);
    r := FlushRest(batchRecords, j, totalInserted, db, batchSize, maxBatch, io, before, rows, done);
  }

  // ---------- Recovery ----------

  // Rows whose keys are all stored leave the table alone.
  lemma {:induction false} InsertAllAbsorbs(t: seq<Customer>, rows: seq<Kna1Row>)
    requires KeysOf(rows) <= Keys(t)
    ensures InsertAll(t, rows) == t
  {
    if rows != [] {
      assert rows == rows[..|rows| - 1] + [rows[|rows| - 1]];
      InsertAllAbsorbs(t, rows[..|rows| - 1]);
      assert rows[|rows| - 1] in rows;
    }
  }

  // Running the whole file again after any prefix of it was stored gives the uninterrupted result.
  lemma RerunRecovers(t: Table, rows: seq<Kna1Row>, k: nat)
    requires k <= |rows|
    ensures InsertTable(InsertTable(t, rows[..k]), rows) == InsertTable(t, rows)
  {
    var done := InsertTable(t, rows[..k]);
    InsertAllKeys(Contents(t), rows[..k]);
    if k > 0 {
      InsertAllAbsorbs(Contents(done), rows[..k]);
      assert InsertTable(done, rows[..k]) == done;
    }
    InsertTableConcat(done, rows[..k], rows[k..]);
    InsertTableConcat(t, rows[..k], rows[k..]);
    assert rows[..k] + rows[k..] == rows;
  }

  /**
   A first run that may stop anywhere, for any reason, and a second run over the same file with
   another batch size: once the second succeeds, the table is that of one uninterrupted run.
   */
  method CrashAndRerun(
    reader: seq<CsvItem>, db: Connection, maxBatch: nat,
    firstSize: nat, firstIo: nat -> BatchIo, secondSize: nat, secondIo: nat -> BatchIo)
    returns (second: Result<nat, IngestError>)
    modifies db
    ensures second.Ok? ==> db.customers == InsertTable(old(db.customers), ParsedRows(reader))
    ensures AllParsed(reader) && (forall j: nat :: secondIo(j).Healthy()) && Step(secondSize) <= maxBatch ==> second.Ok?
  {
    ghost var rows := ParsedRows(reader);
    var first, stored := ProcessCsvInBatches(reader, db, firstSize, maxBatch, firstIo);
    if first.Ok? {
      assert rows[..|rows|] == rows;
      RerunRecovers(old(db.customers), rows, |rows|);
    } else {
      RerunRecovers(old(db.customers), rows, Offset(stored, Step(firstSize)));
    }
    second, stored := ProcessCsvInBatches(reader, db, secondSize, maxBatch, secondIo);
  }

  // ---------- The command ----------

  /**
   The ingest command. `logged` is the count in the success message, which precedes index creation.
   With `overwrite`, the table is dropped before the file is opened.
   */
  method ExecuteIngestion(
    csv: Option<seq<CsvItem>>, db: Connection, connects: bool, overwrite: bool, dropSucceeds: bool,
    batchSize: nat, maxBatch: nat, io: nat -> BatchIo, indexOpens: bool, indexSucceeds: bool)
    returns (r: Result<(), IngestError>, logged: Option<nat>)
    modifies db
    ensures (batchSize == 0 || batchSize > maxBatch) ==>
              r == Err(BatchSizeOutOfRange) && db.customers == old(db.customers)
    ensures 0 < batchSize <= maxBatch && !connects ==>
              r == Err(ConnectionFailed) && db.customers == old(db.customers)
    ensures 0 < batchSize <= maxBatch && connects && csv.None? ==>
              && r == Err(FileMissing)
              && db.customers == if overwrite && dropSucceeds then None else old(db.customers)
    ensures 0 < batchSize <= maxBatch && connects && csv.Some? ==>
              var start := if overwrite && dropSucceeds then None else old(db.customers);
              && (logged.Some? ==>
                    && AllParsed(csv.value)
                    && db.customers == InsertTable(start, ParsedRows(csv.value))
                    && Counted(start, db.customers, logged.value,
                         AllCovered(start, ParsedRows(csv.value), batchSize, io))
                    && r == if indexOpens && db.customers.Some? && !indexSucceeds then Err(IndexFailed) else Ok(()))
              && (logged.None? ==>
                    exists k: nat :: AfterBatches(start, db.customers, ParsedRows(csv.value), batchSize, k))
              && (logged.None? ==> r.Err? && r != Err(BatchTooLarge))
              && ((forall j: nat :: io(j).Healthy()) ==> (logged.Some? <==> AllParsed(csv.value)))
  {
    logged := None;
    if batchSize == 0 || batchSize > maxBatch {
      return Err(BatchSizeOutOfRange), None;
    }
    if !connects {
      return Err(ConnectionFailed), None;
    }
    if overwrite {
      if dropSucceeds {
        db.customers := None;
      }
    }
    if csv.None? {
      return Err(FileMissing), None;
    }
    var total, _ := ProcessCsvInBatches(csv.value, db, batchSize, maxBatch, io);
    if total.Err? {
      return Err(total.error), None;
    }
    logged := Some(total.value);
    if indexOpens && db.customers.Some? && !indexSucceeds {
      return Err(IndexFailed), logged;
    }
    return Ok(()), logged;
  }
}
