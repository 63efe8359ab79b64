/**
 Which lists of filters keep the terms of their `NOT` filters out of every answer of a hybrid search
 over stored customers. `esc` is the escape character of the dialect's LIKE, if it has one by default.
 */
module Exclusion {
  import opened Outcomes
  import opened Text
  import opened Ingestion
  import opened FallbackSql
  import opened RankFusion
  import opened HybridSearch
  import opened Firewall
  import Framing

  // ---------- What every chunk contains ----------

  function FieldStart(key: string): string {
    "\"" + key + "\":\""
  }

  // The text around the three fields.
  const CITY := "{" + FieldStart("city")
  const KUNNR := "\"," + FieldStart("kunnr")
  const NAME := "\"," + FieldStart("name")
  const END := "\"}"

  lemma {:induction false} PlainEscaped(s: string)
    requires Printable(s) && NoQuote(s)
    ensures Framing.Escaped(s) == s
  {
    if s != "" {
      PlainEscaped(s[1..]);
    }
  }

  predicate Printable(s: string) {
    forall i :: 0 <= i < |s| ==> s[i] >= ' '
  }

  predicate NoQuote(s: string) {
    '"' !in s && '\\' !in s
  }

  function FieldText(key: string, value: string): string {
    FieldStart(key) + Framing.Escaped(value) + "\""
  }

  lemma FieldPrinted(key: string, value: string)
    requires Printable(key) && NoQuote(key)
    ensures Framing.Quoted(key) + ":" + Framing.Print(Framing.Str(value)) == FieldText(key, value)
  {
    PlainEscaped(key);
    var v := Framing.Escaped(value);
    hide *;
    assert ("\"" + key + "\"") + ":" + ("\"" + v + "\"") == "\"" + key + "\":\"" + v + "\"";
  }

  lemma FieldsPrinted(a: Framing.Field, b: Framing.Field, c: Framing.Field)
    requires a.value.Str? && Printable(a.key) && NoQuote(a.key)
    requires b.value.Str? && Printable(b.key) && NoQuote(b.key)
    requires c.value.Str? && Printable(c.key) && NoQuote(c.key)
    ensures Framing.PrintFields([a, b, c]) ==
            FieldText(a.key, a.value.content) + ","
            + (FieldText(b.key, b.value.content) + "," + FieldText(c.key, c.value.content))
  {
    FieldPrinted(a.key, a.value.content);
    FieldPrinted(b.key, b.value.content);
    FieldPrinted(c.key, c.value.content);
    hide Framing.Quoted, Framing.Print, FieldText;
    assert [a, b, c][1..] == [b, c] && [b, c][1..] == [c];
    assert Framing.PrintFields([c]) == FieldText(c.key, c.value.content);
    assert Framing.PrintFields([b, c]) ==
      FieldText(b.key, b.value.content) + "," + Framing.PrintFields([c]);
  }

  lemma ChunkPrinted(row: Row)
    ensures ChunkText(row) ==
            "{" + (FieldText("city", row.city) + ","
            + (FieldText("kunnr", row.kunnr) + "," + FieldText("name", row.name))) + "}"
  {
    hide Framing.PrintFields, FieldText;
    FieldsPrinted(
      Framing.Field("city", Framing.Str(row.city)),
      Framing.Field("kunnr", Framing.Str(row.kunnr)),
      Framing.Field("name", Framing.Str(row.name)));
  }

  lemma ChunkShape(row: Row)
    ensures ChunkText(row) ==
            CITY + Framing.Escaped(row.city) + KUNNR + Framing.Escaped(row.kunnr)
            + NAME + Framing.Escaped(row.name) + END
  {
    hide Framing.Escaped, ChunkText, FieldStart;
    ChunkPrinted(row);
    assert "\"" + "," == "\"," && "\"" + "}" == "\"}";
    Regrouped("{", FieldStart("city"), Framing.Escaped(row.city), "\"", ",",
      FieldStart("kunnr"), Framing.Escaped(row.kunnr), FieldStart("name"), Framing.Escaped(row.name), "}");
  }

  lemma Regrouped(
    open: string, city: string, c: string, quote: string, comma: string,
    kunnr: string, k: string, name: string, n: string, close: string)
    ensures open + ((city + c + quote) + comma + ((kunnr + k + quote) + comma + (name + n + quote))) + close ==
            (open + city) + c + ((quote + comma) + kunnr) + k + ((quote + comma) + name) + n + (quote + close)
  {
  }

  // A part of the text around the three fields.
  predicate Fixed(part: string) {
    Contains(CITY, part) || Contains(KUNNR, part) || Contains(NAME, part) || Contains(END, part)
  }

  lemma MiddleContained(before: string, piece: string, after: string, part: string)
    requires Contains(piece, part)
    ensures Contains(before + piece + after, part)
  {
    InfixContained(before, piece, after);
    ContainsTransitive(before + piece + after, piece, part);
  }

  lemma OnePieceContains(
    a: string, c: string, b: string, k: string, d: string, n: string, e: string, part: string)
    requires Contains(a, part) || Contains(b, part) || Contains(d, part) || Contains(e, part)
    ensures Contains(a + c + b + k + d + n + e, part)
  {
    hide Contains;
    var text := a + c + b + k + d + n + e;
    if Contains(a, part) {
      assert text == "" + a + (c + b + k + d + n + e);
      MiddleContained("", a, c + b + k + d + n + e, part);
    } else if Contains(b, part) {
      assert text == (a + c) + b + (k + d + n + e);
      MiddleContained(a + c, b, k + d + n + e, part);
    } else if Contains(d, part) {
      assert text == (a + c + b + k) + d + (n + e);
      MiddleContained(a + c + b + k, d, n + e, part);
    } else {
      assert text == (a + c + b + k + d + n) + e + "";
      MiddleContained(a + c + b + k + d + n, e, "", part);
    }
  }

  lemma FixedInChunk(row: Row, part: string)
    requires Fixed(part)
    ensures Contains(ChunkText(row), part)
  {
    hide Contains;
    ChunkShape(row);
    OnePieceContains(CITY, Framing.Escaped(row.city), KUNNR, Framing.Escaped(row.kunnr),
      NAME, Framing.Escaped(row.name), END, part);
  }

  // ---------- What a chunk contains besides ----------

  // Text without a quote does not reach over one.
  lemma QuoteSplits(a: string, b: string, u: string)
    requires '"' !in u && Contains(a + "\"" + b, u)
    ensures Contains(a, u) || Contains(b, u)
  {
    var s := a + "\"" + b;
    var i := Occurrence(s, u);
    if i + |u| <= |a| {
      assert a[i..i + |u|] == s[i..i + |u|];
      OccurrenceContained(a, u, i);
    } else if i > |a| {
      assert b[i - |a| - 1..i - |a| - 1 + |u|] == s[i..i + |u|];
      OccurrenceContained(b, u, i - |a| - 1);
    } else {
      CharInside(s, u, i, |a|);
      assert false;
    }
  }

  lemma CharInside(s: string, u: string, i: nat, m: nat)
    requires OccursAt(s, u, i) && i <= m < i + |u|
    ensures s[m] in u
  {
    assert s[i..i + |u|][m - i] == s[m];
  }

  lemma SevenPieces(p: string, c: string, q: string, k: string, r: string, n: string, t: string, u: string)
    requires '"' !in u
    requires Contains(p + "\"" + (c + "\"" + (q + "\"" + (k + "\"" + (r + "\"" + (n + "\"" + t))))), u)
    ensures Contains(p, u) || Contains(c, u) || Contains(q, u) || Contains(k, u) || Contains(r, u) || Contains(n, u)
            || Contains(t, u)
  {
    hide Contains;
    QuoteSplits(p, c + "\"" + (q + "\"" + (k + "\"" + (r + "\"" + (n + "\"" + t)))), u);
    if !Contains(p, u) {
      QuoteSplits(c, q + "\"" + (k + "\"" + (r + "\"" + (n + "\"" + t))), u);
      if !Contains(c, u) {
        QuoteSplits(q, k + "\"" + (r + "\"" + (n + "\"" + t)), u);
        if !Contains(q, u) {
          QuoteSplits(k, r + "\"" + (n + "\"" + t), u);
          if !Contains(k, u) {
            QuoteSplits(r, n + "\"" + t, u);
            if !Contains(r, u) {
              QuoteSplits(n, t, u);
            }
          }
        }
      }
    }
  }

  lemma PieceIsFixed(p: string, before: string, after: string, u: string)
    requires Contains(p, u) && before + p + after in {CITY, KUNNR, NAME, END}
    ensures Fixed(u)
  {
    MiddleContained(before, p, after, u);
  }

  // A part without a quote is in the fixed text, or in a field as printed.
  lemma PartOfChunk(row: Row, u: string)
    requires '"' !in u && Contains(ChunkText(row), u)
    ensures Fixed(u) || Contains(Framing.Escaped(row.city), u) || Contains(Framing.Escaped(row.kunnr), u)
            || Contains(Framing.Escaped(row.name), u)
  {
    var c, k, n := Framing.Escaped(row.city), Framing.Escaped(row.kunnr), Framing.Escaped(row.name);
    ChunkShape(row);
    hide Contains, Framing.Escaped, ChunkText, Fixed;
    var p, q, r := "{\"city\":", ",\"kunnr\":", ",\"name\":";
    assert CITY == p + "\"" && KUNNR == "\"" + q + "\"" && NAME == "\"" + r + "\"" && END == "\"" + "}";
    Unquoted(p, c, q, k, r, n, "}");
    SevenPieces(p, c, q, k, r, n, "}", u);
    if Contains(p, u) {
      assert "" + p + "\"" == CITY;
      PieceIsFixed(p, "", "\"", u);
    } else if Contains(q, u) {
      PieceIsFixed(q, "\"", "\"", u);
    } else if Contains(r, u) {
      PieceIsFixed(r, "\"", "\"", u);
    } else if Contains("}", u) {
      assert "\"" + "}" + "" == END;
      PieceIsFixed("}", "\"", "", u);
    }
  }

  lemma Unquoted(p: string, c: string, q: string, k: string, r: string, n: string, t: string)
    ensures (p + "\"") + c + ("\"" + q + "\"") + k + ("\"" + r + "\"") + n + ("\"" + t) ==
            p + "\"" + (c + "\"" + (q + "\"" + (k + "\"" + (r + "\"" + (n + "\"" + t)))))
  {
  }

  lemma {:induction false} EscapedPrintable(s: string)
    ensures Printable(Framing.Escaped(s))
  {
    if s != "" {
      EscapedPrintable(s[1..]);
      CharPrintable(s[0]);
    }
  }

  lemma CharPrintable(c: char)
    ensures Printable(Framing.EscapeChar(c))
  {
    if c < ' ' {
      assert forall n: nat :: n < 16 ==> Framing.HexDigit(n) >= ' ';
    }
  }

  lemma FixedPrintable()
    ensures Printable(CITY) && Printable(KUNNR) && Printable(NAME) && Printable(END)
  {
  }

  // Control characters never reach a chunk.
  lemma ChunkPrintable(row: Row, term: string)
    requires Contains(ChunkText(row), term)
    ensures Printable(term)
  {
    ChunkShape(row);
    EscapedPrintable(row.city);
    EscapedPrintable(row.kunnr);
    EscapedPrintable(row.name);
    hide *;
    FixedPrintable();
    AllPrintable(CITY, Framing.Escaped(row.city), KUNNR, Framing.Escaped(row.kunnr),
      NAME, Framing.Escaped(row.name), END);
    PartPrintable(ChunkText(row), term);
  }

  lemma AllPrintable(a: string, c: string, b: string, k: string, d: string, n: string, e: string)
    requires Printable(a) && Printable(b) && Printable(d) && Printable(e)
    requires Printable(c) && Printable(k) && Printable(n)
    ensures Printable(a + c + b + k + d + n + e)
  {
  }

  lemma PartPrintable(text: string, term: string)
    requires Printable(text) && Contains(text, term)
    ensures Printable(term)
  {
    var i := Occurrence(text, term);
    forall k | 0 <= k < |term| ensures term[k] >= ' ' {
      assert text[i..i + |term|][k] == text[i + k];
    }
  }

  // ---------- Which filters can fetch ----------

  // The word ends in an escape character that escapes nothing in it.
  predicate Dangling(w: string, esc: Option<char>) {
    if w == "" then false
    else if esc == Some(w[0]) then |w| == 1 || Dangling(w[2..], esc)
    else Dangling(w[1..], esc)
  }

  // A positive filter that some stored sentence can match.
  predicate Fetching(filter: string, esc: Option<char>) {
    !IsNot(filter) && !Dangling(filter, esc)
  }

  lemma {:induction false} DanglingNeedsPercent(w: string, text: string, esc: Option<char>)
    requires ProperEscape(esc) && Dangling(w, esc) && Like(text, w + "%", esc)
    ensures text != "" && text[|text| - 1] == '%'
    decreases |w| + |text|
  {
    if esc == Some(w[0]) {
      if |w| > 1 {
        assert (w + "%")[2..] == w[2..] + "%";
        DanglingNeedsPercent(w[2..], text[1..], esc);
      } else {
        assert (w + "%")[2..] == "";
      }
    } else {
      assert (w + "%")[1..] == w[1..] + "%";
      if w[0] == '%' && Like(text, w[1..] + "%", esc) {
        DanglingNeedsPercent(w[1..], text, esc);
      } else {
        DanglingNeedsPercent(if w[0] == '%' then w else w[1..], text[1..], esc);
      }
    }
  }

  // Stored sentences end in a full stop, so a dangling filter finds none of them.
  lemma MatchIsFetching(filter: string, csv: Kna1Row, esc: Option<char>)
    requires ProperEscape(esc) && !IsNot(filter)
    requires Evaluate(Condition(filter), CustomerOf(csv), esc) == Some(true)
    ensures Fetching(filter, esc)
  {
    var text := CustomerOf(csv).sentence;
    ConditionMeaning(filter, CustomerOf(csv), esc);
    assert Pattern(filter) == "%" + (filter + "%");
    LikeSomewhere(text, filter + "%", esc);
    var k :| 0 <= k <= |text| && Like(text[k..], filter + "%", esc);
    assert text[|text| - 1] == '.';
    SuffixEnds(text, k);
    if Dangling(filter, esc) {
      DanglingNeedsPercent(filter, text[k..], esc);
      assert false;
    }
  }

  lemma SuffixEnds(text: string, k: nat)
    requires k <= |text|
    ensures text[k..] != "" ==> text[k..][|text[k..]| - 1] == text[|text| - 1]
  {
  }

  // Any other filter is matched by the text that spends its wildcards, whatever follows.
  lemma {:induction false} SpentExtends(w: string, more: string, esc: Option<char>)
    requires ProperEscape(esc) && !Dangling(w, esc)
    ensures Like(Spent(w, esc) + more, w + "%", esc)
  {
    var text, p := Spent(w, esc) + more, w + "%";
    if w == "" {
      LikeAnything(text, esc);
      assert p == "%";
    } else if esc == Some(w[0]) {
      SpentExtends(w[2..], more, esc);
      assert p[2..] == w[2..] + "%" && text[1..] == Spent(w[2..], esc) + more;
    } else {
      SpentExtends(w[1..], more, esc);
      assert p[1..] == w[1..] + "%" && text[1..] == Spent(w[1..], esc) + more;
      if w[0] == '%' {
        LikeSomewhere(text, w[1..] + "%", esc);
        assert p == "%" + (w[1..] + "%");
      }
    }
  }

  lemma CountryMatches(csv: Kna1Row, filter: string, esc: Option<char>)
    requires ProperEscape(esc) && !Dangling(filter, esc) && csv.land1 == Some(Spent(filter, esc))
    ensures Evaluate(Condition(filter), CustomerOf(csv), esc) == Some(true)
  {
    var c := CustomerOf(csv);
    var before := "Customer " + c.kunnr + " is named " + c.name + " and is located in " + c.city + ", ";
    assert c.sentence == before + (Spent(filter, esc) + ".");
    assert c.sentence[|before|..] == Spent(filter, esc) + ".";
    SpentExtends(filter, ".", esc);
    LikeSomewhere(c.sentence, filter + "%", esc);
    assert Pattern(filter) == "%" + (filter + "%");
    ConditionMeaning(filter, c, esc);
  }

  // ---------- The condition ----------

  // A later filter `l` drops whatever filter `i` drops.
  predicate Covers(filters: seq<string>, i: int, l: int)
    requires 0 <= i < |filters| && 0 <= l < |filters|
  {
    IsNot(filters[l]) && (Contains(Term(filters[i]), Term(filters[l])) || Fixed(Term(filters[l])))
  }

  // After each positive filter that follows a NOT filter, and can fetch at all, comes a covering one.
  ghost predicate Guarded(filters: seq<string>, esc: Option<char>) {
    forall i, j ::
      0 <= i < j < |filters| && IsNot(filters[i]) && Printable(Term(filters[i])) && Fetching(filters[j], esc) ==>
        CoveredAfter(filters, i, j)
  }

  ghost predicate CoveredAfter(filters: seq<string>, i: int, j: int)
    requires 0 <= i < |filters|
  {
    exists l :: j < l < |filters| && l >= 0 && Covers(filters, i, l)
  }

  // In particular when the NOT filters come last.
  lemma NotsLastAreGuarded(filters: seq<string>, esc: Option<char>)
    requires forall i, j :: 0 <= i < j < |filters| && IsNot(filters[i]) ==> IsNot(filters[j])
    ensures Guarded(filters, esc)
  {
  }

  ghost predicate Ingested(table: seq<Row>) {
    forall c :: c in table ==> exists csv: Kna1Row :: c == CustomerOf(csv)
  }

  // The rows of the two passes are stored ones, those of a positive filter among its matches.
  ghost predicate FromTable(
    table: seq<Row>, dense: seq<Row>, filters: seq<string>, lexical: nat -> seq<Row>, esc: Option<char>)
  {
    && Ingested(table) && (forall r :: r in dense ==> r in table)
    && forall m: nat, r :: m < |filters| && !IsNot(filters[m]) && r in lexical(m) ==>
         r in table && Evaluate(Condition(filters[m]), r, esc) == Some(true)
  }

  // No search over stored customers returns a chunk with the term of a NOT filter.
  ghost predicate Excludes(filters: seq<string>, esc: Option<char>) {
    forall table: seq<Row>, dense: seq<Row>, lexical: nat -> seq<Row>, res: seq<Chunk>, i: nat, c: Chunk ::
      && FromTable(table, dense, filters, lexical, esc) && IsResult(res, dense, filters, lexical)
      && i < |filters| && IsNot(filters[i]) && c in res ==>
        !Contains(c.text, Term(filters[i]))
  }

  // ---------- It suffices ----------

  // Event `m + 1` is what filter `m` does.
  lemma EventAt(dense: seq<Row>, filters: seq<string>, lexical: nat -> seq<Row>, m: nat)
    requires m < |filters|
    ensures |Events(dense, filters, lexical)| == |filters| + 1
    ensures Events(dense, filters, lexical)[m + 1] == EventOf(filters[m], lexical(m))
  {
  }

  lemma {:induction false} ChunkInRow(rows: seq<Row>, id: string) returns (row: Row)
    requires ChunkIn(rows, id).Some?
    ensures row in rows && row.kunnr == id && ChunkText(row) == ChunkIn(rows, id).value
  {
    var n := |rows| - 1;
    if rows[n].kunnr == id {
      row := rows[n];
    } else {
      row := ChunkInRow(rows[..n], id);
    }
  }

  lemma SurvivorAvoids(events: seq<Event>, id: string, j: nat, l: nat)
    requires SurvivesFrom(events, id, j) && j < l < |events| && events[l].Exclude?
    ensures !Contains(ChunkIn(events[j].rows, id).value, events[l].term)
  {
  }

  // If the chunk comes from event `j`, the dense pass or a fetching filter, no later NOT filter's term is in
  // it, nor any earlier one's.
  lemma GuardedSurvivor(
    filters: seq<string>, dense: seq<Row>, lexical: nat -> seq<Row>, i: nat, row: Row, j: nat, esc: Option<char>)
    requires Guarded(filters, esc) && i < |filters| && IsNot(filters[i])
    requires var events := Events(dense, filters, lexical);
             SurvivesFrom(events, row.kunnr, j) && ChunkIn(events[j].rows, row.kunnr) == Some(ChunkText(row))
    requires 0 < j <= |filters| ==> Fetching(filters[j - 1], esc)
    ensures !Contains(ChunkText(row), Term(filters[i]))
  {
    hide ChunkText, ChunkIn, Contains, Fixed, Dangling;
    var events := Events(dense, filters, lexical);
    if Contains(ChunkText(row), Term(filters[i])) {
      ChunkPrintable(row, Term(filters[i]));
      var l: nat := i;
      if j > i {
        assert CoveredAfter(filters, i, j - 1);
        l :| j - 1 < l < |filters| && Covers(filters, i, l);
      } else {
        SliceContained(Term(filters[i]), 0, |Term(filters[i])|);
        assert Term(filters[i])[0..|Term(filters[i])|] == Term(filters[i]);
      }
      EventAt(dense, filters, lexical, l);
      SurvivorAvoids(events, row.kunnr, j, l + 1);
      if Fixed(Term(filters[l])) {
        FixedInChunk(row, Term(filters[l]));
      } else {
        ContainsTransitive(ChunkText(row), Term(filters[i]), Term(filters[l]));
      }
      assert false;
    }
  }

  lemma GuardedExcludes(
    table: seq<Row>, filters: seq<string>, dense: seq<Row>, lexical: nat -> seq<Row>, res: seq<Chunk>,
    i: nat, c: Chunk, esc: Option<char>)
    requires ProperEscape(esc) && Guarded(filters, esc)
    requires FromTable(table, dense, filters, lexical, esc) && IsResult(res, dense, filters, lexical)
    requires i < |filters| && IsNot(filters[i]) && c in res
    ensures !Contains(c.text, Term(filters[i]))
  {
    hide Guarded, FromTable, ChunkText, Contains;
    var j, row := SourceOf(filters, dense, lexical, res, c);
    if j > 0 {
      EventAt(dense, filters, lexical, j - 1);
      FetchedByMatch(table, filters, dense, lexical, j - 1, row, esc);
    }
    GuardedSurvivor(filters, dense, lexical, i, row, j, esc);
  }

  // Every returned chunk is that of a row fetched last at some event, from which it survives.
  lemma SourceOf(filters: seq<string>, dense: seq<Row>, lexical: nat -> seq<Row>, res: seq<Chunk>, c: Chunk)
    returns (j: nat, row: Row)
    requires IsResult(res, dense, filters, lexical) && c in res
    ensures var events := Events(dense, filters, lexical);
            && SurvivesFrom(events, c.id, j) && row in events[j].rows
            && row.kunnr == c.id && ChunkText(row) == c.text
            && ChunkIn(events[j].rows, c.id) == Some(ChunkText(row))
  {
    hide ChunkText, ChunkIn;
    var events := Events(dense, filters, lexical);
    var fused :| IsFusion(fused, Kunnrs(dense), LexicalIds(filters, lexical), FUSION_K)
      && res == Select(Top(fused), Replay(events));
    TopDistinct(fused, Kunnrs(dense), LexicalIds(filters, lexical));
    SelectionExactly(Top(fused), events);
    var a :| 0 <= a < |res| && res[a] == c;
    j :| SurvivesFrom(events, c.id, j);
    row := ChunkInRow(events[j].rows, c.id);
  }

  lemma FetchedByMatch(
    table: seq<Row>, filters: seq<string>, dense: seq<Row>, lexical: nat -> seq<Row>,
    m: nat, row: Row, esc: Option<char>)
    requires ProperEscape(esc) && FromTable(table, dense, filters, lexical, esc)
    requires m < |filters| && !IsNot(filters[m]) && row in lexical(m)
    ensures Fetching(filters[m], esc)
  {
    hide Evaluate, Condition, CustomerOf, Fetching;
    assert row in table && Evaluate(Condition(filters[m]), row, esc) == Some(true);
    assert Ingested(table);
    var csv: Kna1Row :| row == CustomerOf(csv);
    MatchIsFetching(filters[m], csv, esc);
  }

  // ---------- It is needed ----------

  // Once fetched, and with no later exclusion in its text, the only row's chunk stays in the map.
  lemma {:induction false} OnlyRowStays(
    filters: seq<string>, dense: seq<Row>, lexical: nat -> seq<Row>, row: Row, j: nat, n: nat)
    requires j < n <= |filters| && !IsNot(filters[j]) && lexical(j) == [row]
    requires forall m: nat :: m < |filters| ==> lexical(m) == [] || lexical(m) == [row]
    requires forall l :: j < l < |filters| && IsNot(filters[l]) ==> !Contains(ChunkText(row), Term(filters[l]))
    ensures var m := Filtered(dense, filters[..n], lexical);
            row.kunnr in m && m[row.kunnr] == ChunkText(row)
  {
    hide ChunkText, Contains;
    FilteredNext(dense, filters, lexical, n - 1);
    assert [row][..0] == [];
    if n - 1 > j {
      OnlyRowStays(filters, dense, lexical, row, j, n - 1);
    }
  }

  lemma {:induction false} OnlyIds(filters: seq<string>, lexical: nat -> seq<Row>, row: Row)
    requires forall m: nat :: m < |filters| ==> lexical(m) == [] || lexical(m) == [row]
    ensures forall id :: id in LexicalIds(filters, lexical) ==> id == row.kunnr
  {
    if filters != [] {
      OnlyIds(filters[..|filters| - 1], lexical, row);
    }
  }

  // A search whose passes return the one stored row returns its chunk if that is left in the map.
  lemma OnlyRowResult(filters: seq<string>, lexical: nat -> seq<Row>, row: Row) returns (res: seq<Chunk>)
    requires forall m: nat :: m < |filters| ==> lexical(m) == [] || lexical(m) == [row]
    requires var m := Filtered([row], filters, lexical); row.kunnr in m && m[row.kunnr] == ChunkText(row)
    ensures IsResult(res, [row], filters, lexical) && res == [Chunk(row.kunnr, ChunkText(row))]
  {
    hide ChunkText, Filtered;
    var d, x := Kunnrs([row]), LexicalIds(filters, lexical);
    assert d == [row.kunnr];
    OnlyIds(filters, lexical, row);
    FilteredIsReplay([row], filters, lexical);
    var fused := [(row.kunnr, Fused(d, x, FUSION_K, row.kunnr))];
    assert IsFusion(fused, d, x, FUSION_K);
    assert Top(fused) == [row.kunnr] && [row.kunnr][..0] == [];
    res := Select(Top(fused), Replay(Events([row], filters, lexical)));
    assert Select([], Replay(Events([row], filters, lexical))) == [];
  }

  // What a table of one row answers to each filter.
  function OnlyAnswer(row: Row, filters: seq<string>, esc: Option<char>): nat -> seq<Row> {
    (m: nat) => if m < |filters| then Matching([row], Condition(filters[m]), esc) else []
  }

  // One stored customer leaks: it matches positive filter `j`, and no later NOT filter drops its chunk.
  lemma OnlyRowLeaks(csv: Kna1Row, filters: seq<string>, i: nat, j: nat, esc: Option<char>) returns (res: seq<Chunk>)
    requires i < j < |filters| && IsNot(filters[i]) && !IsNot(filters[j])
    requires Evaluate(Condition(filters[j]), CustomerOf(csv), esc) == Some(true)
    requires Contains(ChunkText(CustomerOf(csv)), Term(filters[i]))
    requires forall l :: j < l < |filters| && IsNot(filters[l]) ==>
               !Contains(ChunkText(CustomerOf(csv)), Term(filters[l]))
    ensures var row := CustomerOf(csv);
            && FromTable([row], [row], filters, OnlyAnswer(row, filters, esc), esc)
            && IsResult(res, [row], filters, OnlyAnswer(row, filters, esc))
            && res == [Chunk(row.kunnr, ChunkText(row))]
  {
    var row := CustomerOf(csv);
    hide ChunkText, Contains, Evaluate, Condition, CustomerOf, FromTable, IsResult;
    var lexical := OnlyAnswer(row, filters, esc);
    OnlyAnswers(csv, filters, esc);
    OnlyRowStays(filters, [row], lexical, row, j, |filters|);
    assert filters[..|filters|] == filters;
    res := OnlyRowResult(filters, lexical, row);
  }

  lemma OnlyAnswers(csv: Kna1Row, filters: seq<string>, esc: Option<char>)
    ensures var row := CustomerOf(csv);
            var lexical := OnlyAnswer(row, filters, esc);
            && FromTable([row], [row], filters, lexical, esc)
            && forall m: nat :: m < |filters| ==>
                 lexical(m) == if Evaluate(Condition(filters[m]), row, esc) == Some(true) then [row] else []
  {
    var row := CustomerOf(csv);
    hide Evaluate, Condition, CustomerOf, Matching;
    var lexical := OnlyAnswer(row, filters, esc);
    forall m: nat | m < |filters|
      ensures lexical(m) == if Evaluate(Condition(filters[m]), row, esc) == Some(true) then [row] else []
    {
      OnlyMatching(row, Condition(filters[m]), esc);
    }
    assert Ingested([row]);
  }

  lemma OnlyMatching(row: Row, sql: string, esc: Option<char>)
    ensures Matching([row], sql, esc) == if Evaluate(sql, row, esc) == Some(true) then [row] else []
  {
    hide Evaluate;
    assert [row][..0] == [];
  }

  // Its key, name and city are the excluded term, its country spends the wildcards of the positive filter.
  lemma WitnessLeaks(filters: seq<string>, i: nat, j: nat, esc: Option<char>) returns (csv: Kna1Row, res: seq<Chunk>)
    requires ProperEscape(esc) && forall l :: 0 <= l < |filters| && IsNot(filters[l]) ==> NoQuote(Term(filters[l]))
    requires i < j < |filters| && IsNot(filters[i]) && Printable(Term(filters[i])) && Fetching(filters[j], esc)
    requires !CoveredAfter(filters, i, j)
    ensures var row := CustomerOf(csv);
            && FromTable([row], [row], filters, OnlyAnswer(row, filters, esc), esc)
            && IsResult(res, [row], filters, OnlyAnswer(row, filters, esc))
            && |res| == 1 && Contains(res[0].text, Term(filters[i]))
  {
    var term := Term(filters[i]);
    csv := Kna1Row(Some(term), Some(term), Some(term), Some(Spent(filters[j], esc)));
    var row := CustomerOf(csv);
    CountryMatches(csv, filters[j], esc);
    TermInChunk(row, term);
    forall l | j < l < |filters| && IsNot(filters[l]) ensures !Contains(ChunkText(row), Term(filters[l])) {
      assert !Covers(filters, i, l);
      if Contains(ChunkText(row), Term(filters[l])) {
        PartOfChunk(row, Term(filters[l]));
        PlainEscaped(term);
        assert false;
      }
    }
    hide ChunkText, Contains;
    res := OnlyRowLeaks(csv, filters, i, j, esc);
  }

  lemma TermInChunk(row: Row, term: string)
    requires Printable(term) && NoQuote(term) && row.city == term
    ensures Contains(ChunkText(row), term)
  {
    ChunkShape(row);
    PlainEscaped(term);
    hide ChunkText, Framing.Escaped, Contains;
    FirstFieldContained(CITY, term, KUNNR, Framing.Escaped(row.kunnr), NAME, Framing.Escaped(row.name), END);
  }

  lemma FirstFieldContained(a: string, c: string, b: string, k: string, d: string, n: string, e: string)
    ensures Contains(a + c + b + k + d + n + e, c)
  {
    hide Contains;
    assert a + c + b + k + d + n + e == a + c + (b + k + d + n + e);
    InfixContained(a, c, b + k + d + n + e);
  }

  // For any filter list that is not guarded, one stored customer suffices to return an excluded term.
  lemma UnguardedLeaks(filters: seq<string>, esc: Option<char>)
    returns (csv: Kna1Row, res: seq<Chunk>, i: nat)
    requires ProperEscape(esc) && forall l :: 0 <= l < |filters| && IsNot(filters[l]) ==> NoQuote(Term(filters[l]))
    requires !Guarded(filters, esc)
    ensures var row := CustomerOf(csv);
            && FromTable([row], [row], filters, OnlyAnswer(row, filters, esc), esc)
            && IsResult(res, [row], filters, OnlyAnswer(row, filters, esc))
    ensures |res| == 1 && i < |filters| && IsNot(filters[i]) && Contains(res[0].text, Term(filters[i]))
  {
    hide CoveredAfter, Contains, Printable, Fetching;
    var a, j :| 0 <= a < j < |filters| && IsNot(filters[a]) && Printable(Term(filters[a]))
      && Fetching(filters[j], esc) && !CoveredAfter(filters, a, j);
    i := a;
    csv, res := WitnessLeaks(filters, i, j, esc);
  }

  // For NOT filters without quotes and backslashes, exclusion holds of exactly the guarded lists.
  lemma ExclusionExactly(filters: seq<string>, esc: Option<char>)
    requires ProperEscape(esc) && forall l :: 0 <= l < |filters| && IsNot(filters[l]) ==> NoQuote(Term(filters[l]))
    ensures Guarded(filters, esc) <==> Excludes(filters, esc)
  {
    hide Guarded, FromTable, IsResult, Contains;
    if Guarded(filters, esc) {
      forall table: seq<Row>, dense: seq<Row>, lexical: nat -> seq<Row>, res: seq<Chunk>, i: nat, c: Chunk |
        && FromTable(table, dense, filters, lexical, esc) && IsResult(res, dense, filters, lexical)
        && i < |filters| && IsNot(filters[i]) && c in res
        ensures !Contains(c.text, Term(filters[i]))
      {
        GuardedExcludes(table, filters, dense, lexical, res, i, c, esc);
      }
    } else {
      var csv, res, i := UnguardedLeaks(filters, esc);
      assert res[0] in res;
    }
  }

  // ---------- Two lists ----------

  lemma PlainChunk(row: Row)
    requires Printable(row.city) && Printable(row.kunnr) && Printable(row.name)
    requires NoQuote(row.city) && NoQuote(row.kunnr) && NoQuote(row.name)
    ensures ChunkText(row) == CITY + row.city + KUNNR + row.kunnr + NAME + row.name + END
  {
    hide *;
    ChunkShape(row);
    PlainEscaped(row.city);
    PlainEscaped(row.kunnr);
    PlainEscaped(row.name);
  }

  // Excluding Berlin and then asking for Acme returns the customer Acme in Berlin.
  lemma BerlinLeaks(esc: Option<char>) returns (csv: Kna1Row, res: seq<Chunk>)
    requires ProperEscape(esc) && NoEscape("Acme", esc)
    ensures csv == Kna1Row(Some("1000"), Some("Acme"), Some("Berlin"), Some("DE"))
    ensures var row, filters := CustomerOf(csv), ["NOT Berlin", "Acme"];
            && FromTable([row], [row], filters, OnlyAnswer(row, filters, esc), esc)
            && IsResult(res, [row], filters, OnlyAnswer(row, filters, esc))
    ensures res == [Chunk("1000", CITY + "Berlin" + KUNNR + "1000" + NAME + "Acme" + END)]
  {
    csv := Kna1Row(Some("1000"), Some("Acme"), Some("Berlin"), Some("DE"));
    var row, filters := CustomerOf(csv), ["NOT Berlin", "Acme"];
    assert row.city == "Berlin" && row.kunnr == "1000" && row.name == "Acme";
    BerlinFilters();
    BerlinPlain();
    AcmeFound(csv, esc);
    hide *;
    TermInChunk(row, "Berlin");
    res := OnlyRowLeaks(csv, filters, 0, 1, esc);
    PlainChunk(row);
  }

  lemma BerlinFilters()
    ensures IsNot("NOT Berlin") && Term("NOT Berlin") == "Berlin" && !IsNot("Acme")
  {
    assert "NOT "[0] != "Acme"[0];
  }

  lemma BerlinPlain()
    ensures Printable("Berlin") && NoQuote("Berlin")
    ensures Printable("1000") && NoQuote("1000")
    ensures Printable("Acme") && NoQuote("Acme")
  {
  }

  lemma AcmeFound(csv: Kna1Row, esc: Option<char>)
    requires ProperEscape(esc) && NoEscape("Acme", esc) && csv.name1 == Some("Acme")
    ensures Evaluate(Condition("Acme"), CustomerOf(csv), esc) == Some(true)
  {
    var row := CustomerOf(csv);
    hide Contains, Like, Pattern, Evaluate, Condition;
    SentenceNames(row.kunnr, row.name, row.city, OrUnknown(csv.land1));
    ContainmentMatches("Acme", row.sentence, esc);
    ConditionMeaning("Acme", row, esc);
  }

  // Every chunk contains "name", so excluding it last guards the list.
  lemma NameIsFixed(esc: Option<char>)
    ensures Guarded(["NOT Berlin", "Acme", "NOT name"], esc)
  {
    var filters := ["NOT Berlin", "Acme", "NOT name"];
    assert Term(filters[2]) == "name" && IsNot(filters[2]);
    assert NAME == "\",\"" + "name" + "\":\"";
    InfixContained("\",\"", "name", "\":\"");
    hide Contains;
    assert Covers(filters, 0, 2);
    BerlinFilters();
    forall i, j | 0 <= i < j < |filters| && IsNot(filters[i]) && Fetching(filters[j], esc)
      ensures CoveredAfter(filters, i, j)
    {
      assert i == 0 && j == 1;
    }
  }
}
