/**
 JSON-lines framing: the HTTP gateway joins the writer's lines into one array (section 5 of
 RFC 8259), and the CLI takes the same lines one by one. A reader of the array is fixed here by a
 scanner that respects strings, escapes and nesting. Text stands for its UTF-8 bytes: every
 character that framing looks at is ASCII.
 */
module Framing {
  import opened Outcomes
  import opened Text

  // ---------- Framing ----------

  // The pieces between newlines, including empty ones.
  function Pieces(raw: string): (pieces: seq<string>)
    ensures pieces != []
  {
    if raw == "" then [""]
    else
      var init := Pieces(raw[..|raw| - 1]);
      if raw[|raw| - 1] == '\n' then init + [""]
      else init[..|init| - 1] + [init[|init| - 1] + [raw[|raw| - 1]]]
  }

  function StripReturn(line: string): string {
    if EndsWith(line, "\r") then line[..|line| - 1] else line
  }

  function NonEmpty(lines: seq<string>): seq<string> {
    if lines == [] then []
    else NonEmpty(lines[..|lines| - 1]) + if lines[|lines| - 1] == "" then [] else [lines[|lines| - 1]]
  }

  function Stripped(pieces: seq<string>): seq<string> {
    seq(|pieces|, i requires 0 <= i < |pieces| => StripReturn(pieces[i]))
  }

  function Framed(records: seq<string>): string {
    "[" + Join(records, ",") + "]"
  }

  lemma {:induction false} JoinNext(parts: seq<string>, last: string)
    ensures Join(parts + [last], ",") == if parts == [] then last else Join(parts, ",") + "," + last
  {
    if parts != [] {
      assert (parts + [last])[1..] == parts[1..] + [last];
      JoinNext(parts[1..], last);
      if |parts| > 1 {
        assert Join(parts + [last], ",") == parts[0] + "," + (Join(parts[1..], ",") + "," + last);
      }
    }
  }

  lemma FrameNext(lines: seq<string>, i: nat)
    requires i < |lines|
    ensures var done, next := NonEmpty(lines[..i]), NonEmpty(lines[..i + 1]);
            if lines[i] == "" then next == done
            else next != [] && "[" + Join(next, ",") ==
                 (if done == [] then "[" + Join(done, ",") else "[" + Join(done, ",") + ",") + lines[i]
  {
    assert lines[..i + 1][..i] == lines[..i];
    var done := NonEmpty(lines[..i]);
    if lines[i] == "" {
      assert done + [] == done;
    } else {
      JoinNext(done, lines[i]);
      if done == [] {
        assert "[" + "" + lines[i] == "[" + lines[i];
      } else {
        assert "[" + (Join(done, ",") + "," + lines[i]) == "[" + Join(done, ",") + "," + lines[i];
      }
    }
  }

  /** The gateway's framing loop, for any text of lines. */
  method FrameLines(rawLines: string) returns (wireBuffer: string)
    ensures wireBuffer == Framed(NonEmpty(Stripped(Pieces(rawLines))))
  {
    var lines := Pieces(rawLines);
    ghost var stripped := Stripped(lines);
    wireBuffer := "[";
    var first := true;
    for i := 0 to |lines|
      invariant first <==> NonEmpty(stripped[..i]) == []
      invariant wireBuffer == "[" + Join(NonEmpty(stripped[..i]), ",")
    {
      FrameNext(stripped, i);
      var line := lines[i];
      var trimmed := if EndsWith(line, "\r") then line[..|line| - 1] else line;
      if trimmed == "" {
        continue;
      }
      if !first {
        wireBuffer := wireBuffer + ",";
      }
      wireBuffer := wireBuffer + trimmed;
      first := false;
    }
    assert stripped[..|stripped|] == stripped;
    wireBuffer := wireBuffer + "]";
  }

  // ---------- Lines one by one ----------

  // Rust's `lines`: a return is stripped only before a newline, and a last empty piece is no line.
  function Lines(raw: string): seq<string> {
    var pieces := Pieces(raw);
    var n := |pieces| - 1;
    Stripped(pieces[..n]) + if pieces[n] == "" then [] else [pieces[n]]
  }

  function TrimAll(lines: seq<string>): seq<string> {
    seq(|lines|, i requires 0 <= i < |lines| => Trim(lines[i]))
  }

  function JsonLines(raw: string): seq<string> {
    NonEmpty(TrimAll(Lines(raw)))
  }

  // ---------- The array reader ----------

  datatype Scan = Scan(depth: nat, inString: bool, escaped: bool)

  const TOP_LEVEL := Scan(0, false, false)

  function Step(st: Scan, c: char): Scan {
    if st.escaped then st.(escaped := false)
    else if st.inString then
      if c == '\\' then st.(escaped := true) else if c == '"' then st.(inString := false) else st
    else if c == '"' then st.(inString := true)
    else if c == '[' || c == '{' then st.(depth := st.depth + 1)
    else if (c == ']' || c == '}') && st.depth > 0 then st.(depth := st.depth - 1)
    else st
  }

  // Cuts at the commas outside strings and brackets.
  function SplitTop(s: string, st: Scan, current: string): seq<string> {
    if s == "" then [current]
    else if s[0] == ',' && st == TOP_LEVEL then [current] + SplitTop(s[1..], TOP_LEVEL, "")
    else SplitTop(s[1..], Step(st, s[0]), current + [s[0]])
  }

  function Unframe(text: string): Option<seq<string>> {
    if |text| < 2 || text[0] != '[' || text[|text| - 1] != ']' then None
    else if |text| == 2 then Some([])
    else Some(SplitTop(text[1..|text| - 1], TOP_LEVEL, ""))
  }

  function Scanned(s: string, st: Scan): Scan {
    if s == "" then st else Scanned(s[1..], Step(st, s[0]))
  }

  predicate NoTopComma(s: string, st: Scan) {
    s == "" || (!(s[0] == ',' && st == TOP_LEVEL) && NoTopComma(s[1..], Step(st, s[0])))
  }

  // Balanced, quotes and escapes respected, with no comma outside.
  predicate SelfContained(s: string) {
    Scanned(s, TOP_LEVEL) == TOP_LEVEL && NoTopComma(s, TOP_LEVEL)
  }

  lemma {:induction false} SplitAfter(s: string, st: Scan, current: string, rest: string)
    requires Scanned(s, st) == TOP_LEVEL && NoTopComma(s, st)
    ensures SplitTop(s, st, current) == [current + s]
    ensures SplitTop(s + "," + rest, st, current) == [current + s] + SplitTop(rest, TOP_LEVEL, "")
  {
    if s == "" {
      assert ("" + "," + rest)[1..] == rest;
      assert current + "" == current;
    } else {
      assert (s + "," + rest)[1..] == s[1..] + "," + rest;
      SplitAfter(s[1..], Step(st, s[0]), current + [s[0]], rest);
      assert current + [s[0]] + s[1..] == current + s;
    }
  }

  lemma {:induction false} SplitJoined(records: seq<string>)
    requires records != [] && forall r :: r in records ==> SelfContained(r)
    ensures SplitTop(Join(records, ","), TOP_LEVEL, "") == records
  {
    var r := records[0];
    assert r in records && "" + r == r;
    if |records| == 1 {
      SplitAfter(r, TOP_LEVEL, "", "");
    } else {
      var rest := Join(records[1..], ",");
      SplitAfter(r, TOP_LEVEL, "", rest);
      SplitJoined(records[1..]);
      assert records == [r] + records[1..];
    }
  }

  // Splitting a framed array gives back the records.
  lemma UnframeFramed(records: seq<string>)
    requires forall r :: r in records ==> SelfContained(r) && r != ""
    ensures Unframe(Framed(records)) == Some(records)
  {
    var inner := Join(records, ",");
    assert Framed(records)[1..|Framed(records)| - 1] == inner;
    if records != [] {
      SplitJoined(records);
      assert records[0] in records;
    }
  }

  // ---------- The writer's lines ----------

  function Emit(records: seq<string>): string {
    if records == [] then "" else Emit(records[..|records| - 1]) + records[|records| - 1] + "\n"
  }

  lemma {:induction false} PiecesNext(raw: string, line: string)
    requires '\n' !in line
    ensures Pieces(raw + line) ==
            Pieces(raw)[..|Pieces(raw)| - 1] + [Pieces(raw)[|Pieces(raw)| - 1] + line]
  {
    if line == "" {
      assert raw + line == raw;
      assert Pieces(raw)[|Pieces(raw)| - 1] + "" == Pieces(raw)[|Pieces(raw)| - 1];
    } else {
      var n := |line| - 1;
      assert (raw + line)[..|raw + line| - 1] == raw + line[..n];
      PiecesNext(raw, line[..n]);
      assert Pieces(raw)[|Pieces(raw)| - 1] + line[..n] + [line[n]] == Pieces(raw)[|Pieces(raw)| - 1] + line;
    }
  }

  lemma {:induction false} EmittedPieces(records: seq<string>)
    requires forall r :: r in records ==> '\n' !in r
    ensures Pieces(Emit(records)) == records + [""]
  {
    if records != [] {
      var init, last := records[..|records| - 1], records[|records| - 1];
      EmittedPieces(init);
      PiecesNext(Emit(init), last);
      var raw := Emit(init) + last;
      assert "" + last == last;
      assert Pieces(raw) == init + [last];
      assert (raw + "\n")[..|raw + "\n"| - 1] == raw;
      assert records == init + [last];
    }
  }

  lemma {:induction false} NonEmptyAll(lines: seq<string>)
    requires forall i :: 0 <= i < |lines| ==> |lines[i]| > 0
    ensures NonEmpty(lines) == lines
  {
    if lines != [] {
      assert lines == lines[..|lines| - 1] + [lines[|lines| - 1]];
      NonEmptyAll(lines[..|lines| - 1]);
    }
  }

  ghost predicate LineRecord(r: string) {
    r != "" && Trimmed(r) && '\n' !in r
  }

  lemma StripIdle(records: seq<string>)
    requires forall r :: r in records ==> LineRecord(r)
    ensures Stripped(records) == records && TrimAll(records) == records
  {
    forall i | 0 <= i < |records| ensures StripReturn(records[i]) == records[i] && Trim(records[i]) == records[i] {
      var r := records[i];
      assert r in records;
      assert "" + r + "" == r;
      TrimPadded("", r, "");
      assert r[|r| - 1..] == [r[|r| - 1]];
    }
  }

  lemma StripAppend(records: seq<string>)
    ensures Stripped(records + [""]) == Stripped(records) + [""]
    ensures NonEmpty(records + [""]) == NonEmpty(records)
  {
    assert (records + [""])[..|records|] == records;
    assert NonEmpty(records) + [] == NonEmpty(records);
  }

  // Both consumers see exactly the records that were written.
  lemma ConsumersAgree(records: seq<string>)
    requires forall r :: r in records ==> LineRecord(r)
    ensures NonEmpty(Stripped(Pieces(Emit(records)))) == records
    ensures JsonLines(Emit(records)) == records
  {
    EmittedPieces(records);
    forall i | 0 <= i < |records| ensures |records[i]| > 0 {
      assert records[i] in records;
    }
    NonEmptyAll(records);
    StripIdle(records);
    StripAppend(records);
    assert (records + [""])[..|records|] == records;
    assert Lines(Emit(records)) == Stripped(records) + [] == records;
  }

  // ---------- Any line ends ----------

  // Each line ends in a newline, with a return before it or without.
  function Ended(lines: seq<string>, carriage: seq<bool>): seq<string>
    requires |lines| == |carriage|
  {
    seq(|lines|, i requires 0 <= i < |lines| => lines[i] + if carriage[i] then "\r" else "")
  }

  lemma EndedPieces(ended: seq<string>, last: string)
    requires '\n' !in last && forall r :: r in ended ==> '\n' !in r
    ensures Pieces(Emit(ended) + last) == ended + [last]
  {
    EmittedPieces(ended);
    PiecesNext(Emit(ended), last);
    assert "" + last == last;
    assert (ended + [""])[..|ended|] == ended;
  }

  lemma StripEnd(line: string, carriage: bool)
    requires carriage || !EndsWith(line, "\r")
    ensures StripReturn(line + if carriage then "\r" else "") == line
  {
    if carriage {
      assert (line + "\r")[|line|..] == "\r" && (line + "\r")[..|line|] == line;
    } else {
      assert line + "" == line;
    }
  }

  // The framing sees the lines whatever their ends are, and the text after the last newline too.
  lemma AnyLineEnds(lines: seq<string>, carriage: seq<bool>, last: string)
    requires |lines| == |carriage| && '\n' !in last && !EndsWith(last, "\r")
    requires forall i :: 0 <= i < |lines| ==> '\n' !in lines[i] && (carriage[i] || !EndsWith(lines[i], "\r"))
    ensures Stripped(Pieces(Emit(Ended(lines, carriage)) + last)) == lines + [last]
  {
    var ended := Ended(lines, carriage);
    hide Pieces, Emit, EndsWith;
    forall r | r in ended ensures '\n' !in r {
      var i :| 0 <= i < |ended| && ended[i] == r;
    }
    EndedPieces(ended, last);
    StripEnd(last, false);
    hide StripReturn;
    assert last + "" == last;
    forall i | 0 <= i < |lines| ensures StripReturn(ended[i]) == lines[i] {
      StripEnd(lines[i], carriage[i]);
    }
  }

  // Empty lines leave no trace.
  lemma {:induction false} EmptyLineDropped(before: seq<string>, after: seq<string>)
    ensures NonEmpty(before + [""] + after) == NonEmpty(before + after)
  {
    if after == [] {
      assert (before + [""])[..|before|] == before && before + after == before;
      assert before + [""] + after == before + [""];
      assert NonEmpty(before) + [] == NonEmpty(before);
    } else {
      var init := after[..|after| - 1];
      EmptyLineDropped(before, init);
      assert (before + [""] + after)[..|before + [""] + after| - 1] == before + [""] + init;
      assert (before + after)[..|before + after| - 1] == before + init;
    }
  }

  // ---------- Where the consumers differ ----------

  function TotalLength(lines: seq<string>): nat {
    if lines == [] then 0 else TotalLength(lines[..|lines| - 1]) + |lines[|lines| - 1]|
  }

  lemma {:induction false} NonEmptyLength(lines: seq<string>)
    ensures TotalLength(NonEmpty(lines)) == TotalLength(lines)
  {
    if lines != [] {
      var init, last := NonEmpty(lines[..|lines| - 1]), lines[|lines| - 1];
      NonEmptyLength(lines[..|lines| - 1]);
      if last == "" {
        assert init + [] == init;
      } else {
        assert (init + [last])[..|init|] == init;
      }
    }
  }

  lemma TrimLength(l: string)
    ensures |Trim(l)| <= |l| && (|Trim(l)| == |l| <==> Trimmed(l)) && (Trimmed(l) ==> Trim(l) == l)
  {
    var before, after := TrimSplits(l);
    if Trimmed(l) {
      assert "" + l + "" == l;
      TrimPadded("", l, "");
    }
    if |Trim(l)| == |l| {
      assert before == "" && after == "" && "" + Trim(l) + "" == Trim(l);
    }
  }

  lemma {:induction false} TrimAllLength(lines: seq<string>)
    ensures TotalLength(TrimAll(lines)) <= TotalLength(lines)
    ensures TotalLength(TrimAll(lines)) == TotalLength(lines) <==> forall i :: 0 <= i < |lines| ==> Trimmed(lines[i])
  {
    if lines != [] {
      var n := |lines| - 1;
      TrimAllLength(lines[..n]);
      TrimLength(lines[n]);
      assert TrimAll(lines)[..n] == TrimAll(lines[..n]);
      assert (forall i :: 0 <= i < n ==> Trimmed(lines[i])) <==> (forall i :: 0 <= i < n ==> Trimmed(lines[..n][i]));
    }
  }

  lemma TrimAfterStrip(l: string)
    ensures Trim(StripReturn(l)) == Trim(l)
  {
    if EndsWith(l, "\r") {
      var before, after := TrimSplits(StripReturn(l));
      var core := Trim(StripReturn(l));
      assert l == StripReturn(l) + l[|l| - 1..];
      assert l == before + core + (after + "\r");
      TrimPadded(before, core, after + "\r");
    }
  }

  lemma JsonLinesOfPieces(raw: string)
    ensures JsonLines(raw) == NonEmpty(TrimAll(Stripped(Pieces(raw))))
  {
    var pieces := Pieces(raw);
    var n := |pieces| - 1;
    var init, last := Stripped(pieces[..n]), pieces[n];
    assert Stripped(pieces) == init + [StripReturn(last)];
    TrimAfterStrip(last);
    TrimAllSnoc(init, StripReturn(last));
    NonEmptySnoc(TrimAll(init), Trim(last));
    if last == "" {
      assert init + [] == init;
    } else {
      TrimAllSnoc(init, last);
    }
  }

  lemma TrimAllSnoc(lines: seq<string>, last: string)
    ensures TrimAll(lines + [last]) == TrimAll(lines) + [Trim(last)]
  {
  }

  lemma NonEmptySnoc(lines: seq<string>, last: string)
    ensures NonEmpty(lines + [last]) == if last == "" then NonEmpty(lines) else NonEmpty(lines) + [last]
  {
    assert (lines + [last])[..|lines|] == lines;
  }

  // On any text the two consumers agree exactly when no line has white space around it.
  lemma ConsumersAgreeExactly(raw: string)
    ensures var lines := Stripped(Pieces(raw));
            JsonLines(raw) == NonEmpty(lines) <==> forall i :: 0 <= i < |lines| ==> Trimmed(lines[i])
  {
    var lines := Stripped(Pieces(raw));
    JsonLinesOfPieces(raw);
    NonEmptyLength(lines);
    NonEmptyLength(TrimAll(lines));
    TrimAllLength(lines);
    if forall i :: 0 <= i < |lines| ==> Trimmed(lines[i]) {
      forall i | 0 <= i < |lines| ensures Trim(lines[i]) == lines[i] {
        TrimLength(lines[i]);
      }
      assert TrimAll(lines) == lines;
    }
  }

  // ---------- JSON records ----------

  datatype Json =
    | Null
    | Bool(value: bool)
    | Number(text: string)
    | Str(content: string)
    | Arr(items: seq<Json>)
    | Obj(fields: seq<Field>)

  datatype Field = Field(key: string, value: Json)

  predicate NumberChar(c: char) {
    '0' <= c <= '9' || c == '-' || c == '+' || c == '.' || c == 'e' || c == 'E'
  }

  predicate WellFormed(j: Json)
    decreases j
  {
    match j
    case Number(text) => text != "" && forall i :: 0 <= i < |text| ==> NumberChar(text[i])
    case Arr(items) => forall i :: 0 <= i < |items| ==> WellFormed(items[i])
    case Obj(fields) => forall i :: 0 <= i < |fields| ==> WellFormed(fields[i].value)
    case _ => true
  }

  function HexDigit(n: nat): char
    requires n < 16
  {
    "0123456789abcdef"[n]
  }

  // Section 7 of RFC 8259: quote, backslash and control characters are escaped.
  function EscapeChar(c: char): string {
    if c == '"' then "\\\"" else if c == '\\' then "\\\\"
    else if c == '\n' then "\\n" else if c == '\r' then "\\r" else if c == '\t' then "\\t"
    else if c == '\U{8}' then "\\b" else if c == '\U{C}' then "\\f"
    else if c < ' ' then "\\u00" + [HexDigit(c as int / 16), HexDigit(c as int % 16)]
    else [c]
  }

  function Escaped(s: string): string {
    if s == "" then "" else EscapeChar(s[0]) + Escaped(s[1..])
  }

  function Quoted(s: string): string {
    "\"" + Escaped(s) + "\""
  }

  // ---------- Reading escapes back ----------

  function HexValue(c: char): int {
    if '0' <= c <= '9' then c as int - '0' as int
    else if 'a' <= c <= 'f' then c as int - 'a' as int + 10
    else if 'A' <= c <= 'F' then c as int - 'A' as int + 10
    else -1
  }

  // The character of an escape sequence at the head of the text and the length of the sequence; of the numeric
  // ones those below 256.
  function Unescape(s: string): Option<(char, nat)> {
    if |s| < 2 || s[0] != '\\' then None
    else if s[1] == '"' || s[1] == '\\' || s[1] == '/' then Some((s[1], 2))
    else if s[1] == 'n' then Some(('\n', 2)) else if s[1] == 'r' then Some(('\r', 2))
    else if s[1] == 't' then Some(('\t', 2)) else if s[1] == 'b' then Some(('\U{8}', 2))
    else if s[1] == 'f' then Some(('\U{C}', 2))
    else if s[1] == 'u' && |s| >= 6 && s[2] == '0' && s[3] == '0' && HexValue(s[4]) >= 0 && HexValue(s[5]) >= 0
    then Some(((HexValue(s[4]) * 16 + HexValue(s[5])) as char, 6))
    else None
  }

  // The content of a JSON string between its quotes.
  function Unescaped(s: string): Option<string>
    decreases |s|
  {
    if s == "" then Some("")
    else if s[0] != '\\' then
      if s[0] == '"' || s[0] < ' ' then None else Cons(s[0], Unescaped(s[1..]))
    else
      match Unescape(s)
      case None => None
      case Some((c, n)) => if 0 < n <= |s| then Cons(c, Unescaped(s[n..])) else None
  }

  function Cons(c: char, rest: Option<string>): Option<string> {
    if rest.Some? then Some([c] + rest.value) else None
  }

  lemma HexBack(n: nat)
    requires n < 16
    ensures HexValue(HexDigit(n)) == n
  {
  }

  lemma CharBack(c: char, rest: string)
    ensures if c == '"' || c == '\\' || c < ' ' then Unescape(EscapeChar(c) + rest) == Some((c, |EscapeChar(c)|))
            else EscapeChar(c) == [c]
  {
    var s := EscapeChar(c) + rest;
    if c < ' ' {
      HexBack(c as int / 16);
      HexBack(c as int % 16);
      assert forall i :: 0 <= i < |EscapeChar(c)| ==> s[i] == EscapeChar(c)[i];
    }
  }

  // Every string is read back from its escaped form.
  lemma {:induction false} EscapedBack(s: string)
    ensures Unescaped(Escaped(s)) == Some(s)
  {
    if s != "" {
      var c, rest := s[0], Escaped(s[1..]);
      EscapedBack(s[1..]);
      CharBack(c, rest);
      hide EscapeChar, Unescape;
      EscapeStarts(c);
      assert (EscapeChar(c) + rest)[|EscapeChar(c)|..] == rest;
      assert s == [c] + s[1..];
    }
  }

  lemma EscapeStarts(c: char)
    ensures if c == '"' || c == '\\' || c < ' ' then |EscapeChar(c)| > 1 && EscapeChar(c)[0] == '\\'
            else EscapeChar(c) == [c]
  {
  }

  // ---------- Printing values ----------

  // The compact text of a value, as the writer prints it.
  function Print(j: Json): string
    decreases j, 1
  {
    match j
    case Null => "null"
    case Bool(value) => if value then "true" else "false"
    case Number(text) => text
    case Str(content) => Quoted(content)
    case Arr(items) => "[" + PrintItems(items) + "]"
    case Obj(fields) => "{" + PrintFields(fields) + "}"
  }

  function PrintItems(items: seq<Json>): string
    decreases items, 0
  {
    if items == [] then ""
    else if |items| == 1 then Print(items[0])
    else Print(items[0]) + "," + PrintItems(items[1..])
  }

  function PrintFields(fields: seq<Field>): string
    decreases fields, 0
  {
    if fields == [] then ""
    else
      var first := Quoted(fields[0].key) + ":" + Print(fields[0].value);
      if |fields| == 1 then first else first + "," + PrintFields(fields[1..])
  }

  // Scanning `s` from `st` comes back to `st`, passing no top-level comma and no newline.
  predicate Neutral(s: string, st: Scan) {
    Scanned(s, st) == st && NoTopComma(s, st) && '\n' !in s
  }

  predicate Outside(st: Scan) {
    !st.inString && !st.escaped
  }

  lemma {:induction false} ScanConcat(a: string, b: string, st: Scan)
    ensures Scanned(a + b, st) == Scanned(b, Scanned(a, st))
    ensures NoTopComma(a + b, st) <==> NoTopComma(a, st) && NoTopComma(b, Scanned(a, st))
  {
    if a == "" {
      assert a + b == b;
    } else {
      assert (a + b)[1..] == a[1..] + b;
      ScanConcat(a[1..], b, Step(st, a[0]));
    }
  }

  lemma NeutralConcat(a: string, b: string, st: Scan)
    requires Neutral(a, st) && Neutral(b, st)
    ensures Neutral(a + b, st)
  {
    ScanConcat(a, b, st);
  }

  // Characters that do not move the scanner.
  lemma {:induction false} PlainNeutral(s: string, st: Scan)
    requires Outside(st)
    requires forall i :: 0 <= i < |s| ==> s[i] !in "\"[]{}\n" && (s[i] == ',' ==> st.depth > 0)
    ensures Neutral(s, st)
  {
    if s != "" {
      PlainNeutral(s[1..], st);
      assert s == [s[0]] + s[1..];
    }
  }

  lemma CharNeutral(c: char, st: Scan)
    requires st.inString && !st.escaped
    ensures Neutral(EscapeChar(c), st)
  {
    if EscapeChar(c) == [c] {
      InStringNeutral([c], st);
    } else if |EscapeChar(c)| == 2 {
      EscapePairNeutral(EscapeChar(c)[1], st);
      assert EscapeChar(c) == ['\\', EscapeChar(c)[1]];
    } else {
      var hex := "00" + [HexDigit(c as int / 16), HexDigit(c as int % 16)];
      EscapePairNeutral('u', st);
      InStringNeutral(hex, st);
      NeutralConcat(['\\', 'u'], hex, st);
      assert EscapeChar(c) == ['\\', 'u'] + hex;
    }
  }

  lemma EscapePairNeutral(x: char, st: Scan)
    requires st.inString && !st.escaped && x != '\n'
    ensures Neutral(['\\', x], st)
  {
    var s := ['\\', x];
    assert s[1..] == [x] && s[1..][1..] == "";
    assert Scanned([x], st.(escaped := true)) == st;
  }

  lemma {:induction false} InStringNeutral(s: string, st: Scan)
    requires st.inString && !st.escaped && forall i :: 0 <= i < |s| ==> s[i] !in "\"\\\n"
    ensures Neutral(s, st)
  {
    if s != "" {
      InStringNeutral(s[1..], st);
      assert s == [s[0]] + s[1..];
    }
  }

  lemma {:induction false} EscapedNeutral(s: string, st: Scan)
    requires st.inString && !st.escaped
    ensures Neutral(Escaped(s), st)
  {
    if s != "" {
      CharNeutral(s[0], st);
      EscapedNeutral(s[1..], st);
      NeutralConcat(EscapeChar(s[0]), Escaped(s[1..]), st);
    }
  }

  // Text wrapped in an opening and a closing character.
  lemma WrappedNeutral(open: char, inner: string, close: char, st: Scan)
    requires Neutral(inner, Step(st, open)) && Step(Step(st, open), close) == st
    requires open != ',' && close != ',' && open != '\n' && close != '\n'
    ensures Neutral([open] + inner + [close], st)
  {
    ScanConcat([open], inner, st);
    ScanConcat([open] + inner, [close], st);
  }

  lemma QuotedNeutral(s: string, st: Scan)
    requires Outside(st)
    ensures Neutral(Quoted(s), st)
  {
    EscapedNeutral(s, st.(inString := true));
    WrappedNeutral('"', Escaped(s), '"', st);
    assert Quoted(s) == ['"'] + Escaped(s) + ['"'];
  }

  lemma {:induction false} PrintNeutral(j: Json, st: Scan)
    requires WellFormed(j) && Outside(st)
    ensures Neutral(Print(j), st)
    decreases j, 1
  {
    match j
    case Str(content) => QuotedNeutral(content, st);
    case Arr(items) =>
      ItemsNeutral(items, st.(depth := st.depth + 1));
      WrappedNeutral('[', PrintItems(items), ']', st);
      assert Print(j) == ['['] + PrintItems(items) + [']'];
    case Obj(fields) =>
      FieldsNeutral(fields, st.(depth := st.depth + 1));
      WrappedNeutral('{', PrintFields(fields), '}', st);
      assert Print(j) == ['{'] + PrintFields(fields) + ['}'];
    case _ => PlainNeutral(Print(j), st);
  }

  lemma {:induction false} ItemsNeutral(items: seq<Json>, st: Scan)
    requires (forall i :: 0 <= i < |items| ==> WellFormed(items[i])) && Outside(st) && st.depth > 0
    ensures Neutral(PrintItems(items), st)
    decreases items, 0
  {
    if items != [] {
      PrintNeutral(items[0], st);
      if |items| > 1 {
        ItemsNeutral(items[1..], st);
        PlainNeutral(",", st);
        NeutralConcat(Print(items[0]), ",", st);
        NeutralConcat(Print(items[0]) + ",", PrintItems(items[1..]), st);
      }
    }
  }

  lemma {:induction false} FieldsNeutral(fields: seq<Field>, st: Scan)
    requires (forall i :: 0 <= i < |fields| ==> WellFormed(fields[i].value)) && Outside(st) && st.depth > 0
    ensures Neutral(PrintFields(fields), st)
    decreases fields, 0
  {
    if fields != [] {
      var key, value := Quoted(fields[0].key), Print(fields[0].value);
      QuotedNeutral(fields[0].key, st);
      PlainNeutral(":", st);
      PrintNeutral(fields[0].value, st);
      NeutralConcat(key, ":", st);
      NeutralConcat(key + ":", value, st);
      if |fields| > 1 {
        FieldsNeutral(fields[1..], st);
        PlainNeutral(",", st);
        NeutralConcat(key + ":" + value, ",", st);
        NeutralConcat(key + ":" + value + ",", PrintFields(fields[1..]), st);
      }
    }
  }

  function PrintAll(records: seq<Json>): seq<string> {
    seq(|records|, i requires 0 <= i < |records| => Print(records[i]))
  }

  // For any JSON objects: framing the written lines and splitting the array again gives back their
  // texts in order, and so does taking the lines one by one.
  lemma FramingRoundTrip(records: seq<Json>)
    requires forall r :: r in records ==> r.Obj? && WellFormed(r)
    ensures var raw, texts := Emit(PrintAll(records)), PrintAll(records);
            && Unframe(Framed(NonEmpty(Stripped(Pieces(raw))))) == Some(texts)
            && JsonLines(raw) == texts
  {
    var texts := PrintAll(records);
    forall i | 0 <= i < |texts| ensures LineRecord(texts[i]) && SelfContained(texts[i]) {
      assert records[i] in records;
      PrintNeutral(records[i], TOP_LEVEL);
      assert texts[i] == "{" + PrintFields(records[i].fields) + "}";
    }
    ConsumersAgree(texts);
    UnframeFramed(texts);
  }
}
