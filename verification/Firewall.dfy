/**
 The anti-hallucination firewall: stripping Markdown fences from model output, and accepting an
 answer only with a verbatim quote from the chunk it cites. JSON decoding is a parameter.
 */
module Firewall {
  import opened Outcomes
  import opened Text

  const FENCE := "```"

  // ---------- Fence stripping ----------

  function DropOpening(s: string): string {
    if FENCE <= s then if "json" <= s[3..] then s[7..] else s[3..] else s
  }

  function DropClosing(s: string): string {
    if EndsWith(s, FENCE) then s[..|s| - 3] else s
  }

  // Drop an opening fence with an optional tag, drop a closing fence, and trim throughout.
  function Cleaned(raw: string): string {
    Trim(DropClosing(Trim(DropOpening(Trim(raw)))))
  }

  lemma TrimSkipsNewline(s: string)
    requires s != "" && s[0] == '\n'
    ensures Trim(s) == Trim(s[1..])
  {
  }

  // The four prefixes that the program tries in turn amount to a fence with an optional tag.
  method CleanJson(rawOutput: string) returns (cleanJson: string)
    ensures cleanJson == Cleaned(rawOutput)
  {
    cleanJson := Trim(rawOutput);
    ghost var s := cleanJson;
    assert "```json\n" == FENCE + "json" + "\n" && "```json" == FENCE + "json" && "```\n" == FENCE + "\n";
    PrefixConcat(s, FENCE + "json", "\n");
    PrefixConcat(s, FENCE, "json");
    PrefixConcat(s, FENCE, "\n");
    if "```json\n" <= cleanJson {
      cleanJson := cleanJson[8..];
      assert s[7..][1..] == s[8..];
      TrimSkipsNewline(s[7..]);
    } else if "```json" <= cleanJson {
      cleanJson := cleanJson[7..];
    } else if "```\n" <= cleanJson {
      cleanJson := cleanJson[4..];
      assert s[3..][1..] == s[4..];
      TrimSkipsNewline(s[3..]);
    } else if FENCE <= cleanJson {
      cleanJson := cleanJson[3..];
    }
    assert Trim(cleanJson) == Trim(DropOpening(s));
    cleanJson := Trim(cleanJson);
    if EndsWith(cleanJson, FENCE) {
      cleanJson := cleanJson[..|cleanJson| - 3];
    }
    cleanJson := Trim(cleanJson);
  }

  lemma DropOpeningContained(s: string)
    ensures Contains(s, DropOpening(s))
  {
    var n := |s| - |DropOpening(s)|;
    assert DropOpening(s) == s[n..] == s[n..|s|];
    SliceContained(s, n, |s|);
  }

  lemma DropClosingContained(s: string)
    ensures Contains(s, DropClosing(s))
  {
    var n := |DropClosing(s)|;
    assert DropClosing(s) == s[..n] == s[0..n];
    SliceContained(s, 0, n);
  }

  // What is decoded is a contiguous part of what the model wrote.
  lemma CleanedIsInfix(raw: string)
    ensures Contains(raw, Cleaned(raw))
  {
    var first := Trim(raw);
    var unfenced := DropOpening(first);
    var second := Trim(unfenced);
    var closed := DropClosing(second);
    TrimContained(raw);
    DropOpeningContained(first);
    TrimContained(unfenced);
    DropClosingContained(second);
    TrimContained(closed);
    ContainsTransitive(raw, first, unfenced);
    ContainsTransitive(raw, unfenced, second);
    ContainsTransitive(raw, second, closed);
    ContainsTransitive(raw, closed, Cleaned(raw));
  }

  // Trimming does not keep appended white space.
  lemma TrimNoLonger(x: string, pad: string)
    requires Blank(pad)
    ensures |Trim(x + pad)| <= |x|
  {
    var a, b := TrimSplits(x + pad);
    var t := Trim(x + pad);
    if t != "" {
      assert (x + pad)[|a| + |t| - 1] == t[|t| - 1];
    }
  }

  // Without fences around it, a payload survives exactly when it has none of its own at its ends.
  lemma BareForm(a: string, p: string, d: string)
    requires Blank(a) && Blank(d) && Trimmed(p)
    ensures Cleaned(a + p + d) == p <==> !(FENCE <= p) && !EndsWith(p, FENCE)
  {
    TrimPadded(a, p, d);
    var unfenced := DropOpening(p);
    var closed := DropClosing(Trim(unfenced));
    TrimShrinks(unfenced);
    TrimShrinks(closed);
    if !(FENCE <= p) {
      TrimIdle(p);
    }
  }

  lemma TrimShrinks(s: string)
    ensures |Trim(s)| <= |s|
  {
    var a, b := TrimSplits(s);
  }

  lemma TrimIdle(p: string)
    requires Trimmed(p)
    ensures Trim(p) == p
  {
    assert "" + p + "" == p;
    TrimPadded("", p, "");
  }

  // After the opening fence: a payload followed by a closing fence is recovered.
  lemma ClosedPayload(b: string, p: string, c: string)
    requires Blank(b) && Blank(c) && Trimmed(p)
    ensures Trim(DropClosing(Trim(b + p + c + FENCE))) == p
  {
    if p == "" {
      assert b + p + c + FENCE == (b + c) + FENCE + "";
      TrimPadded(b + c, FENCE, "");
      assert DropClosing(FENCE) == "";
      assert Trim("") == "";
    } else {
      var payload := p + c + FENCE;
      assert b + p + c + FENCE == b + payload + "";
      TrimPadded(b, payload, "");
      assert DropClosing(payload) == p + c;
      assert p + c == "" + p + c;
      TrimPadded("", p, c);
    }
  }

  lemma TrimFenced(a: string, inner: string, d: string)
    requires Blank(a) && Blank(d)
    ensures Trim(a + FENCE + inner + FENCE + d) == FENCE + inner + FENCE
  {
    assert a + FENCE + inner + FENCE + d == a + (FENCE + inner + FENCE) + d;
    TrimPadded(a, FENCE + inner + FENCE, d);
  }

  lemma DropTagged(inner: string)
    ensures DropOpening(FENCE + ("json" + inner) + FENCE) == inner + FENCE
  {
    var s := FENCE + ("json" + inner) + FENCE;
    assert s[3..] == "json" + (inner + FENCE) && s[7..] == inner + FENCE;
  }

  lemma DropUntagged(inner: string)
    ensures DropOpening(FENCE + inner) == if "json" <= inner then inner[4..] else inner
  {
    assert (FENCE + inner)[3..] == inner;
  }

  // A tagged block always gives its payload back, fences inside included.
  lemma TaggedForm(a: string, b: string, p: string, c: string, d: string)
    requires Blank(a) && Blank(b) && Blank(c) && Blank(d) && Trimmed(p)
    ensures Cleaned(a + FENCE + ("json" + b + p + c) + FENCE + d) == p
  {
    TrimFenced(a, "json" + b + p + c, d);
    DropTagged(b + p + c);
    ClosedPayload(b, p, c);
    hide Trim, DropOpening, DropClosing, Blank, Trimmed;
    assert "json" + (b + p + c) == "json" + b + p + c;
  }

  // A block that is never closed gives back its payload, if that does not end in a fence.
  lemma OpenForm(a: string, b: string, p: string, d: string)
    requires Blank(a) && Blank(b) && Blank(d) && Trimmed(p) && p != "" && !EndsWith(p, FENCE)
    ensures Cleaned(a + (FENCE + "json" + b + p) + d) == p
    ensures !("json" <= b + p) ==> Cleaned(a + (FENCE + b + p) + d) == p
  {
    OpenPayload(b, p);
    OpenRest(a, "json" + b, p, d);
    OpenRest(a, b, p, d);
    hide Trim, Blank, Trimmed;
    assert FENCE + "json" + b + p == FENCE + ("json" + b) + p;
    assert ("json" + b + p)[4..] == b + p;
    DropUntagged("json" + b + p);
    DropUntagged(b + p);
  }

  lemma OpenPayload(b: string, p: string)
    requires Blank(b) && Trimmed(p) && !EndsWith(p, FENCE)
    ensures Trim(DropClosing(Trim(b + p))) == p
  {
    hide Trim;
    assert b + p == b + p + "";
    TrimPadded(b, p, "");
    TrimIdle(p);
  }

  lemma OpenRest(a: string, b: string, p: string, d: string)
    requires Blank(a) && Blank(d) && Trimmed(p) && p != ""
    ensures Trim(a + (FENCE + b + p) + d) == FENCE + (b + p)
  {
    var inner := FENCE + (b + p);
    assert FENCE + b + p == inner;
    assert inner[|inner| - 1] == p[|p| - 1];
    hide Trim;
    TrimPadded(a, inner, d);
  }

  // A closing fence alone is dropped too.
  lemma ClosedForm(a: string, p: string, c: string, d: string)
    requires Blank(a) && Blank(c) && Blank(d) && Trimmed(p) && p != "" && !(FENCE <= p + c + FENCE)
    ensures Cleaned(a + (p + c + FENCE) + d) == p
  {
    var payload := p + c + FENCE;
    assert Trimmed(payload);
    TrimPadded(a, payload, d);
    assert "" + p + c + FENCE == payload;
    ClosedPayload("", p, c);
  }

  // An untagged block does so unless its payload touches the fence and reads like a tag.
  lemma UntaggedForm(a: string, b: string, p: string, c: string, d: string)
    requires Blank(a) && Blank(b) && Blank(c) && Blank(d) && Trimmed(p)
    ensures Cleaned(a + FENCE + (b + p + c) + FENCE + d) == p <==> !(b == "" && "json" <= p)
  {
    TrimFenced(a, b + p + c, d);
    var rest := b + p + c + FENCE;
    assert FENCE + (b + p + c) + FENCE == FENCE + rest;
    DropUntagged(rest);
    TagNeedsPayload(b, p, c);
    if b == "" && "json" <= p {
      TagLost(p, c);
    } else {
      ClosedPayload(b, p, c);
    }
  }

  lemma TagLost(p: string, c: string)
    requires Blank(c) && Trimmed(p) && "json" <= p
    ensures Trim(DropClosing(Trim(("" + p + c + FENCE)[4..]))) != p
  {
    assert ("" + p + c + FENCE)[4..] == p[4..] + c + FENCE;
    TagTaken(p[4..], c);
  }

  lemma TagNeedsPayload(b: string, p: string, c: string)
    requires Blank(b) && Blank(c)
    ensures "json" <= b + p + c + FENCE <==> b == "" && "json" <= p
  {
    var rest := b + p + c + FENCE;
    if b != "" {
      assert rest[0] == b[0];
    } else if |p| >= 4 {
      assert rest[..4] == p[..4];
    } else {
      assert rest[|p|] == if c == "" then '`' else c[0];
      assert "json"[|p|] != rest[|p|];
    }
  }

  // What is left after a tag was taken off the payload is shorter than the payload.
  lemma TagTaken(x: string, c: string)
    requires Blank(c) && (x == "" || !IsWhitespace(x[|x| - 1]))
    ensures |Trim(DropClosing(Trim(x + c + FENCE)))| <= |x|
  {
    var e := TrimStartSplits(x + c);
    var core := TrimStart(x + c);
    assert x + c + FENCE == e + (core + FENCE) + "";
    TrimPadded(e, core + FENCE, "");
    assert DropClosing(core + FENCE) == core;
    if x == "" {
      assert x + c == c + "";
      TrimStartPadded(c, "");
      assert Trim("") == "";
    } else {
      assert core == x[|e|..] + c by {
        StartWithin(x, c, e, core);
      }
      TrimNoLonger(x[|e|..], c);
    }
  }

  lemma StartWithin(x: string, c: string, e: string, core: string)
    requires x != "" && !IsWhitespace(x[|x| - 1]) && Blank(e) && x + c == e + core
    ensures |e| < |x| && core == x[|e|..] + c
  {
    assert (e + core)[|x| - 1] == (x + c)[|x| - 1] == x[|x| - 1];
    assert core == (x + c)[|e|..] == x[|e|..] + c;
  }

  // ---------- The firewall ----------

  datatype SemanticResponse = SemanticResponse(
    answerFound: bool, answer: string, exactQuote: string, sourceChunkId: string)

  datatype Chunk = Chunk(id: string, text: string)

  datatype FirewallError = Unparsable | UnknownChunk | Hallucination

  // Decodes the JSON text of a response; `None` when it is not one.
  type Decoder = string -> Option<SemanticResponse>

  // The first chunk with the id.
  function FindChunk(chunks: seq<Chunk>, id: string): (found: Option<Chunk>)
    ensures found.Some? ==> found.value in chunks && found.value.id == id
    ensures found.None? ==> forall c :: c in chunks ==> c.id != id
  {
    if chunks == [] then None
    else if chunks[0].id == id then Some(chunks[0])
    else FindChunk(chunks[1..], id)
  }

  function VerifyAndParse(raw: string, chunks: seq<Chunk>, decode: Decoder): Result<SemanticResponse, FirewallError> {
    match decode(Cleaned(raw))
    case None => Err(Unparsable)
    case Some(response) =>
      if !response.answerFound then Ok(response)
      else
        match FindChunk(chunks, response.sourceChunkId)
        case None => Err(UnknownChunk)
        case Some(chunk) => if Contains(chunk.text, response.exactQuote) then Ok(response) else Err(Hallucination)
  }

  // A positive answer quotes, verbatim, a chunk with the cited id.
  ghost predicate Grounded(response: SemanticResponse, chunks: seq<Chunk>) {
    response.answerFound ==>
      exists c :: c in chunks && c.id == response.sourceChunkId && Contains(c.text, response.exactQuote)
  }

  ghost predicate DistinctIds(chunks: seq<Chunk>) {
    forall i, j :: 0 <= i < j < |chunks| ==> chunks[i].id != chunks[j].id
  }

  // Chunk `i` is the first with the id.
  ghost predicate FirstWithId(chunks: seq<Chunk>, id: string, i: int) {
    0 <= i < |chunks| && chunks[i].id == id && forall j :: 0 <= j < i ==> chunks[j].id != id
  }

  lemma {:induction false} FindChunkIsFirst(chunks: seq<Chunk>, id: string)
    ensures FindChunk(chunks, id).Some? <==> exists i :: FirstWithId(chunks, id, i)
    ensures forall i :: FirstWithId(chunks, id, i) ==> FindChunk(chunks, id) == Some(chunks[i])
  {
    if chunks != [] {
      FindChunkIsFirst(chunks[1..], id);
      assert chunks[0].id == id ==> FirstWithId(chunks, id, 0);
      forall i | 0 < i < |chunks| && chunks[0].id != id
        ensures FirstWithId(chunks, id, i) <==> FirstWithId(chunks[1..], id, i - 1)
      {
        assert forall j :: 1 <= j < |chunks| ==> chunks[1..][j - 1] == chunks[j];
      }
      if i :| FirstWithId(chunks[1..], id, i) {
        assert chunks[0].id != id ==> FirstWithId(chunks, id, i + 1);
      }
    }
  }

  // A response passes exactly when it decodes and, if it claims an answer, the first chunk with the
  // cited id contains the quote; so whatever passes is grounded.
  lemma FirewallExactly(raw: string, chunks: seq<Chunk>, decode: Decoder)
    ensures var r, decoded := VerifyAndParse(raw, chunks, decode), decode(Cleaned(raw));
            && (r.Ok? <==>
                  && decoded.Some?
                  && (decoded.value.answerFound ==>
                        exists i :: FirstWithId(chunks, decoded.value.sourceChunkId, i)
                                    && Contains(chunks[i].text, decoded.value.exactQuote)))
            && (r.Ok? ==> r.value == decoded.value && Grounded(r.value, chunks))
            && (r == Err(Unparsable) <==> decoded.None?)
            && (r == Err(UnknownChunk) <==>
                  && decoded.Some? && decoded.value.answerFound
                  && forall i :: 0 <= i < |chunks| ==> chunks[i].id != decoded.value.sourceChunkId)
  {
    var decoded := decode(Cleaned(raw));
    if decoded.Some? && decoded.value.answerFound {
      FindChunkIsFirst(chunks, decoded.value.sourceChunkId);
    }
  }
}
