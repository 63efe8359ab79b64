/**
 String operations of the Rust standard library that several components use:
 Unicode trimming and splitting, substring search, ASCII case folding, joining.
 */
module Text {
  // The code points with the Unicode property White_Space.
  predicate IsWhitespace(c: char) {
    || '\U{9}' <= c <= '\U{D}'
    || c == ' ' || c == '\U{85}' || c == '\U{A0}' || c == '\U{1680}'
    || '\U{2000}' <= c <= '\U{200A}'
    || c == '\U{2028}' || c == '\U{2029}' || c == '\U{202F}' || c == '\U{205F}' || c == '\U{3000}'
  }

  // Tab to carriage return, the space, next line, the no-break space, and the spaces and separators beyond.
  lemma WhitespaceExactly(c: char)
    ensures IsWhitespace(c) <==>
            c as int in {9, 10, 11, 12, 13, 0x20, 0x85, 0xA0, 0x1680, 0x2000, 0x2001, 0x2002, 0x2003, 0x2004, 0x2005,
                         0x2006, 0x2007, 0x2008, 0x2009, 0x200A, 0x2028, 0x2029, 0x202F, 0x205F, 0x3000}
  {
  }

  predicate Blank(s: string) {
    forall i :: 0 <= i < |s| ==> IsWhitespace(s[i])
  }

  predicate Trimmed(s: string) {
    s == "" || (!IsWhitespace(s[0]) && !IsWhitespace(s[|s| - 1]))
  }

  function TrimStart(s: string): string {
    if s != "" && IsWhitespace(s[0]) then TrimStart(s[1..]) else s
  }

  function TrimEnd(s: string): string {
    if s != "" && IsWhitespace(s[|s| - 1]) then TrimEnd(s[..|s| - 1]) else s
  }

  function Trim(s: string): string {
    TrimEnd(TrimStart(s))
  }

  lemma {:induction false} TrimStartPadded(pad: string, p: string)
    requires Blank(pad) && (p == "" || !IsWhitespace(p[0]))
    ensures TrimStart(pad + p) == p
  {
    if pad == "" {
      assert pad + p == p;
    } else {
      assert (pad + p)[1..] == pad[1..] + p;
      TrimStartPadded(pad[1..], p);
    }
  }

  lemma {:induction false} TrimEndPadded(p: string, pad: string)
    requires Blank(pad) && (p == "" || !IsWhitespace(p[|p| - 1]))
    ensures TrimEnd(p + pad) == p
  {
    if pad == "" {
      assert p + pad == p;
    } else {
      assert (p + pad)[..|p + pad| - 1] == p + pad[..|pad| - 1];
      TrimEndPadded(p, pad[..|pad| - 1]);
    }
  }

  // Trimming removes exactly the surrounding white space.
  lemma TrimPadded(before: string, p: string, after: string)
    requires Blank(before) && Blank(after) && Trimmed(p)
    ensures Trim(before + p + after) == p
  {
    if p == "" {
      assert before + p + after == (before + after) + "";
      TrimStartPadded(before + after, "");
    } else {
      assert before + p + after == before + (p + after);
      TrimStartPadded(before, p + after);
      TrimEndPadded(p, after);
    }
  }

  lemma {:induction false} TrimStartSplits(s: string) returns (before: string)
    ensures Blank(before) && s == before + TrimStart(s)
    ensures TrimStart(s) == "" || !IsWhitespace(TrimStart(s)[0])
  {
    if s != "" && IsWhitespace(s[0]) {
      var rest := TrimStartSplits(s[1..]);
      before := [s[0]] + rest;
    } else {
      before := "";
    }
  }

  lemma {:induction false} TrimEndSplits(s: string) returns (after: string)
    ensures Blank(after) && s == TrimEnd(s) + after
    ensures TrimEnd(s) == "" || !IsWhitespace(TrimEnd(s)[|TrimEnd(s)| - 1])
  {
    if s != "" && IsWhitespace(s[|s| - 1]) {
      var rest := TrimEndSplits(s[..|s| - 1]);
      after := rest + [s[|s| - 1]];
    } else {
      after := "";
    }
  }

  // Every string is its trimmed form with white space on both sides.
  lemma TrimSplits(s: string) returns (before: string, after: string)
    ensures Blank(before) && Blank(after) && Trimmed(Trim(s))
    ensures s == before + Trim(s) + after
  {
    before := TrimStartSplits(s);
    after := TrimEndSplits(TrimStart(s));
    assert TrimStart(s) == Trim(s) + after;
    if Trim(s) != "" {
      assert Trim(s)[0] == TrimStart(s)[0];
    }
  }

  /** Maximal runs of non-white-space characters, left to right. */
  function SplitWhitespace(s: string): (words: seq<string>)
    ensures forall w :: w in words ==> Word(w)
  {
    if s == "" then []
    else if IsWhitespace(s[0]) then SplitWhitespace(s[1..])
    else
      var n := RunLength(s);
      [s[..n]] + SplitWhitespace(s[n..])
  }

  // The length of the longest white-space-free prefix.
  function RunLength(s: string): (n: nat)
    ensures n <= |s|
    ensures s != "" && !IsWhitespace(s[0]) ==> n > 0
    ensures forall i :: 0 <= i < n ==> !IsWhitespace(s[i])
    ensures n < |s| ==> IsWhitespace(s[n])
  {
    if s == "" || IsWhitespace(s[0]) then 0 else 1 + RunLength(s[1..])
  }

  // `s[i..i + n]` is a run of non-white-space characters that cannot be extended.
  ghost predicate MaximalRun(s: string, i: int, n: int) {
    && 0 <= i && n > 0 && i + n <= |s|
    && (forall k :: i <= k < i + n ==> !IsWhitespace(s[k]))
    && (i == 0 || IsWhitespace(s[i - 1])) && (i + n == |s| || IsWhitespace(s[i + n]))
  }

  ghost predicate RunAt(s: string, w: string, i: int) {
    MaximalRun(s, i, |w|) && s[i..i + |w|] == w
  }

  lemma RunOfRest(s: string, w: string, n: nat, i: int)
    requires n <= |s| && (n == 0 || IsWhitespace(s[n - 1]) || (n < |s| ==> IsWhitespace(s[n])))
    requires i >= n
    ensures RunAt(s, w, i) <==> RunAt(s[n..], w, i - n)
  {
    var rest := s[n..];
    assert forall k :: n <= k < |s| ==> rest[k - n] == s[k];
    assert forall k :: 0 <= k < |rest| ==> rest[k] == s[k + n];
    if i + |w| <= |s| {
      assert rest[i - n..i - n + |w|] == s[i..i + |w|];
    }
  }

  // A run is the first one, or a run of what follows it.
  lemma RunIsFirstOrLater(s: string, w: string, i: int)
    requires s != "" && RunAt(s, w, i)
    ensures if IsWhitespace(s[0]) then i >= 1
            else i >= RunLength(s) || (i == 0 && w == s[..RunLength(s)])
  {
    if i == 0 && !IsWhitespace(s[0]) {
      assert w == s[..|w|] && |w| == RunLength(s);
    }
  }

  ghost predicate HasRun(s: string, w: string) {
    exists i :: RunAt(s, w, i)
  }

  lemma LaterRun(s: string, w: string, n: nat)
    requires n <= |s| && (n == 0 || IsWhitespace(s[n - 1]) || (n < |s| ==> IsWhitespace(s[n])))
    requires HasRun(s[n..], w)
    ensures HasRun(s, w)
  {
    var i :| RunAt(s[n..], w, i);
    RunOfRest(s, w, n, i + n);
  }

  lemma RunOrFirst(s: string, w: string, n: nat)
    requires s != "" && n == (if IsWhitespace(s[0]) then 1 else RunLength(s)) && HasRun(s, w)
    ensures HasRun(s[n..], w) || (!IsWhitespace(s[0]) && w == s[..n])
  {
    var i :| RunAt(s, w, i);
    RunIsFirstOrLater(s, w, i);
    if i >= n {
      RunOfRest(s, w, n, i);
    }
  }

  // The words are exactly the maximal runs.
  lemma {:induction false} SplitIsRuns(s: string, w: string)
    ensures w in SplitWhitespace(s) <==> exists i :: RunAt(s, w, i)
  {
    if s != "" {
      var n := if IsWhitespace(s[0]) then 1 else RunLength(s);
      SplitIsRuns(s[n..], w);
      if HasRun(s, w) {
        RunOrFirst(s, w, n);
      }
      if HasRun(s[n..], w) {
        LaterRun(s, w, n);
      }
      if !IsWhitespace(s[0]) && w == s[..n] {
        assert RunAt(s, w, 0);
      }
    }
  }

  predicate Word(w: string) {
    w != "" && forall i :: 0 <= i < |w| ==> !IsWhitespace(w[i])
  }

  lemma PrefixConcat(s: string, p: string, q: string)
    ensures p + q <= s <==> p <= s && q <= s[|p|..]
  {
    if p <= s && q <= s[|p|..] {
      assert s == p + s[|p|..];
    }
  }

  predicate OccursAt(s: string, t: string, i: int) {
    0 <= i && i + |t| <= |s| && s[i..i + |t|] == t
  }

  predicate Contains(s: string, t: string) {
    t <= s || (s != "" && Contains(s[1..], t))
  }

  lemma {:induction false} OccurrenceContained(s: string, t: string, i: int)
    requires OccursAt(s, t, i)
    ensures Contains(s, t)
  {
    if i > 0 {
      assert s[1..][i - 1..i - 1 + |t|] == s[i..i + |t|];
      OccurrenceContained(s[1..], t, i - 1);
    } else {
      assert s == t + s[|t|..];
    }
  }

  lemma {:induction false} Occurrence(s: string, t: string) returns (i: nat)
    requires Contains(s, t)
    ensures OccursAt(s, t, i)
  {
    if t <= s {
      i := 0;
    } else {
      var rest := Occurrence(s[1..], t);
      i := rest + 1;
      assert s[1..][rest..rest + |t|] == s[i..i + |t|];
    }
  }

  lemma InfixContained(a: string, t: string, b: string)
    ensures Contains(a + t + b, t)
  {
    OccurrenceContained(a + t + b, t, |a|);
  }

  lemma ContainsTransitive(s: string, t: string, u: string)
    requires Contains(s, t) && Contains(t, u)
    ensures Contains(s, u)
  {
    var i := Occurrence(s, t);
    var j := Occurrence(t, u);
    forall k | 0 <= k < |u| ensures s[i + j + k] == u[k] {
      assert s[i..i + |t|][j + k] == t[j + k] && t[j..j + |u|][k] == u[k];
    }
    OccurrenceContained(s, u, i + j);
  }

  lemma SliceContained(s: string, from: nat, to: nat)
    requires from <= to <= |s|
    ensures Contains(s, s[from..to])
  {
    OccurrenceContained(s, s[from..to], from);
  }

  lemma TrimContained(s: string)
    ensures Contains(s, Trim(s))
  {
    var before, after := TrimSplits(s);
    InfixContained(before, Trim(s), after);
  }

  predicate EndsWith(s: string, t: string) {
    |t| <= |s| && s[|s| - |t|..] == t
  }

  function Join(parts: seq<string>, separator: string): string {
    if parts == [] then ""
    else if |parts| == 1 then parts[0]
    else parts[0] + separator + Join(parts[1..], separator)
  }

  function LowerAscii(c: char): char {
    if 'A' <= c <= 'Z' then c - 'A' + 'a' else c
  }

  function FoldAscii(s: string): string {
    seq(|s|, i requires 0 <= i < |s| => LowerAscii(s[i]))
  }
}
