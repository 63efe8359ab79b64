/**
 The fallback search prints a conjunction of LIKE predicates as SQL text. The meaning of that text
 is fixed here by a lexer and an evaluator for the SQL it uses: character string literals with
 doubled quotes (section 5.3 of ISO/IEC 9075-2) and the like predicate (section 8.5).
 */
module FallbackSql {
  import opened Outcomes
  import opened Text
  import opened Sequences
  import opened Ingestion

  // ---------- The printer ----------

  function EscapeQuotes(w: string): string {
    if w == "" then "" else (if w[0] == '\'' then "''" else [w[0]]) + EscapeQuotes(w[1..])
  }

  // Also the predicate of a positive filter in the hybrid search.
  function Condition(term: string): string {
    "sentence LIKE '%" + EscapeQuotes(term) + "%'"
  }

  function Conditions(words: seq<string>): seq<string> {
    seq(|words|, i requires 0 <= i < |words| => Condition(words[i]))
  }

  method BuildFallbackSql(intent: string) returns (sql: string)
    ensures sql == PrintedSql(intent)
  {
    var conditions := [];
    var words := SplitWhitespace(intent);
    for i := 0 to |words|
      invariant conditions == Conditions(words[..i])
    {
      conditions := conditions + [Condition(words[i])];
    }
    assert words[..|words|] == words;
    if conditions == [] {
      return "1=0";
    }
    return Join(conditions, " AND ");
  }

  // ---------- The lexer ----------

  datatype Token = Name(text: string) | Literal(value: string) | Number(digits: string) | Equals

  predicate NameChar(c: char) {
    'a' <= c <= 'z' || 'A' <= c <= 'Z' || c == '_' || Digit(c)
  }

  predicate Digit(c: char) {
    '0' <= c <= '9'
  }

  function NameLength(s: string): (n: nat)
    ensures n <= |s| && (s != "" && NameChar(s[0]) ==> n > 0)
  {
    if s == "" || !NameChar(s[0]) then 0 else 1 + NameLength(s[1..])
  }

  function DigitsLength(s: string): (n: nat)
    ensures n <= |s| && (s != "" && Digit(s[0]) ==> n > 0)
  {
    if s == "" || !Digit(s[0]) then 0 else 1 + DigitsLength(s[1..])
  }

  // The value of a string literal after its opening quote, and the characters it takes up.
  function LexLiteral(s: string): (r: Option<(string, nat)>)
    ensures r.Some? ==> 0 < r.value.1 <= |s|
  {
    if s == "" then None
    else if s[0] != '\'' then
      match LexLiteral(s[1..])
      case Some((value, n)) => Some(([s[0]] + value, n + 1))
      case None => None
    else if |s| > 1 && s[1] == '\'' then
      match LexLiteral(s[2..])
      case Some((value, n)) => Some(("'" + value, n + 2))
      case None => None
    else Some(("", 1))
  }

  // The token at the head of `s` (none for a space), and the characters it takes up.
  function LexOne(s: string): (r: Option<(Option<Token>, nat)>)
    requires s != ""
    ensures r.Some? ==> 0 < r.value.1 <= |s|
  {
    if s[0] == ' ' then Some((None, 1))
    else if Digit(s[0]) then Some((Some(Number(s[..DigitsLength(s)])), DigitsLength(s)))
    else if NameChar(s[0]) then Some((Some(Name(s[..NameLength(s)])), NameLength(s)))
    else if s[0] == '=' then Some((Some(Equals), 1))
    else if s[0] == '\'' then
      match LexLiteral(s[1..])
      case Some((value, n)) => Some((Some(Literal(value)), n + 1))
      case None => None
    else None
  }

  function Prepend(t: Token, rest: Option<seq<Token>>): Option<seq<Token>> {
    if rest.Some? then Some([t] + rest.value) else None
  }

  function Lex(s: string): Option<seq<Token>>
    decreases |s|
  {
    if s == "" then Some([])
    else
      match LexOne(s)
      case Some((Some(token), n)) => Prepend(token, Lex(s[n..]))
      case Some((None, n)) => Lex(s[n..])
      case None => None
  }

  // ---------- The evaluator ----------

  // The like predicate; `esc` is the escape character, if the dialect has one without being asked.
  predicate Like(text: string, pattern: string, esc: Option<char>)
    decreases |text| + |pattern|
  {
    if pattern == "" then text == ""
    else if esc == Some(pattern[0]) && |pattern| > 1 then
      text != "" && text[0] == pattern[1] && Like(text[1..], pattern[2..], esc)
    else if pattern[0] == '%' then
      Like(text, pattern[1..], esc) || (text != "" && Like(text[1..], pattern, esc))
    else text != "" && (pattern[0] == '_' || text[0] == pattern[0]) && Like(text[1..], pattern[1..], esc)
  }

  function Column(row: Customer, name: string): Option<string> {
    if name == "sentence" then Some(row.sentence)
    else if name == "kunnr" then Some(row.kunnr)
    else if name == "name" then Some(row.name)
    else if name == "city" then Some(row.city)
    else None
  }

  function NumberValue(digits: string): nat {
    if digits == "" then 0
    else
      var d := digits[|digits| - 1];
      NumberValue(digits[..|digits| - 1]) * 10 + if Digit(d) then (d - '0') as nat else 0
  }

  function EvalPredicate(tokens: seq<Token>, row: Customer, esc: Option<char>): Option<bool> {
    if |tokens| != 3 then None
    else
      match (tokens[0], tokens[1], tokens[2])
      case (Name(column), Name(like), Literal(pattern)) =>
        (match Column(row, column)
         case Some(text) => if like == "LIKE" then Some(Like(text, pattern, esc)) else None
         case None => None)
      case (Number(a), Equals, Number(b)) => Some(NumberValue(a) == NumberValue(b))
      case _ => None
  }

  // A conjunction of three-token predicates; `None` is a syntax error.
  function EvalTokens(tokens: seq<Token>, row: Customer, esc: Option<char>): Option<bool> {
    if |tokens| <= 3 then EvalPredicate(tokens, row, esc)
    else if tokens[3] != Name("AND") then None
    else
      match (EvalPredicate(tokens[..3], row, esc), EvalTokens(tokens[4..], row, esc))
      case (Some(a), Some(b)) => Some(a && b)
      case _ => None
  }

  function Evaluate(sql: string, row: Customer, esc: Option<char>): Option<bool> {
    match Lex(sql)
    case Some(tokens) => EvalTokens(tokens, row, esc)
    case None => None
  }

  // ---------- Lexing what was printed ----------

  lemma LexToken(token: Token, text: string, rest: string)
    requires text != "" && LexOne(text + rest) == Some((Some(token), |text|))
    ensures Lex(text + rest) == Prepend(token, Lex(rest))
  {
    assert (text + rest)[|text|..] == rest;
  }

  lemma LexName(name: string, rest: string)
    requires name != "" && !Digit(name[0]) && forall i :: 0 <= i < |name| ==> NameChar(name[i])
    requires rest == "" || !NameChar(rest[0])
    ensures Lex(name + rest) == Prepend(Name(name), Lex(rest))
  {
    NameLengthAt(name, rest);
    assert (name + rest)[..|name|] == name;
    LexToken(Name(name), name, rest);
  }

  lemma {:induction false} NameLengthAt(name: string, rest: string)
    requires forall i :: 0 <= i < |name| ==> NameChar(name[i])
    requires rest == "" || !NameChar(rest[0])
    ensures NameLength(name + rest) == |name|
  {
    if name == "" {
      assert name + rest == rest;
    } else {
      assert (name + rest)[1..] == name[1..] + rest;
      NameLengthAt(name[1..], rest);
    }
  }

  // Doubling the quotes is undone by the lexer, whatever the text.
  lemma {:induction false} LexEscaped(w: string, rest: string)
    requires rest == "" || rest[0] != '\''
    ensures LexLiteral(EscapeQuotes(w) + "'" + rest) == Some((w, |EscapeQuotes(w)| + 1))
  {
    var s := EscapeQuotes(w) + "'" + rest;
    if w != "" {
      LexEscaped(w[1..], rest);
      var n := if w[0] == '\'' then 2 else 1;
      assert s[n..] == EscapeQuotes(w[1..]) + "'" + rest;
      assert w == [w[0]] + w[1..];
    }
  }

  lemma {:induction false} EscapeConcat(a: string, b: string)
    ensures EscapeQuotes(a + b) == EscapeQuotes(a) + EscapeQuotes(b)
  {
    if a == "" {
      assert a + b == b;
    } else {
      assert (a + b)[1..] == a[1..] + b;
      EscapeConcat(a[1..], b);
    }
  }

  function Pattern(term: string): string {
    "%" + term + "%"
  }

  function ConditionTokens(term: string): seq<Token> {
    [Name("sentence"), Name("LIKE"), Literal(Pattern(term))]
  }

  lemma LexSpace(rest: string)
    ensures Lex(" " + rest) == Lex(rest)
  {
    assert (" " + rest)[1..] == rest;
  }

  lemma LexSpacedName(name: string, rest: string)
    requires name != "" && !Digit(name[0]) && forall i :: 0 <= i < |name| ==> NameChar(name[i])
    ensures Lex(" " + (name + (" " + rest))) == Prepend(Name(name), Lex(rest))
  {
    LexSpace(name + (" " + rest));
    LexName(name, " " + rest);
    LexSpace(rest);
  }

  lemma LexOneQuote(s: string, value: string, n: nat)
    requires s != "" && s[0] == '\'' && LexLiteral(s[1..]) == Some((value, n))
    ensures LexOne(s) == Some((Some(Literal(value)), n + 1))
  {
  }

  lemma LexLiteralToken(body: string, value: string, rest: string)
    requires LexLiteral(body + rest) == Some((value, |body|))
    ensures Lex("'" + body + rest) == Prepend(Literal(value), Lex(rest))
  {
    var s := "'" + body + rest;
    assert s[1..] == body + rest && s[|body| + 1..] == rest;
    LexOneQuote(s, value, |body|);
  }

  lemma LexQuoted(w: string, rest: string)
    requires rest == "" || rest[0] != '\''
    ensures Lex("'" + EscapeQuotes(w) + "'" + rest) == Prepend(Literal(w), Lex(rest))
  {
    var body := EscapeQuotes(w) + "'";
    LexEscaped(w, rest);
    LexLiteralToken(body, w, rest);
    assert "'" + EscapeQuotes(w) + "'" + rest == "'" + body + rest;
  }

  // The text of a condition, cut at the token boundaries.
  lemma ConditionText(term: string, rest: string)
    ensures Condition(term) + rest ==
            "sentence" + (" " + ("LIKE" + (" " + ("'" + EscapeQuotes(Pattern(term)) + "'" + rest))))
  {
    EscapeConcat("%" + term, "%");
    EscapeConcat("%", term);
    assert EscapeQuotes("%") == "%";
  }

  lemma LexLike(pattern: string, rest: string)
    requires rest == "" || rest[0] != '\''
    ensures Lex(" " + ("LIKE" + (" " + ("'" + EscapeQuotes(pattern) + "'" + rest)))) ==
            Prepend(Name("LIKE"), Prepend(Literal(pattern), Lex(rest)))
  {
    var quoted := "'" + EscapeQuotes(pattern) + "'" + rest;
    LexSpacedName("LIKE", quoted);
    LexQuoted(pattern, rest);
  }

  lemma PrependThree(a: Token, b: Token, c: Token, rest: Option<seq<Token>>)
    ensures Prepend(a, Prepend(b, Prepend(c, rest))) ==
            if rest.Some? then Some([a, b, c] + rest.value) else None
  {
    if rest.Some? {
      assert [a] + ([b] + ([c] + rest.value)) == [a, b, c] + rest.value;
    }
  }

  lemma LexCondition(term: string, rest: string)
    requires rest == "" || rest[0] == ' '
    ensures Lex(Condition(term) + rest) ==
            if Lex(rest).Some? then Some(ConditionTokens(term) + Lex(rest).value) else None
  {
    var like := " " + ("LIKE" + (" " + ("'" + EscapeQuotes(Pattern(term)) + "'" + rest)));
    ConditionText(term, rest);
    LexName("sentence", like);
    LexLike(Pattern(term), rest);
    PrependThree(Name("sentence"), Name("LIKE"), Literal(Pattern(term)), Lex(rest));
  }

  lemma LexAnd(tail: string)
    ensures Lex(" AND " + tail) == Prepend(Name("AND"), Lex(tail))
  {
    assert " AND " + tail == " " + ("AND" + (" " + tail));
    LexSpacedName("AND", tail);
  }

  // ---------- The printed text keeps the meaning ----------

  // Any term at all, quotes included: one printed condition means one like predicate.
  lemma ConditionMeaning(term: string, row: Customer, esc: Option<char>)
    ensures Evaluate(Condition(term), row, esc) == Some(Like(row.sentence, Pattern(term), esc))
  {
    LexCondition(term, "");
    assert Condition(term) + "" == Condition(term);
    assert ConditionTokens(term) + [] == ConditionTokens(term);
  }

  ghost predicate AllMatch(words: seq<string>, sentence: string, esc: Option<char>) {
    forall w :: w in words ==> Like(sentence, Pattern(w), esc)
  }

  lemma {:induction false} ConjunctionMeaning(words: seq<string>, row: Customer, esc: Option<char>)
    requires words != []
    ensures Evaluate(Join(Conditions(words), " AND "), row, esc) == Some(AllMatch(words, row.sentence, esc))
  {
    var w, rest := words[0], words[1..];
    if |words| == 1 {
      ConditionMeaning(w, row, esc);
    } else {
      var tail := Join(Conditions(rest), " AND ");
      assert Conditions(words)[1..] == Conditions(rest);
      assert Join(Conditions(words), " AND ") == Condition(w) + (" AND " + tail);
      ConjunctionMeaning(rest, row, esc);
      LexCondition(w, " AND " + tail);
      LexAnd(tail);
      EvalAnd(w, Lex(tail), row, esc);
      AllMatchSplit(words, row.sentence, esc);
    }
  }

  lemma EvalAnd(w: string, rest: Option<seq<Token>>, row: Customer, esc: Option<char>)
    requires rest.Some? && EvalTokens(rest.value, row, esc).Some?
    ensures EvalTokens(ConditionTokens(w) + Prepend(Name("AND"), rest).value, row, esc) ==
            Some(Like(row.sentence, Pattern(w), esc) && EvalTokens(rest.value, row, esc).value)
  {
    var tokens := ConditionTokens(w) + Prepend(Name("AND"), rest).value;
    assert tokens[..3] == ConditionTokens(w) && tokens[4..] == rest.value;
  }

  lemma AllMatchSplit(words: seq<string>, sentence: string, esc: Option<char>)
    requires words != []
    ensures AllMatch(words, sentence, esc) <==>
            Like(sentence, Pattern(words[0]), esc) && AllMatch(words[1..], sentence, esc)
  {
    assert words == [words[0]] + words[1..];
  }

  // The printed form of an intent, as BuildFallbackSql returns it.
  function PrintedSql(intent: string): string {
    var words := SplitWhitespace(intent);
    if words == [] then "1=0" else Join(Conditions(words), " AND ")
  }

  // A blank intent matches nothing; any other matches when every word does.
  lemma PrintedMeaning(intent: string, row: Customer, esc: Option<char>)
    ensures var words := SplitWhitespace(intent);
            Evaluate(PrintedSql(intent), row, esc) == Some(words != [] && AllMatch(words, row.sentence, esc))
  {
    var words := SplitWhitespace(intent);
    if words == [] {
      BlankMeaning(row, esc);
    } else {
      ConjunctionMeaning(words, row, esc);
    }
  }

  lemma BlankMeaning(row: Customer, esc: Option<char>)
    ensures Evaluate("1=0", row, esc) == Some(false)
  {
    BlankLexes();
    assert NumberValue("1") == NumberValue("1"[..0]) * 10 + 1;
  }

  lemma BlankLexes()
    ensures Lex("1=0") == Some([Number("1"), Equals, Number("0")])
  {
    assert "0" + "" == "0" && "=" + "0" == "=0" && "1" + "=0" == "1=0";
    assert Lex("") == Some([]);
    LexNumber("0", "");
    LexToken(Equals, "=", "0");
    LexNumber("1", "=0");
    PrependThree(Number("1"), Equals, Number("0"), Lex(""));
    assert [Number("1"), Equals, Number("0")] + [] == [Number("1"), Equals, Number("0")];
  }

  lemma LexNumber(digit: string, rest: string)
    requires |digit| == 1 && Digit(digit[0]) && (rest == "" || !Digit(rest[0]))
    ensures Lex(digit + rest) == Prepend(Number(digit), Lex(rest))
  {
    var s := digit + rest;
    assert s[1..] == rest && s[..1] == digit;
    assert DigitsLength(s) == 1 + DigitsLength(rest);
    LexToken(Number(digit), digit, rest);
  }

  // ---------- When LIKE means "contains" ----------

  predicate NoEscape(w: string, esc: Option<char>) {
    esc.Some? ==> esc.value !in w
  }

  predicate Plain(w: string, esc: Option<char>) {
    NoEscape(w, esc) && '%' !in w && '_' !in w
  }

  // An escape character that is not itself a wildcard.
  predicate ProperEscape(esc: Option<char>) {
    esc != Some('%') && esc != Some('_')
  }

  lemma {:induction false} LikeAnything(text: string, esc: Option<char>)
    ensures Like(text, "%", esc)
  {
    if text != "" {
      LikeAnything(text[1..], esc);
    }
  }

  // A leading `%` matches at some offset.
  lemma {:induction false} LikeSomewhere(text: string, p: string, esc: Option<char>)
    requires ProperEscape(esc)
    ensures Like(text, "%" + p, esc) <==> exists k :: 0 <= k <= |text| && Like(text[k..], p, esc)
  {
    assert ("%" + p)[1..] == p && text[0..] == text;
    if text != "" {
      var tail := text[1..];
      LikeSomewhere(tail, p, esc);
      assert forall k :: 0 <= k <= |tail| ==> tail[k..] == text[k + 1..];
      if k :| 0 <= k <= |text| && Like(text[k..], p, esc) {
        assert k > 0 ==> tail[k - 1..] == text[k..];
      }
    }
  }

  lemma {:induction false} PrefixMatches(w: string, text: string, esc: Option<char>)
    requires ProperEscape(esc) && NoEscape(w, esc) && w <= text
    ensures Like(text, w + "%", esc)
  {
    if w == "" {
      LikeAnything(text, esc);
      assert w + "%" == "%";
    } else {
      assert (w + "%")[1..] == w[1..] + "%";
      PrefixMatches(w[1..], text[1..], esc);
      if w[0] == '%' {
        LikeSomewhere(text, w[1..] + "%", esc);
        assert text[1..] == text[1..|text|];
        assert w + "%" == "%" + (w[1..] + "%");
      }
    }
  }

  lemma {:induction false} PlainMatchIsPrefix(w: string, text: string, esc: Option<char>)
    requires Plain(w, esc) && Like(text, w + "%", esc)
    ensures w <= text
  {
    if w != "" {
      assert (w + "%")[1..] == w[1..] + "%";
      PlainMatchIsPrefix(w[1..], text[1..], esc);
    }
  }

  // Containment implies a match, with wildcards in the word too.
  lemma ContainmentMatches(w: string, text: string, esc: Option<char>)
    requires ProperEscape(esc) && NoEscape(w, esc) && Contains(text, w)
    ensures Like(text, Pattern(w), esc)
  {
    var k := Occurrence(text, w);
    assert text[k..] == w + text[k + |w|..];
    PrefixMatches(w, text[k..], esc);
    LikeSomewhere(text, w + "%", esc);
    assert Pattern(w) == "%" + (w + "%");
  }

  lemma {:induction false} LikeExtends(text: string, p: string, more: string, esc: Option<char>)
    requires ProperEscape(esc) && Like(text, p + "%", esc)
    requires p != "" && esc == Some(p[|p| - 1]) ==> text == "" || text[|text| - 1] != '%'
    ensures Like(text + more, p + "%", esc)
    decreases |text| + |p|
  {
    if p == "" {
      LikeAnything(text + more, esc);
      assert p + "%" == "%";
    } else if esc == Some(p[0]) {
      if |p| > 1 {
        assert (p + "%")[2..] == p[2..] + "%" && (text + more)[1..] == text[1..] + more;
        LikeExtends(text[1..], p[2..], more, esc);
      }
    } else {
      assert (p + "%")[1..] == p[1..] + "%";
      if p[0] == '%' && Like(text, p[1..] + "%", esc) {
        LikeExtends(text, p[1..], more, esc);
      } else {
        assert (text + more)[1..] == text[1..] + more;
        LikeExtends(text[1..], if p[0] == '%' then p else p[1..], more, esc);
      }
    }
  }

  predicate MatchesItself(w: string, esc: Option<char>) {
    Like(w, Pattern(w), esc)
  }

  ghost predicate ContainmentSuffices(w: string, esc: Option<char>) {
    forall text :: Contains(text, w) ==> Like(text, Pattern(w), esc)
  }

  // Escapes included: every text containing the word matches exactly when the word itself does.
  lemma ContainmentMatchesExactly(w: string, esc: Option<char>)
    requires ProperEscape(esc)
    ensures ContainmentSuffices(w, esc) <==> MatchesItself(w, esc)
  {
    OccurrenceContained(w, w, 0);
    if MatchesItself(w, esc) {
      forall text | Contains(text, w) ensures Like(text, Pattern(w), esc) {
        SelfMatchExtends(w, text, esc);
      }
    }
  }

  lemma SelfMatchExtends(w: string, text: string, esc: Option<char>)
    requires ProperEscape(esc) && MatchesItself(w, esc) && Contains(text, w)
    ensures Like(text, Pattern(w), esc)
  {
    assert Pattern(w) == "%" + (w + "%");
    LikeSomewhere(w, w + "%", esc);
    var j :| 0 <= j <= |w| && Like(w[j..], w + "%", esc);
    var k := Occurrence(text, w);
    var more := text[k + |w|..];
    LikeExtends(w[j..], w, more, esc);
    assert text[k..] == w + more;
    assert text[k + j..] == w[j..] + more;
    LikeSomewhere(text, w + "%", esc);
  }

  // A word without the escape character matches itself.
  lemma NoEscapeMatchesItself(w: string, esc: Option<char>)
    requires ProperEscape(esc) && NoEscape(w, esc)
    ensures MatchesItself(w, esc)
  {
    OccurrenceContained(w, w, 0);
    ContainmentMatches(w, w, esc);
  }

  // The shortest text built to match the pattern of `w` by spending its wildcards and escapes.
  function Spent(w: string, esc: Option<char>): string {
    if w == "" then ""
    else if esc == Some(w[0]) then if |w| == 1 then "%" else [w[1]] + Spent(w[2..], esc)
    else (if w[0] == '%' || w[0] == '_' then "x" else [w[0]]) + Spent(w[1..], esc)
  }

  lemma {:induction false} SpentMatches(w: string, esc: Option<char>)
    requires ProperEscape(esc)
    ensures Like(Spent(w, esc), w + "%", esc)
    ensures |Spent(w, esc)| <= |w| && (!Plain(w, esc) ==> Spent(w, esc) != w)
  {
    var text, p := Spent(w, esc), w + "%";
    if w == "" {
      LikeAnything("", esc);
    } else if esc == Some(w[0]) {
      if |w| > 1 {
        SpentMatches(w[2..], esc);
        assert p[2..] == w[2..] + "%";
        assert |text| < |w|;
      } else {
        assert p[2..] == "" && text[1..] == "";
      }
    } else {
      SpentMatches(w[1..], esc);
      assert p[1..] == w[1..] + "%" && text[1..] == Spent(w[1..], esc);
      if w[0] == '%' {
        LikeSomewhere(text, w[1..] + "%", esc);
        assert p == "%" + (w[1..] + "%");
      }
    }
  }

  lemma PlainMeansContains(w: string, text: string, esc: Option<char>)
    requires ProperEscape(esc) && Plain(w, esc)
    ensures Like(text, Pattern(w), esc) <==> Contains(text, w)
  {
    assert Pattern(w) == "%" + (w + "%");
    if Contains(text, w) {
      ContainmentMatches(w, text, esc);
    }
    LikeSomewhere(text, w + "%", esc);
    if k :| 0 <= k <= |text| && Like(text[k..], w + "%", esc) {
      PlainMatchIsPrefix(w, text[k..], esc);
      OccurrenceContained(text, w, k);
    }
  }

  lemma {:induction false} ShorterLacks(s: string, t: string)
    requires |s| <= |t| && s != t
    ensures !Contains(s, t)
  {
    if s != "" {
      ShorterLacks(s[1..], t);
    }
  }

  // A word's pattern means "contains the word" on every text exactly when the word is plain.
  lemma LikeMeansContains(w: string, esc: Option<char>)
    requires ProperEscape(esc)
    ensures (forall text :: Like(text, Pattern(w), esc) <==> Contains(text, w)) <==> Plain(w, esc)
  {
    if Plain(w, esc) {
      forall text ensures Like(text, Pattern(w), esc) <==> Contains(text, w) {
        PlainMeansContains(w, text, esc);
      }
    } else {
      var text := Spent(w, esc);
      SpentMatches(w, esc);
      LikeSomewhere(text, w + "%", esc);
      assert text[0..] == text && Pattern(w) == "%" + (w + "%");
      assert Like(text, Pattern(w), esc);
      ShorterLacks(text, w);
    }
  }

  // With backslash as escape character, a word ending in one can miss a sentence that contains it.
  lemma EscapeLosesContainment()
    ensures Contains("\\", "\\") && !Like("\\", Pattern("\\"), Some('\\'))
  {
    var p := Pattern("\\");
    assert p == "%\\%" && p[1..] == "\\%" && p[1..][2..] == "";
    assert !Like("", p[1..], Some('\\'));
    assert !Like("", p, Some('\\'));
  }

  // ---------- The fallback search ----------

  const FALLBACK_LIMIT := 5

  // The rows for which the filter is true, in table order.
  function Matching(rows: seq<Customer>, sql: string, esc: Option<char>): seq<Customer> {
    if rows == [] then []
    else
      var rest := Matching(rows[..|rows| - 1], sql, esc);
      var last := rows[|rows| - 1];
      if Evaluate(sql, last, esc) == Some(true) then rest + [last] else rest
  }

  function FallbackRows(rows: seq<Customer>, intent: string, esc: Option<char>): seq<Customer> {
    var found := Matching(rows, PrintedSql(intent), esc);
    if |found| <= FALLBACK_LIMIT then found else found[..FALLBACK_LIMIT]
  }

  ghost predicate ContainsAll(sentence: string, words: seq<string>) {
    forall w :: w in words ==> Contains(sentence, w)
  }

  lemma {:induction false} MatchingRows(rows: seq<Customer>, sql: string, esc: Option<char>)
    ensures forall row :: row in Matching(rows, sql, esc) <==> row in rows && Evaluate(sql, row, esc) == Some(true)
  {
    if rows != [] {
      MatchingRows(rows[..|rows| - 1], sql, esc);
      assert rows == rows[..|rows| - 1] + [rows[|rows| - 1]];
    }
  }

  // A matching row is among the answers exactly when fewer than the limit match before it.
  lemma AnsweredExactly(rows: seq<Customer>, intent: string, k: nat, esc: Option<char>)
    requires Distinct(rows) && k < |rows|
    ensures rows[k] in FallbackRows(rows, intent, esc) <==>
            && Evaluate(PrintedSql(intent), rows[k], esc) == Some(true)
            && |Matching(rows[..k], PrintedSql(intent), esc)| < 5
  {
    hide Evaluate, PrintedSql;
    var sql := PrintedSql(intent);
    var found, before := Matching(rows, sql, esc), |Matching(rows[..k], sql, esc)|;
    MatchingRows(rows, sql, esc);
    if Evaluate(sql, rows[k], esc) == Some(true) {
      MatchingAt(rows, sql, k, esc);
      MatchingDistinct(rows, sql, esc);
    }
  }

  // A matching row stands after the matches before it.
  lemma {:induction false} MatchingAt(rows: seq<Customer>, sql: string, k: nat, esc: Option<char>)
    requires k < |rows| && Evaluate(sql, rows[k], esc) == Some(true)
    ensures var p := |Matching(rows[..k], sql, esc)|;
            p < |Matching(rows, sql, esc)| && Matching(rows, sql, esc)[p] == rows[k]
  {
    hide Evaluate;
    var n := |rows| - 1;
    if k < n {
      assert rows[..n][..k] == rows[..k];
      MatchingAt(rows[..n], sql, k, esc);
    }
  }

  lemma {:induction false} MatchingDistinct(rows: seq<Customer>, sql: string, esc: Option<char>)
    requires Distinct(rows)
    ensures Distinct(Matching(rows, sql, esc))
  {
    hide Evaluate;
    if rows != [] {
      MatchingDistinct(rows[..|rows| - 1], sql, esc);
      MatchingRows(rows[..|rows| - 1], sql, esc);
    }
  }

  // Every word matches its own pattern, as words without the escape character do.
  ghost predicate SelfMatching(words: seq<string>, esc: Option<char>) {
    forall w :: w in words ==> MatchesItself(w, esc)
  }

  ghost predicate NoneContains(rows: seq<Customer>, words: seq<string>) {
    forall row :: row in rows ==> !ContainsAll(row.sentence, words)
  }

  lemma MatchMeaning(row: Customer, intent: string, esc: Option<char>)
    requires ProperEscape(esc)
    ensures var words, matches := SplitWhitespace(intent), Evaluate(PrintedSql(intent), row, esc) == Some(true);
            && (SelfMatching(words, esc) && words != [] && ContainsAll(row.sentence, words) ==> matches)
            && ((forall w :: w in words ==> Plain(w, esc)) && matches ==>
                  words != [] && ContainsAll(row.sentence, words))
  {
    var words := SplitWhitespace(intent);
    PrintedMeaning(intent, row, esc);
    if SelfMatching(words, esc) && ContainsAll(row.sentence, words) {
      forall w | w in words ensures Like(row.sentence, Pattern(w), esc) {
        SelfMatchExtends(w, row.sentence, esc);
      }
    }
    if (forall w :: w in words ==> Plain(w, esc)) && AllMatch(words, row.sentence, esc) {
      forall w | w in words ensures Contains(row.sentence, w) {
        PlainMeansContains(w, row.sentence, esc);
      }
    }
  }

  // The absence proof. If every word matches itself, an empty answer is sound exactly when the intent is not
  // blank (or nothing is stored); for plain words every answer is exact.
  lemma AbsenceProof(rows: seq<Customer>, intent: string, esc: Option<char>)
    requires ProperEscape(esc)
    ensures var words, found := SplitWhitespace(intent), FallbackRows(rows, intent, esc);
            && (SelfMatching(words, esc) ==>
                  ((found == [] ==> NoneContains(rows, words)) <==> words != [] || rows == []))
            && (words != [] && (forall w :: w in words ==> Plain(w, esc)) ==>
                  && (found == [] <==> NoneContains(rows, words))
                  && (forall row :: row in found ==> row in rows && ContainsAll(row.sentence, words)))
  {
    var words, sql := SplitWhitespace(intent), PrintedSql(intent);
    hide PrintedSql, Evaluate, SelfMatching;
    var found := Matching(rows, sql, esc);
    MatchingRows(rows, sql, esc);
    forall row: Customer {
      MatchMeaning(row, intent, esc);
    }
    if words == [] {
      BlankFindsNothing(rows, intent, esc);
      assert rows != [] ==> rows[0] in rows && ContainsAll(rows[0].sentence, words);
    }
    if found != [] {
      assert found[0] in found && FallbackRows(rows, intent, esc)[0] == found[0];
    }
    if forall w :: w in words ==> Plain(w, esc) {
      PlainWordsMatchThemselves(words, esc);
    }
  }

  lemma BlankFindsNothing(rows: seq<Customer>, intent: string, esc: Option<char>)
    requires SplitWhitespace(intent) == []
    ensures Matching(rows, PrintedSql(intent), esc) == []
  {
    var found := Matching(rows, PrintedSql(intent), esc);
    MatchingRows(rows, PrintedSql(intent), esc);
    if found != [] {
      assert found[0] in found;
      PrintedMeaning(intent, found[0], esc);
      assert false;
    }
  }

  lemma PlainWordsMatchThemselves(words: seq<string>, esc: Option<char>)
    requires ProperEscape(esc) && forall w :: w in words ==> Plain(w, esc)
    ensures SelfMatching(words, esc)
  {
    forall w | w in words ensures MatchesItself(w, esc) {
      NoEscapeMatchesItself(w, esc);
    }
  }

  lemma WordContained(s: string, w: string)
    requires w in SplitWhitespace(s)
    ensures Contains(s, w)
  {
    SplitIsRuns(s, w);
    var i :| RunAt(s, w, i);
    OccurrenceContained(s, w, i);
  }

  lemma SentenceNames(kunnr: string, name: string, city: string, country: string)
    ensures Contains(Sentence(kunnr, name, city, country), name)
    ensures Contains(Sentence(kunnr, name, city, country), city)
  {
    var s := Sentence(kunnr, name, city, country);
    var before := "Customer " + kunnr + " is named ";
    assert s == before + name + (" and is located in " + city + ", " + country + ".");
    assert s == (before + name + " and is located in ") + city + (", " + country + ".");
    InfixContained(before, name, " and is located in " + city + ", " + country + ".");
    InfixContained(before + name + " and is located in ", city, ", " + country + ".");
  }

  // A stored customer is found by its own name or city exactly when that is not blank and fewer customers
  // than the limit match it earlier in the table.
  lemma StoredCustomerIsFound(rows: seq<Customer>, k: nat, csv: Kna1Row, intent: string, esc: Option<char>)
    requires DistinctKeys(rows) && k < |rows| && rows[k] == CustomerOf(csv)
    requires intent == rows[k].name || intent == rows[k].city
    requires ProperEscape(esc) && SelfMatching(SplitWhitespace(intent), esc)
    ensures rows[k] in FallbackRows(rows, intent, esc) <==>
            SplitWhitespace(intent) != [] && |Matching(rows[..k], PrintedSql(intent), esc)| < 5
  {
    var c := rows[k];
    SentenceNames(c.kunnr, c.name, c.city, OrUnknown(csv.land1));
    hide PrintedSql, Evaluate, Contains, SelfMatching;
    forall w | w in SplitWhitespace(intent) ensures Contains(c.sentence, w) {
      WordContained(intent, w);
      ContainsTransitive(c.sentence, intent, w);
    }
    AnsweredExactly(rows, intent, k, esc);
    MatchMeaning(c, intent, esc);
    if SplitWhitespace(intent) == [] {
      BlankFindsNothing(rows, intent, esc);
    }
  }
}
