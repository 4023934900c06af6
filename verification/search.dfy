/** The lexer of search.c and the grammar that its recursive descent parser follows. Strings hold no
    null character; reading one at its end gives the null character. */
module SearchSyntax {
  import opened Common

  // ---------------------------------------------------------------- characters

  predicate IsSpace(c: char) {
    c == ' ' || '\t' <= c <= '\r'
  }

  predicate IsAlpha(c: char) {
    'a' <= c <= 'z' || 'A' <= c <= 'Z'
  }

  predicate IsDigit(c: char) {
    '0' <= c <= '9'
  }

  predicate IsWordChar(c: char) {
    IsAlpha(c) || IsDigit(c) || c == '_'
  }

  function Lower(c: char): char {
    if 'A' <= c <= 'Z' then (c as int + 32) as char else c
  }

  /** strcasecmp. */
  predicate EqualIgnoringCase(a: string, b: string) {
    |a| == |b| && forall i :: 0 <= i < |a| ==> Lower(a[i]) == Lower(b[i])
  }

  predicate Spaces(s: string) {
    forall i :: 0 <= i < |s| ==> IsSpace(s[i])
  }

  predicate Digits(s: string) {
    forall i :: 0 <= i < |s| ==> IsDigit(s[i])
  }

  predicate WordChars(s: string) {
    forall i :: 0 <= i < |s| ==> IsWordChar(s[i])
  }

  // ---------------------------------------------------------------- read_aword

  datatype Kind = Quot | Comma | LPar | RPar | Eq | Le | Lt | Ge | Gt | Neq | Iden | Integer | Unknown | EndBuf

  /** A word: its kind, its text, and what is left of the buffer. */
  datatype Word = Word(kind: Kind, text: string, rest: string)

  function SpaceCount(s: string): (n: nat)
    ensures n <= |s| && Spaces(s[..n])
    ensures n < |s| ==> !IsSpace(s[n])
  {
    if s == "" || !IsSpace(s[0]) then 0 else 1 + SpaceCount(s[1..])
  }

  function DigitCount(s: string): (n: nat)
    ensures n <= |s| && Digits(s[..n])
    ensures n < |s| ==> !IsDigit(s[n])
  {
    if s == "" || !IsDigit(s[0]) then 0 else 1 + DigitCount(s[1..])
  }

  function WordCharCount(s: string): (n: nat)
    ensures n <= |s| && WordChars(s[..n])
    ensures n < |s| ==> !IsWordChar(s[n])
  {
    if s == "" || !IsWordChar(s[0]) then 0 else 1 + WordCharCount(s[1..])
  }

  function Cut(kind: Kind, t: string, n: nat): Word
    requires n <= |t|
  {
    Word(kind, t[..n], t[n..])
  }

  /** The word at the start of a text that does not start with a space. */
  function WordAt(t: string): (w: Word)
    requires t != ""
    ensures w.text + w.rest == t && w.text != "" && w.kind != EndBuf
  {
    if IsAlpha(t[0]) then Cut(Iden, t, 1 + WordCharCount(t[1..]))
    else if t[0] == '+' || t[0] == '-' || IsDigit(t[0]) then Cut(Integer, t, 1 + DigitCount(t[1..]))
    else if |t| > 1 && t[0] == '>' && t[1] == '=' then Cut(Ge, t, 2)
    else if |t| > 1 && t[0] == '<' && t[1] == '=' then Cut(Le, t, 2)
    else if |t| > 1 && t[0] == '<' && t[1] == '>' then Cut(Neq, t, 2)
    else Cut(SingleKind(t[0]), t, 1)
  }

  function SingleKind(c: char): Kind {
    match c
    case '\'' => Quot
    case ',' => Comma
    case '(' => LPar
    case ')' => RPar
    case '>' => Gt
    case '<' => Lt
    case '=' => Eq
    case _ => Unknown
  }

  /** At the end of the buffer nothing is consumed. */
  function ReadAWord(s: string): (w: Word)
    ensures |w.rest| <= |s| && w.rest == s[|s| - |w.rest|..]
    ensures w.kind != EndBuf <==> |w.rest| < |s|
    ensures w.kind == EndBuf <==> Spaces(s)
    ensures w.kind == EndBuf <==> w.text == ""
  {
    var t := s[SpaceCount(s)..];
    if t == "" then Word(EndBuf, "", s) else WordAt(t)
  }

  predicate FirstWordEqual(s: string, w: string) {
    EqualIgnoringCase(ReadAWord(s).text, w)
  }

  // ---------------------------------------------------------------- literals

  datatype Parsed<+T> = Failed | Parsed(value: T, rest: string)

  /** Up to a quote that no backslash precedes. */
  function Quoted(t: string, previous: char): (r: Parsed<string>)
    ensures r.Parsed? ==> r.value + "'" + r.rest == t
  {
    if t == "" then Failed
    else if t[0] == '\'' && previous != '\\' then Parsed("", t[1..])
    else
      var more := Quoted(t[1..], t[0]);
      if more.Failed? then Failed else Parsed([t[0]] + more.value, more.rest)
  }

  function QuotedString(s: string): (r: Parsed<string>)
    ensures r.Parsed? ==> |r.rest| < |s|
  {
    var w := ReadAWord(s);
    if w.text != "'" then Failed else Quoted(w.rest, if w.rest == "" then '\0' else w.rest[0])
  }

  predicate EndsWordString(c: char) {
    c == ' ' || c == '\t' || c == ')'
  }

  function WordStringCount(t: string): (n: nat)
    ensures n <= |t| && forall i :: 0 <= i < n ==> !EndsWordString(t[i])
    ensures n < |t| ==> EndsWordString(t[n])
  {
    if t == "" || EndsWordString(t[0]) then 0 else 1 + WordStringCount(t[1..])
  }

  function WordString(s: string): (r: Parsed<string>)
    ensures r.Parsed? ==> |r.rest| < |s|
  {
    var t := s[SpaceCount(s)..];
    if t == "" || t[0] == ')' then Failed
    else var n := WordStringCount(t); Parsed(t[..n], t[n..])
  }

  function MatchString(s: string): (r: Parsed<string>)
    ensures r.Parsed? ==> |r.rest| < |s|
  {
    if FirstWordEqual(s, "'") then QuotedString(s) else WordString(s)
  }

  function ComparisonValue(s: string): (r: Parsed<string>)
    ensures r.Parsed? ==> |r.rest| < |s|
  {
    if FirstWordEqual(s, "'") then QuotedString(s)
    else
      var w := ReadAWord(s);
      if w.kind == Integer then Parsed(w.text, w.rest) else WordString(s)
  }

  // ---------------------------------------------------------------- the parser

  datatype Operator = OpEq | OpGe | OpLe | OpGt | OpLt | OpNe | OpLike

  /** operator_translate, as far as the operator. */
  function OperatorOf(text: string): Option<Operator> {
    if text == "=" then Some(OpEq)
    else if text == ">=" then Some(OpGe)
    else if text == "<=" then Some(OpLe)
    else if text == ">" then Some(OpGt)
    else if text == "<" then Some(OpLt)
    else if text == "!=" || text == "<>" then Some(OpNe)
    else if text == "like" then Some(OpLike)
    else None
  }

  /** Syntax trees, with the text of every keyword, mark and leaf as it stands in the query. */
  datatype Condition = Condition(first: Term, more: Terms)
  datatype Terms = NoTerms | MoreTerms(orText: string, term: Term, more: Terms)
  datatype Term = Term(first: Factor, more: Factors)
  datatype Factors = NoFactors | MoreFactors(andText: string, factor: Factor, more: Factors)
  datatype Factor = Plain(primary: Primary) | Negated(notText: string, primary: Primary)
  datatype Primary =
    | Nested(open: string, condition: Condition, close: string)
    | Comparison(columnText: string, column: string, operatorText: string, operator: Operator,
                 valueText: string, value: string)
    | Containment(keyword: string, valueText: string, value: string)

  /** What was consumed between two states of the buffer. */
  function Consumed(s: string, rest: string): string {
    if |rest| <= |s| then s[..|s| - |rest|] else ""
  }

  function ParseCondition(s: string): (r: Parsed<Condition>)
    ensures r.Parsed? ==> |r.rest| < |s|
    decreases |s|, 4
  {
    var first := ParseTerm(s);
    if first.Failed? then Failed
    else
      var more := ParseTerms(first.rest);
      if more.Failed? then Failed else Parsed(Condition(first.value, more.value), more.rest)
  }

  function ParseTerms(s: string): (r: Parsed<Terms>)
    ensures r.Parsed? ==> |r.rest| <= |s|
    decreases |s|, 5
  {
    if !FirstWordEqual(s, "or") then Parsed(NoTerms, s)
    else
      var w := ReadAWord(s);
      var term := ParseTerm(w.rest);
      if term.Failed? then Failed
      else
        var more := ParseTerms(term.rest);
        if more.Failed? then Failed
        else Parsed(MoreTerms(Consumed(s, w.rest), term.value, more.value), more.rest)
  }

  function ParseTerm(s: string): (r: Parsed<Term>)
    ensures r.Parsed? ==> |r.rest| < |s|
    decreases |s|, 2
  {
    var first := ParseFactor(s);
    if first.Failed? then Failed
    else
      var more := ParseFactors(first.rest);
      if more.Failed? then Failed else Parsed(Term(first.value, more.value), more.rest)
  }

  function ParseFactors(s: string): (r: Parsed<Factors>)
    ensures r.Parsed? ==> |r.rest| <= |s|
    decreases |s|, 3
  {
    if !FirstWordEqual(s, "and") then Parsed(NoFactors, s)
    else
      var w := ReadAWord(s);
      var factor := ParseFactor(w.rest);
      if factor.Failed? then Failed
      else
        var more := ParseFactors(factor.rest);
        if more.Failed? then Failed
        else Parsed(MoreFactors(Consumed(s, w.rest), factor.value, more.value), more.rest)
  }

  function ParseFactor(s: string): (r: Parsed<Factor>)
    ensures r.Parsed? ==> |r.rest| < |s|
    decreases |s|, 1
  {
    if FirstWordEqual(s, "not") then
      var w := ReadAWord(s);
      var p := ParsePrimary(w.rest);
      if p.Failed? then Failed else Parsed(Negated(Consumed(s, w.rest), p.value), p.rest)
    else
      var p := ParsePrimary(s);
      if p.Failed? then Failed else Parsed(Plain(p.value), p.rest)
  }

  function ParsePrimary(s: string): (r: Parsed<Primary>)
    ensures r.Parsed? ==> |r.rest| < |s|
    decreases |s|, 0
  {
    if FirstWordEqual(s, "(") then
      var open := ReadAWord(s);
      var c := ParseCondition(open.rest);
      if c.Failed? then Failed
      else
        var close := ReadAWord(c.rest);
        if close.text != ")" then Failed
        else Parsed(Nested(Consumed(s, open.rest), c.value, Consumed(c.rest, close.rest)), close.rest)
    else ParsePredicate(s)
  }

  function ParsePredicate(s: string): (r: Parsed<Primary>)
    ensures r.Parsed? ==> |r.rest| < |s|
  {
    if FirstWordEqual(s, "contains") then ParseContains(s)
    else
      var column := ReadAWord(s);
      if column.kind != Iden then Failed
      else
        var w := ReadAWord(column.rest);
        var operator := OperatorOf(w.text);
        if operator.None? then Failed
        else
          var v := if operator.value.OpLike? then MatchString(w.rest) else ComparisonValue(w.rest);
          if v.Failed? then Failed
          else Parsed(Comparison(Consumed(s, column.rest), column.text, Consumed(column.rest, w.rest),
                                 operator.value, Consumed(w.rest, v.rest), v.value), v.rest)
  }

  /** The keyword has to be in lower case, although it was recognized in any case. */
  function ParseContains(s: string): (r: Parsed<Primary>)
    ensures r.Parsed? ==> |r.rest| < |s|
  {
    var w := ReadAWord(s);
    if w.text != "contains" then Failed
    else
      var v := MatchString(w.rest);
      if v.Failed? then Failed
      else Parsed(Containment(Consumed(s, w.rest), Consumed(w.rest, v.rest), v.value), v.rest)
  }
}
