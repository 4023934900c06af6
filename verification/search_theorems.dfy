/** The compiler of search.c preserves meaning: an accepted query is a sentence of the grammar, the
    emitted XML is read back as the meaning of that sentence and as nothing else, and every condition
    can be written as a query that compiles to its XML. */
module SearchTheorems {
  import opened Common
  import opened SearchSyntax
  import opened SearchXml
  import opened SearchCompiler

  // ---------------------------------------------------------------- the grammar

  /** Spaces, then a word in any case. */
  predicate IsKeyword(text: string, word: string) {
    |word| <= |text| && Spaces(text[..|text| - |word|]) && EqualIgnoringCase(text[|text| - |word|..], word)
  }

  /** Spaces, then exactly this text. */
  predicate IsSpaced(text: string, mark: string) {
    |mark| <= |text| && Spaces(text[..|text| - |mark|]) && text[|text| - |mark|..] == mark
  }

  predicate IsIdentifier(name: string) {
    name != "" && IsAlpha(name[0]) && WordChars(name)
  }

  /** Every quote has a backslash before it, and the closing quote has none. */
  predicate IsQuotable(literal: string) {
    && (forall i :: 0 <= i < |literal| && literal[i] == '\'' ==> i > 0 && literal[i - 1] == '\\')
    && (literal != "" ==> literal[|literal| - 1] != '\\')
  }

  predicate IsWordString(literal: string) {
    && literal != "" && !IsSpace(literal[0]) && literal[0] != '\''
    && forall i :: 0 <= i < |literal| ==> !EndsWordString(literal[i])
  }

  predicate StartsNumber(literal: string) {
    literal != "" && (literal[0] == '+' || literal[0] == '-' || IsDigit(literal[0]))
  }

  predicate IsNumber(literal: string) {
    StartsNumber(literal) && Digits(literal[1..])
  }

  /** A quoted string or a word string. Where numbers are read, as behind the comparison operators, a
      word that starts as a number has to be one. */
  predicate IsValue(text: string, literal: string, numbers: bool) {
    || (IsQuotable(literal) && IsSpaced(text, "'" + literal + "'"))
    || (IsWordString(literal) && (numbers && StartsNumber(literal) ==> IsNumber(literal)) && IsSpaced(text, literal))
  }

  function Symbol(op: Operator): string {
    match op
    case OpEq => "="
    case OpGe => ">="
    case OpLe => "<="
    case OpGt => ">"
    case OpLt => "<"
    case OpNe => "<>"
    case OpLike => "like"
  }

  predicate IsSymbol(text: string, op: Operator) { IsSpaced(text, Symbol(op)) }

  /** The productions of the grammar in the comment of search.c. The types of the trees say that `not`
      binds tighter than `and`, and `and` tighter than `or`. */
  predicate Derived(c: Condition) { DerivedTerm(c.first) && DerivedTerms(c.more) }

  predicate DerivedTerms(ts: Terms) {
    match ts
    case NoTerms => true
    case MoreTerms(orText, term, more) => IsKeyword(orText, "or") && DerivedTerm(term) && DerivedTerms(more)
  }

  predicate DerivedTerm(t: Term) { DerivedFactor(t.first) && DerivedFactors(t.more) }

  predicate DerivedFactors(fs: Factors) {
    match fs
    case NoFactors => true
    case MoreFactors(andText, factor, more) =>
      IsKeyword(andText, "and") && DerivedFactor(factor) && DerivedFactors(more)
  }

  predicate DerivedFactor(f: Factor) {
    (f.Negated? ==> IsKeyword(f.notText, "not")) && DerivedPrimary(f.primary)
  }

  predicate DerivedPrimary(p: Primary) {
    match p
    case Nested(open, c, close) => IsSpaced(open, "(") && Derived(c) && IsSpaced(close, ")")
    case Comparison(columnText, column, operatorText, operator, valueText, value) =>
      IsIdentifier(column) && IsSpaced(columnText, column) && IsSymbol(operatorText, operator)
      && IsValue(valueText, value, !operator.OpLike?)
    case Containment(keyword, valueText, value) => IsSpaced(keyword, "contains") && IsValue(valueText, value, false)
  }

  /** The query text of a tree. */
  function Text(c: Condition): string { TextOfTerm(c.first) + TextOfTerms(c.more) }

  function TextOfTerms(ts: Terms): string {
    match ts
    case NoTerms => ""
    case MoreTerms(orText, term, more) => orText + TextOfTerm(term) + TextOfTerms(more)
  }

  function TextOfTerm(t: Term): string { TextOfFactor(t.first) + TextOfFactors(t.more) }

  function TextOfFactors(fs: Factors): string {
    match fs
    case NoFactors => ""
    case MoreFactors(andText, factor, more) => andText + TextOfFactor(factor) + TextOfFactors(more)
  }

  function TextOfFactor(f: Factor): string {
    (if f.Negated? then f.notText else "") + TextOfPrimary(f.primary)
  }

  function TextOfPrimary(p: Primary): string {
    match p
    case Nested(open, c, close) => open + Text(c) + close
    case Comparison(columnText, _, operatorText, _, valueText, _) => columnText + operatorText + valueText
    case Containment(keyword, valueText, _) => keyword + valueText
  }

  // ---------------------------------------------------------------- accepted queries

  /** What read_aword consumes is some spaces and the word. */
  lemma WordIsSpaced(s: string)
    ensures var w := ReadAWord(s);
      && Consumed(s, w.rest) + w.rest == s
      && (w.kind != EndBuf ==> IsSpaced(Consumed(s, w.rest), w.text))
      && (w.kind == Iden ==> IsIdentifier(w.text))
  {
    hide WordAt, IsSpaced, Consumed, IsIdentifier, Spaces, IsSpace;
    var n := SpaceCount(s);
    ConsumedNothing(s);
    if n < |s| {
      WordBehindSpaces(s);
      var w := ReadAWord(s);
      assert s == s[..n] + (w.text + w.rest);
      Rejoin(s[..n], w.text, w.rest);
      ConsumedIsSpaced(s, s[..n], w.text, w.rest);
      IdentifierAt(s[n..]);
    }
  }

  lemma WordBehindSpaces(s: string)
    requires SpaceCount(s) < |s|
    ensures ReadAWord(s) == WordAt(s[SpaceCount(s)..])
  {
    hide WordAt;
  }

  lemma ConsumedNothing(s: string)
    ensures Consumed(s, s) + s == s
  {
  }

  lemma IdentifierAt(t: string)
    requires t != ""
    ensures WordAt(t).kind == Iden ==> IsIdentifier(WordAt(t).text)
  {
    if IsAlpha(t[0]) {
      var n := WordCharCount(t[1..]);
      assert WordAt(t).text == [t[0]] + t[1..][..n];
    }
  }

  lemma KeywordIsRead(s: string, word: string)
    requires FirstWordEqual(s, word) && word != ""
    ensures var w := ReadAWord(s);
      Consumed(s, w.rest) + w.rest == s && IsKeyword(Consumed(s, w.rest), word)
  {
    hide ReadAWord;
    WordIsSpaced(s);
  }

  lemma {:induction false} QuotedIsQuotable(t: string, previous: char)
    requires Quoted(t, previous).Parsed?
    ensures var v := Quoted(t, previous).value;
      && (forall i :: 0 <= i < |v| && v[i] == '\'' ==> if i > 0 then v[i - 1] == '\\' else previous == '\\')
      && (if v != "" then v[|v| - 1] != '\\' else previous != '\\')
  {
    if !(t[0] == '\'' && previous != '\\') {
      QuotedIsQuotable(t[1..], t[0]);
    }
  }

  lemma QuotedStringIsValue(s: string, numbers: bool)
    requires QuotedString(s).Parsed?
    ensures var v := QuotedString(s);
      && Consumed(s, v.rest) + v.rest == s && IsValue(Consumed(s, v.rest), v.value, numbers)
      && IsSpaced(Consumed(s, v.rest), "'" + v.value + "'")
  {
    hide ReadAWord, Spaces, IsQuotable, IsSpaced, Quoted, Consumed;
    var w := ReadAWord(s);
    var v := QuotedString(s);
    WordIsSpaced(s);
    LiteralIsQuotable(w.rest);
    var spaces := SpacedSplits(Consumed(s, w.rest), "'");
    var literal := "'" + v.value + "'";
    assert spaces + "'" + (v.value + "'" + v.rest) == spaces + literal + v.rest;
    ConsumedIsSpaced(s, spaces, literal, v.rest);
  }

  lemma SpacedSplits(text: string, mark: string) returns (spaces: string)
    requires IsSpaced(text, mark)
    ensures text == spaces + mark && Spaces(spaces)
  {
    spaces := text[..|text| - |mark|];
  }

  lemma LiteralIsQuotable(t: string)
    requires t != "" && Quoted(t, t[0]).Parsed?
    ensures IsQuotable(Quoted(t, t[0]).value)
  {
    QuotedIsQuotable(t, t[0]);
  }

  lemma WordStringIsValue(s: string, numbers: bool)
    requires WordString(s).Parsed? && !FirstWordEqual(s, "'") && (numbers ==> ReadAWord(s).kind != Integer)
    ensures var v := WordString(s);
      Consumed(s, v.rest) + v.rest == s && IsValue(Consumed(s, v.rest), v.value, numbers)
  {
    hide *;
    WordStringShape(s);
    var v := WordString(s);
    ConsumedIsSpaced(s, s[..SpaceCount(s)], v.value, v.rest);
    NumberIsInteger(s);
    assert s[SpaceCount(s)..][0] == s[SpaceCount(s)] && v.value != "";
    StartsAlike(s[SpaceCount(s)..], v.value);
    ValueIsWord(Consumed(s, v.rest), v.value, numbers);
  }

  lemma WordStringShape(s: string)
    requires WordString(s).Parsed? && !FirstWordEqual(s, "'")
    ensures var v := WordString(s);
      && SpaceCount(s) < |s| && IsWordString(v.value) && v.value != "" && v.value[0] == s[SpaceCount(s)]
      && s == s[..SpaceCount(s)] + v.value + v.rest
  {
    hide FirstWordEqual, Spaces, WordStringCount, IsWordString, EndsWordString;
    QuoteIsWord(s);
    var n := SpaceCount(s);
    WordOfString(s[n..]);
    var v := WordString(s);
    SplitsAt(s, n);
    SplitsAt(s[n..], |v.value|);
    Rejoin(s[..n], v.value, v.rest);
  }

  lemma SplitsAt(s: string, n: nat)
    requires n <= |s|
    ensures s == s[..n] + s[n..]
  {
  }

  lemma WordOfString(t: string)
    requires t != "" && !IsSpace(t[0]) && t[0] != ')' && t[0] != '\''
    ensures IsWordString(t[..WordStringCount(t)]) && t[..WordStringCount(t)][0] == t[0]
  {
  }

  lemma StartsAlike(a: string, b: string)
    requires a != "" && b != "" && a[0] == b[0]
    ensures StartsNumber(a) <==> StartsNumber(b)
  {
  }

  lemma ValueIsWord(text: string, literal: string, numbers: bool)
    requires IsWordString(literal) && IsSpaced(text, literal)
    requires numbers && StartsNumber(literal) ==> IsNumber(literal)
    ensures IsValue(text, literal, numbers)
  {
  }

  lemma ConsumedIsSpaced(s: string, spaces: string, mark: string, rest: string)
    requires s == spaces + mark + rest && Spaces(spaces)
    ensures Consumed(s, rest) + rest == s && IsSpaced(Consumed(s, rest), mark)
  {
    assert Consumed(s, rest) == spaces + mark;
  }

  lemma QuoteIsWord(s: string)
    ensures SpaceCount(s) < |s| && s[SpaceCount(s)] == '\'' ==> FirstWordEqual(s, "'")
  {
    hide WordAt;
    var t := s[SpaceCount(s)..];
    if t != "" && t[0] == '\'' {
      QuoteWordAt(t);
      assert ReadAWord(s).text == "'";
    }
  }

  lemma NumberIsInteger(s: string)
    ensures SpaceCount(s) < |s| && StartsNumber(s[SpaceCount(s)..]) ==> ReadAWord(s).kind == Integer
  {
  }

  lemma QuoteWordAt(t: string)
    requires t != "" && t[0] == '\''
    ensures WordAt(t).text == "'"
  {
    assert t[..1] == "'";
  }

  lemma NumberIsValue(s: string)
    requires ReadAWord(s).kind == Integer
    ensures var w := ReadAWord(s);
      Consumed(s, w.rest) + w.rest == s && IsValue(Consumed(s, w.rest), w.text, true)
  {
    hide ReadAWord, IsSpaced;
    WordIsSpaced(s);
    NumberIsWord(s);
    ValueIsWord(Consumed(s, ReadAWord(s).rest), ReadAWord(s).text, true);
  }

  lemma NumberIsWord(s: string)
    requires ReadAWord(s).kind == Integer
    ensures IsWordString(ReadAWord(s).text) && IsNumber(ReadAWord(s).text)
  {
    var t := s[SpaceCount(s)..];
    var n := DigitCount(t[1..]);
    assert ReadAWord(s).text == [t[0]] + t[1..][..n];
  }

  lemma MatchIsValue(s: string)
    requires MatchString(s).Parsed?
    ensures var v := MatchString(s);
      Consumed(s, v.rest) + v.rest == s && IsValue(Consumed(s, v.rest), v.value, false)
  {
    hide QuotedString, WordString, IsValue;
    if FirstWordEqual(s, "'") {
      QuotedStringIsValue(s, false);
    } else {
      WordStringIsValue(s, false);
    }
  }

  lemma ComparisonIsValue(s: string)
    requires ComparisonValue(s).Parsed?
    ensures var v := ComparisonValue(s);
      Consumed(s, v.rest) + v.rest == s && IsValue(Consumed(s, v.rest), v.value, true)
  {
    hide QuotedString, WordString, IsValue, ReadAWord;
    if FirstWordEqual(s, "'") {
      QuotedStringIsValue(s, true);
    } else if ReadAWord(s).kind == Integer {
      NumberIsValue(s);
    } else {
      WordStringIsValue(s, true);
    }
  }

  /** An operator is written as the grammar has it; `!=` is never read as one word. */
  lemma OperatorIsSymbol(s: string)
    requires OperatorOf(ReadAWord(s).text).Some?
    ensures var w := ReadAWord(s);
      Consumed(s, w.rest) + w.rest == s && IsSymbol(Consumed(s, w.rest), OperatorOf(w.text).value)
  {
    hide ReadAWord, IsSpaced;
    WordIsSpaced(s);
    NoUnequalWord(s);
  }

  lemma NoUnequalWord(s: string)
    ensures ReadAWord(s).text != "!="
  {
    var t := s[SpaceCount(s)..];
    if t != "" && t[0] == '!' {
      assert WordAt(t).text == t[..1];
    } else if t != "" {
      assert WordAt(t).text[0] == t[0];
    }
  }

  lemma PredicateIsDerived(s: string)
    requires ParsePredicate(s).Parsed?
    ensures var p := ParsePredicate(s); DerivedPrimary(p.value) && TextOfPrimary(p.value) + p.rest == s
  {
    hide ReadAWord, MatchString, ComparisonValue, IsValue, IsSymbol, IsSpaced, IsIdentifier, FirstWordEqual, OperatorOf, Consumed;
    WordIsSpaced(s);
    var w := ReadAWord(s);
    if FirstWordEqual(s, "contains") {
      MatchIsValue(w.rest);
      Rejoin(Consumed(s, w.rest), Consumed(w.rest, MatchString(w.rest).rest), MatchString(w.rest).rest);
    } else {
      OperatorIsSymbol(w.rest);
      var o := ReadAWord(w.rest);
      if OperatorOf(o.text).value.OpLike? {
        MatchIsValue(o.rest);
      } else {
        ComparisonIsValue(o.rest);
      }
      var v := ParsePredicate(s);
      Rejoin(Consumed(s, w.rest), Consumed(w.rest, o.rest) + Consumed(o.rest, v.rest), v.rest);
      Rejoin(Consumed(w.rest, o.rest), Consumed(o.rest, v.rest), v.rest);
      Rejoin(Consumed(s, w.rest), Consumed(w.rest, o.rest), Consumed(o.rest, v.rest));
    }
  }

  lemma Rejoin(a: string, b: string, c: string)
    ensures a + b + c == a + (b + c)
  {
  }

  lemma {:induction false} PrimaryIsDerived(s: string)
    requires ParsePrimary(s).Parsed?
    ensures var p := ParsePrimary(s); DerivedPrimary(p.value) && TextOfPrimary(p.value) + p.rest == s
    decreases |s|, 0
  {
    hide ReadAWord, ParsePredicate, ParseCondition, IsSpaced, FirstWordEqual, Derived, Text;
    if FirstWordEqual(s, "(") {
      ParenIsRead(s);
      var w := ReadAWord(s);
      WordConsumes(s, "(");
      ConditionIsDerived(w.rest);
      var c := ParseCondition(w.rest);
      WordIsSpaced(c.rest);
      ParenCloses(c.rest);
      var close := ReadAWord(c.rest);
      Rejoin(Consumed(s, w.rest), Text(c.value), Consumed(c.rest, close.rest) + close.rest);
      Rejoin(Consumed(s, w.rest) + Text(c.value), Consumed(c.rest, close.rest), close.rest);
    } else {
      PredicateIsDerived(s);
    }
  }

  lemma ParenIsRead(s: string)
    requires FirstWordEqual(s, "(")
    ensures var w := ReadAWord(s); Consumed(s, w.rest) + w.rest == s && IsSpaced(Consumed(s, w.rest), "(")
  {
    hide ReadAWord, IsSpaced;
    WordIsSpaced(s);
    LowerParen(ReadAWord(s).text);
  }

  lemma LowerParen(text: string)
    requires EqualIgnoringCase(text, "(")
    ensures text == "("
  {
    assert Lower(text[0]) == '(';
  }

  lemma ParenCloses(s: string)
    requires ReadAWord(s).text == ")"
    ensures IsSpaced(Consumed(s, ReadAWord(s).rest), ")")
  {
    hide ReadAWord;
    WordIsSpaced(s);
  }

  lemma {:induction false} FactorIsDerived(s: string)
    requires ParseFactor(s).Parsed?
    ensures var f := ParseFactor(s); DerivedFactor(f.value) && TextOfFactor(f.value) + f.rest == s
    decreases |s|, 1
  {
    hide ReadAWord, ParsePrimary, IsKeyword, FirstWordEqual, DerivedPrimary, TextOfPrimary;
    if FirstWordEqual(s, "not") {
      KeywordIsRead(s, "not");
      WordConsumes(s, "not");
      var w := ReadAWord(s);
      PrimaryIsDerived(w.rest);
      var p := ParsePrimary(w.rest);
      Rejoin(Consumed(s, w.rest), TextOfPrimary(p.value), p.rest);
    } else {
      PrimaryIsDerived(s);
      assert "" + TextOfPrimary(ParsePrimary(s).value) == TextOfPrimary(ParsePrimary(s).value);
    }
  }

  lemma {:induction false} FactorsAreDerived(s: string)
    requires ParseFactors(s).Parsed?
    ensures var fs := ParseFactors(s); DerivedFactors(fs.value) && TextOfFactors(fs.value) + fs.rest == s
    decreases |s|, 3
  {
    hide ReadAWord, ParseFactor, IsKeyword, FirstWordEqual, DerivedFactor, TextOfFactor;
    if FirstWordEqual(s, "and") {
      KeywordIsRead(s, "and");
      WordConsumes(s, "and");
      var w := ReadAWord(s);
      FactorIsDerived(w.rest);
      var f := ParseFactor(w.rest);
      FactorsAreDerived(f.rest);
      var more := ParseFactors(f.rest);
      Rejoin(Consumed(s, w.rest), TextOfFactor(f.value), f.rest);
      Rejoin(Consumed(s, w.rest) + TextOfFactor(f.value), TextOfFactors(more.value), more.rest);
    } else {
      assert "" + s == s;
    }
  }

  lemma {:induction false} TermIsDerived(s: string)
    requires ParseTerm(s).Parsed?
    ensures var t := ParseTerm(s); DerivedTerm(t.value) && TextOfTerm(t.value) + t.rest == s
    decreases |s|, 2
  {
    hide ParseFactor, ParseFactors, DerivedFactor, DerivedFactors, TextOfFactor, TextOfFactors;
    FactorIsDerived(s);
    var f := ParseFactor(s);
    FactorsAreDerived(f.rest);
    var more := ParseFactors(f.rest);
    Rejoin(TextOfFactor(f.value), TextOfFactors(more.value), more.rest);
  }

  lemma {:induction false} TermsAreDerived(s: string)
    requires ParseTerms(s).Parsed?
    ensures var ts := ParseTerms(s); DerivedTerms(ts.value) && TextOfTerms(ts.value) + ts.rest == s
    decreases |s|, 5
  {
    hide ReadAWord, ParseTerm, IsKeyword, FirstWordEqual, DerivedTerm, TextOfTerm;
    if FirstWordEqual(s, "or") {
      KeywordIsRead(s, "or");
      WordConsumes(s, "or");
      var w := ReadAWord(s);
      TermIsDerived(w.rest);
      var t := ParseTerm(w.rest);
      TermsAreDerived(t.rest);
      var more := ParseTerms(t.rest);
      Rejoin(Consumed(s, w.rest), TextOfTerm(t.value), t.rest);
      Rejoin(Consumed(s, w.rest) + TextOfTerm(t.value), TextOfTerms(more.value), more.rest);
    } else {
      assert "" + s == s;
    }
  }

  /** What the parser accepts is derived by the grammar, and its text is what was consumed. */
  lemma {:induction false} ConditionIsDerived(s: string)
    requires ParseCondition(s).Parsed?
    ensures var c := ParseCondition(s); Derived(c.value) && Text(c.value) + c.rest == s
    decreases |s|, 4
  {
    hide ParseTerm, ParseTerms, DerivedTerm, DerivedTerms, TextOfTerm, TextOfTerms;
    TermIsDerived(s);
    var t := ParseTerm(s);
    TermsAreDerived(t.rest);
    var more := ParseTerms(t.rest);
    Rejoin(TextOfTerm(t.value), TextOfTerms(more.value), more.rest);
  }

  // ---------------------------------------------------------------- unique meaning

  /** No literal holds a tag. */
  ghost predicate Clean(c: Cond)
    decreases c, 0
  {
    match c
    case Or(cs) => AllClean(cs)
    case And(cs) => AllClean(cs)
    case Not(d) => Clean(d)
    case Compare(_, _, literal) => '<' !in literal
    case Contains(literal) => '<' !in literal
  }

  ghost predicate AllClean(cs: seq<Cond>)
    decreases cs, 1
  {
    cs == [] || (Clean(cs[0]) && AllClean(cs[1..]))
  }

  lemma {:induction false} DerivedIsReadable(c: Condition)
    requires Derived(c) && Clean(Meaning(c))
    ensures Readable(Meaning(c))
    decreases c
  {
    var first := MeaningOfTerm(c.first);
    if c.more.NoTerms? {
      TermIsReadable(c.first);
    } else {
      assert ([first] + MeaningOfTerms(c.more))[1..] == MeaningOfTerms(c.more);
      TermIsReadable(c.first);
      TermsAreReadable(c.more);
    }
  }

  lemma {:induction false} TermsAreReadable(ts: Terms)
    requires DerivedTerms(ts) && AllClean(MeaningOfTerms(ts))
    ensures AllReadable(MeaningOfTerms(ts))
    decreases ts
  {
    if ts.MoreTerms? {
      assert ([MeaningOfTerm(ts.term)] + MeaningOfTerms(ts.more))[1..] == MeaningOfTerms(ts.more);
      TermIsReadable(ts.term);
      TermsAreReadable(ts.more);
    }
  }

  lemma {:induction false} TermIsReadable(t: Term)
    requires DerivedTerm(t) && Clean(MeaningOfTerm(t))
    ensures Readable(MeaningOfTerm(t))
    decreases t
  {
    if t.more.NoFactors? {
      FactorIsReadable(t.first);
    } else {
      assert ([MeaningOfFactor(t.first)] + MeaningOfFactors(t.more))[1..] == MeaningOfFactors(t.more);
      FactorIsReadable(t.first);
      FactorsAreReadable(t.more);
    }
  }

  lemma {:induction false} FactorsAreReadable(fs: Factors)
    requires DerivedFactors(fs) && AllClean(MeaningOfFactors(fs))
    ensures AllReadable(MeaningOfFactors(fs))
    decreases fs
  {
    if fs.MoreFactors? {
      assert ([MeaningOfFactor(fs.factor)] + MeaningOfFactors(fs.more))[1..] == MeaningOfFactors(fs.more);
      FactorIsReadable(fs.factor);
      FactorsAreReadable(fs.more);
    }
  }

  lemma {:induction false} FactorIsReadable(f: Factor)
    requires DerivedFactor(f) && Clean(MeaningOfFactor(f))
    ensures Readable(MeaningOfFactor(f))
    decreases f
  {
    hide Meaning, MeaningOfPrimary, DerivedPrimary;
    PrimaryIsReadable(f.primary);
  }

  lemma {:induction false} PrimaryIsReadable(p: Primary)
    requires DerivedPrimary(p) && Clean(MeaningOfPrimary(p))
    ensures Readable(MeaningOfPrimary(p))
    decreases p
  {
    hide Meaning;
    if p.Nested? {
      DerivedIsReadable(p.condition);
    }
  }

  /** An accepted query is a sentence of the grammar followed by spaces, and when no literal holds a
      tag, the emitted XML is read back as the meaning of that sentence, and is the text of no other
      condition. */
  lemma EmittedXmlHasOneMeaning(s: string, c: Condition, rest: string)
    requires ParseCondition(s) == Parsed(c, rest) && Spaces(rest)
    requires Clean(Meaning(c))
    ensures Derived(c) && Text(c) + rest == s
    ensures Readable(Meaning(c)) && Read(Xml(Meaning(c))) == Parsed(Meaning(c), "")
    ensures forall d :: Readable(d) && Xml(d) == Xml(Meaning(c)) ==> d == Meaning(c)
  {
    hide ParseCondition, Derived, Text, Meaning, Read, Readable, Xml, Clean;
    ConditionIsDerived(s);
    DerivedIsReadable(c);
    ReadUndoesXml(Meaning(c), "");
    assert Xml(Meaning(c)) + "" == Xml(Meaning(c));
    forall d | Readable(d) && Xml(d) == Xml(Meaning(c))
      ensures d == Meaning(c)
    {
      XmlIsUnique(d, Meaning(c), "", "");
    }
  }
}
