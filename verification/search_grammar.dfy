/** Exactly which trees the parser of search.c gives: those that the grammar derives and whose words,
    symbols and values stand separated. */
module SearchGrammar {
  import opened Common
  import opened SearchSyntax
  import opened SearchCompiler
  import opened SearchTheorems

  // ---------------------------------------------------------------- separation

  predicate WordEnds(after: string) {
    after == "" || !IsWordChar(after[0])
  }

  /** What follows does not make a longer symbol. */
  predicate SymbolEnds(op: Operator, after: string) {
    match op
    case OpGt => after == "" || after[0] != '='
    case OpLt => after == "" || (after[0] != '=' && after[0] != '>')
    case OpLike => WordEnds(after)
    case _ => true
  }

  predicate ValueEnds(text: string, value: string, numbers: bool, after: string) {
    || IsSpaced(text, "'" + value + "'")
    || after == ""
    || (if numbers && StartsNumber(value) then !IsDigit(after[0]) else EndsWordString(after[0]))
  }

  /** The tree, with `after` behind its text: every word, symbol and value ends where the tree says, no
      connective goes on where the tree ends, and no column is read as a keyword. */
  predicate Separated(c: Condition, after: string) {
    SeparatedTerm(c.first, TextOfTerms(c.more) + after) && SeparatedTerms(c.more, after)
  }

  predicate SeparatedTerms(ts: Terms, after: string) {
    match ts
    case NoTerms => !FirstWordEqual(after, "or")
    case MoreTerms(_, term, more) =>
      var behind := TextOfTerms(more) + after;
      WordEnds(TextOfTerm(term) + behind) && SeparatedTerm(term, behind) && SeparatedTerms(more, after)
  }

  predicate SeparatedTerm(t: Term, after: string) {
    SeparatedFactor(t.first, TextOfFactors(t.more) + after) && SeparatedFactors(t.more, after)
  }

  predicate SeparatedFactors(fs: Factors, after: string) {
    match fs
    case NoFactors => !FirstWordEqual(after, "and")
    case MoreFactors(_, factor, more) =>
      var behind := TextOfFactors(more) + after;
      WordEnds(TextOfFactor(factor) + behind) && SeparatedFactor(factor, behind) && SeparatedFactors(more, after)
  }

  predicate SeparatedFactor(f: Factor, after: string) {
    && SeparatedPrimary(f.primary, after)
    && match f
       case Plain(p) => p.Comparison? ==> !EqualIgnoringCase(p.column, "not")
       case Negated(_, p) => WordEnds(TextOfPrimary(p) + after)
  }

  predicate SeparatedPrimary(p: Primary, after: string) {
    match p
    case Nested(_, c, close) => Separated(c, close + after)
    case Comparison(_, column, operatorText, op, valueText, value) =>
      && !EqualIgnoringCase(column, "contains")
      && WordEnds(operatorText + (valueText + after)) && SymbolEnds(op, valueText + after)
      && ValueEnds(valueText, value, !op.OpLike?, after)
    case Containment(_, valueText, value) =>
      WordEnds(valueText + after) && ValueEnds(valueText, value, false, after)
  }

  // ---------------------------------------------------------------- reading words

  lemma {:induction false} SpaceCountOf(spaces: string, t: string)
    requires Spaces(spaces) && (t == "" || !IsSpace(t[0]))
    ensures SpaceCount(spaces + t) == |spaces|
  {
    if spaces == "" {
      assert spaces + t == t;
    } else {
      assert (spaces + t)[1..] == spaces[1..] + t;
      SpaceCountOf(spaces[1..], t);
    }
  }

  lemma ReadsBehindSpaces(spaces: string, t: string)
    requires Spaces(spaces) && t != "" && !IsSpace(t[0])
    ensures ReadAWord(spaces + t) == WordAt(t)
  {
    hide WordAt;
    SpaceCountOf(spaces, t);
    assert (spaces + t)[|spaces|..] == t;
  }

  lemma {:induction false} WordCharCountOf(word: string, rest: string)
    requires WordChars(word) && WordEnds(rest)
    ensures WordCharCount(word + rest) == |word|
  {
    if word == "" {
      assert word + rest == rest;
    } else {
      assert (word + rest)[1..] == word[1..] + rest;
      WordCharCountOf(word[1..], rest);
    }
  }

  lemma ReadsIdentifier(spaces: string, name: string, rest: string)
    requires Spaces(spaces) && IsIdentifier(name) && WordEnds(rest)
    ensures ReadAWord(spaces + (name + rest)) == Word(Iden, name, rest)
  {
    hide ReadAWord, WordAt, Spaces;
    ReadsBehindSpaces(spaces, name + rest);
    IdentifierStands(name, rest);
  }

  lemma IdentifierStands(name: string, rest: string)
    requires IsIdentifier(name) && WordEnds(rest)
    ensures WordAt(name + rest) == Word(Iden, name, rest)
  {
    var t := name + rest;
    assert t[1..] == name[1..] + rest;
    WordCharCountOf(name[1..], rest);
    assert t[..|name|] == name && t[|name|..] == rest;
  }

  /** A mark of one character that starts no longer one. */
  lemma ReadsMark(spaces: string, mark: char, rest: string)
    requires Spaces(spaces) && (mark == '(' || mark == ')' || mark == '\'')
    ensures ReadAWord(spaces + ([mark] + rest)) == Word(SingleKind(mark), [mark], rest)
  {
    hide ReadAWord, WordAt, Spaces;
    ReadsBehindSpaces(spaces, [mark] + rest);
    MarkStands(mark, rest);
  }

  lemma MarkStands(mark: char, rest: string)
    requires mark == '(' || mark == ')' || mark == '\''
    ensures WordAt([mark] + rest) == Word(SingleKind(mark), [mark], rest)
  {
    assert ([mark] + rest)[..1] == [mark] && ([mark] + rest)[1..] == rest;
  }

  lemma ReadsSymbol(spaces: string, op: Operator, rest: string)
    requires Spaces(spaces) && SymbolEnds(op, rest)
    ensures var w := ReadAWord(spaces + (Symbol(op) + rest)); w.rest == rest && OperatorOf(w.text) == Some(op)
  {
    hide ReadAWord, WordAt, Symbol;
    SymbolStarts(op);
    ReadsBehindSpaces(spaces, Symbol(op) + rest);
    if op.OpLike? {
      IdentifierStands("like", rest);
    } else {
      SymbolAt(op, rest);
    }
  }

  lemma SymbolStarts(op: Operator)
    ensures Symbol(op) != "" && !IsSpace(Symbol(op)[0])
    ensures OperatorOf(Symbol(op)) == Some(op)
    ensures op.OpLike? ==> Symbol(op) == "like" && IsIdentifier("like")
  {
  }

  lemma SymbolAt(op: Operator, rest: string)
    requires SymbolEnds(op, rest) && !op.OpLike?
    ensures WordAt(Symbol(op) + rest).text == Symbol(op) && WordAt(Symbol(op) + rest).rest == rest
  {
    var t := Symbol(op) + rest;
    var n := |Symbol(op)|;
    assert t[..n] == Symbol(op) && t[n..] == rest && (rest != "" ==> t[n] == rest[0]);
  }

  /** Quotes come behind backslashes, counting the character before the literal. */
  predicate Escaped(literal: string, previous: char) {
    && (forall i :: 0 <= i < |literal| ==> EscapedAt(literal, i, previous))
    && (if literal == "" then previous else literal[|literal| - 1]) != '\\'
  }

  predicate EscapedAt(literal: string, i: nat, previous: char)
    requires i < |literal|
  {
    literal[i] == '\'' ==> (if i == 0 then previous else literal[i - 1]) == '\\'
  }

  lemma EscapedTail(literal: string, previous: char)
    requires literal != "" && Escaped(literal, previous)
    ensures Escaped(literal[1..], literal[0]) && (literal[0] == '\'' ==> previous == '\\')
  {
    var tail := literal[1..];
    assert EscapedAt(literal, 0, previous);
    forall i | 0 <= i < |tail|
      ensures EscapedAt(tail, i, literal[0])
    {
      assert EscapedAt(literal, i + 1, previous);
    }
  }

  lemma {:induction false} ReadsQuoted(literal: string, previous: char, rest: string)
    requires Escaped(literal, previous)
    ensures Quoted(literal + ("'" + rest), previous) == Parsed(literal, rest)
  {
    hide Escaped;
    var t := literal + ("'" + rest);
    if literal == "" {
      assert Escaped("", previous);
      NotEscaped(previous);
      assert t == "'" + rest && t[1..] == rest;
    } else {
      EscapedTail(literal, previous);
      assert t[1..] == literal[1..] + ("'" + rest);
      ReadsQuoted(literal[1..], literal[0], rest);
      assert [literal[0]] + literal[1..] == literal;
    }
  }

  lemma NotEscaped(previous: char)
    requires Escaped("", previous)
    ensures previous != '\\'
  {
  }

  lemma QuotableIsEscaped(literal: string, first: char)
    requires IsQuotable(literal) && first == if literal == "" then '\'' else literal[0]
    ensures Escaped(literal, first)
  {
    forall i | 0 <= i < |literal|
      ensures EscapedAt(literal, i, first)
    {
    }
  }

  lemma ReadsLiteral(spaces: string, literal: string, rest: string)
    requires Spaces(spaces) && IsQuotable(literal)
    ensures QuotedString(spaces + "'" + literal + "'" + rest) == Parsed(literal, rest)
    ensures FirstWordEqual(spaces + "'" + literal + "'" + rest, "'")
  {
    hide ReadAWord, Spaces;
    var t := literal + ("'" + rest);
    assert spaces + "'" + literal + "'" + rest == spaces + (['\''] + t);
    ReadsMark(spaces, '\'', t);
    QuotableIsEscaped(literal, t[0]);
    ReadsQuoted(literal, t[0], rest);
  }

  lemma {:induction false} WordStringCountOf(word: string, rest: string)
    requires forall i :: 0 <= i < |word| ==> !EndsWordString(word[i])
    requires rest == "" || EndsWordString(rest[0])
    ensures WordStringCount(word + rest) == |word|
  {
    if word == "" {
      assert word + rest == rest;
    } else {
      assert (word + rest)[1..] == word[1..] + rest;
      WordStringCountOf(word[1..], rest);
    }
  }

  lemma ReadsWordString(spaces: string, word: string, rest: string)
    requires Spaces(spaces) && IsWordString(word) && (rest == "" || EndsWordString(rest[0]))
    ensures WordString(spaces + (word + rest)) == Parsed(word, rest)
  {
    hide WordStringCount, SpaceCount, Spaces;
    var t := word + rest;
    SpaceCountOf(spaces, t);
    assert (spaces + t)[|spaces|..] == t;
    WordStringCountOf(word, rest);
    assert t[..|word|] == word && t[|word|..] == rest;
  }

  /** A word string is taken neither for a quoted string nor, unless it starts as one, for a number. */
  lemma WordStringsFirstWord(spaces: string, word: string, rest: string)
    requires Spaces(spaces) && IsWordString(word)
    ensures !FirstWordEqual(spaces + (word + rest), "'")
    ensures !StartsNumber(word) ==> ReadAWord(spaces + (word + rest)).kind != Integer
  {
    hide ReadAWord, Spaces;
    ReadsBehindSpaces(spaces, word + rest);
    FirstOfWord(word + rest);
  }

  lemma FirstOfWord(t: string)
    requires t != ""
    ensures WordAt(t).text != "" && WordAt(t).text[0] == t[0]
    ensures t[0] != '\'' ==> !EqualIgnoringCase(WordAt(t).text, "'")
    ensures WordAt(t).kind == Integer ==> StartsNumber(t)
  {
    assert WordAt(t).text[0] == t[0];
    assert Lower(WordAt(t).text[0]) == Lower(t[0]);
  }

  // ---------------------------------------------------------------- separated sentences are read

  lemma ConsumedOf(text: string, after: string)
    ensures Consumed(text + after, after) == text
  {
  }

  lemma IdentifierInAnyCase(name: string, word: string)
    requires EqualIgnoringCase(name, word) && IsIdentifier(word)
    ensures IsIdentifier(name)
  {
    assert Lower(name[0]) == Lower(word[0]);
    forall i | 0 <= i < |name|
      ensures IsWordChar(name[i])
    {
      assert Lower(name[i]) == Lower(word[i]);
    }
  }

  lemma ReadsKeyword(text: string, word: string, after: string)
    requires IsKeyword(text, word) && IsIdentifier(word) && WordEnds(after)
    ensures FirstWordEqual(text + after, word) && ReadAWord(text + after).rest == after
    ensures Consumed(text + after, after) == text
  {
    hide ReadAWord, EqualIgnoringCase, IsIdentifier, Spaces, WordEnds;
    var n := |text| - |word|;
    var name := text[n..];
    IdentifierInAnyCase(name, word);
    assert text + after == text[..n] + (name + after);
    ReadsIdentifier(text[..n], name, after);
    ConsumedOf(text, after);
  }

  lemma ReadsName(text: string, name: string, after: string)
    requires IsSpaced(text, name) && IsIdentifier(name) && WordEnds(after)
    ensures ReadAWord(text + after) == Word(Iden, name, after) && Consumed(text + after, after) == text
  {
    hide ReadAWord, IsIdentifier, Spaces, WordEnds;
    var spaces := SpacedSplits(text, name);
    assert text + after == spaces + (name + after);
    ReadsIdentifier(spaces, name, after);
    ConsumedOf(text, after);
  }

  lemma ReadsParenthesis(text: string, mark: char, after: string)
    requires (mark == '(' || mark == ')') && IsSpaced(text, [mark])
    ensures ReadAWord(text + after) == Word(SingleKind(mark), [mark], after) && Consumed(text + after, after) == text
  {
    hide ReadAWord, Spaces;
    var spaces := SpacedSplits(text, [mark]);
    assert text + after == spaces + ([mark] + after);
    ReadsMark(spaces, mark, after);
    ConsumedOf(text, after);
  }

  lemma ReadsOperator(text: string, op: Operator, after: string)
    requires IsSymbol(text, op) && SymbolEnds(op, after)
    ensures var w := ReadAWord(text + after); w.rest == after && OperatorOf(w.text) == Some(op)
    ensures Consumed(text + after, after) == text
  {
    hide ReadAWord, Spaces, Symbol, SymbolEnds, OperatorOf;
    var spaces := SpacedSplits(text, Symbol(op));
    assert text + after == spaces + (Symbol(op) + after);
    ReadsSymbol(spaces, op, after);
    ConsumedOf(text, after);
  }

  lemma {:induction false} DigitCountOf(digits: string, rest: string)
    requires Digits(digits) && (rest == "" || !IsDigit(rest[0]))
    ensures DigitCount(digits + rest) == |digits|
  {
    if digits == "" {
      assert digits + rest == rest;
    } else {
      assert (digits + rest)[1..] == digits[1..] + rest;
      DigitCountOf(digits[1..], rest);
    }
  }

  lemma NumberStands(number: string, rest: string)
    requires IsNumber(number) && (rest == "" || !IsDigit(rest[0]))
    ensures WordAt(number + rest) == Word(Integer, number, rest)
  {
    var t := number + rest;
    assert t[1..] == number[1..] + rest;
    DigitCountOf(number[1..], rest);
    assert t[..|number|] == number && t[|number|..] == rest;
  }

  lemma ReadsNumber(spaces: string, number: string, rest: string)
    requires Spaces(spaces) && IsNumber(number) && IsWordString(number) && (rest == "" || !IsDigit(rest[0]))
    ensures ReadAWord(spaces + (number + rest)) == Word(Integer, number, rest)
  {
    hide ReadAWord, WordAt, Spaces;
    NumberStands(number, rest);
    ReadsBehindSpaces(spaces, number + rest);
  }

  /** The value is read by the one of the two functions that the place asks for. */
  lemma ReadsValueText(text: string, value: string, numbers: bool, after: string)
    requires IsValue(text, value, numbers) && ValueEnds(text, value, numbers, after)
    ensures (if numbers then ComparisonValue(text + after) else MatchString(text + after)) == Parsed(value, after)
    ensures Consumed(text + after, after) == text
  {
    hide ReadAWord, QuotedString, WordString, EqualIgnoringCase, IsQuotable, IsWordString, StartsNumber, IsNumber, Spaces,
      EndsWordString, IsDigit, IsSpaced;
    ConsumedOf(text, after);
    if IsQuotable(value) && IsSpaced(text, "'" + value + "'") {
      var spaces := SpacedSplits(text, "'" + value + "'");
      assert text + after == spaces + "'" + value + "'" + after;
      ReadsLiteral(spaces, value, after);
    } else {
      NotBothForms(text, value);
      var spaces := SpacedSplits(text, value);
      assert text + after == spaces + (value + after);
      WordStringsFirstWord(spaces, value, after);
      if numbers && StartsNumber(value) {
        ReadsNumber(spaces, value, after);
      } else {
        ReadsWordString(spaces, value, after);
      }
    }
  }

  lemma QuoteStands(text: string, value: string)
    requires IsSpaced(text, "'" + value + "'")
    ensures |text| >= |value| + 2 && text[|text| - |value| - 2] == '\''
  {
    assert text[|text| - |value| - 2..][0] == '\'';
  }

  lemma NotBothForms(text: string, value: string)
    requires IsSpaced(text, value)
    ensures !IsSpaced(text, "'" + value + "'")
  {
    var spaces := SpacedSplits(text, value);
    assert |spaces| >= 2 ==> IsSpace(text[|spaces| - 2]);
    if IsSpaced(text, "'" + value + "'") {
      QuoteStands(text, value);
    }
  }

  lemma FirstOfPrimary(p: Primary, after: string)
    requires DerivedPrimary(p) && SeparatedPrimary(p, after)
    ensures FirstWordEqual(TextOfPrimary(p) + after, "not") <==> p.Comparison? && EqualIgnoringCase(p.column, "not")
    ensures FirstWordEqual(TextOfPrimary(p) + after, "(") <==> p.Nested?
  {
    hide ReadAWord, IsSpaced, IsIdentifier, IsValue, IsSymbol, Derived, Separated, Text, ValueEnds, WordEnds, SymbolEnds;
    match p
    case Nested(open, c, close) =>
      Rejoin(open + Text(c), close, after);
      Rejoin(open, Text(c), close + after);
      ReadsParenthesis(open, '(', Text(c) + (close + after));
    case Comparison(columnText, column, operatorText, _, valueText, _) =>
      Rejoin(columnText + operatorText, valueText, after);
      Rejoin(columnText, operatorText, valueText + after);
      ReadsName(columnText, column, operatorText + (valueText + after));
      NoParenthesis(column);
    case Containment(keyword, valueText, _) =>
      Rejoin(keyword, valueText, after);
      NoParenthesis("contains");
      ReadsName(keyword, "contains", valueText + after);
  }

  lemma NoParenthesis(name: string)
    ensures IsIdentifier(name) ==> !EqualIgnoringCase(name, "(")
    ensures IsIdentifier("contains")
  {
    if name != "" && IsAlpha(name[0]) {
      assert Lower(name[0]) != '(';
    }
  }

  lemma ReadsComparison(p: Primary, after: string)
    requires p.Comparison? && DerivedPrimary(p) && SeparatedPrimary(p, after)
    ensures ParsePredicate(TextOfPrimary(p) + after) == Parsed(p, after)
  {
    hide ReadAWord, IsSpaced, IsIdentifier, IsValue, IsSymbol, ValueEnds, WordEnds, SymbolEnds, Consumed, OperatorOf,
      MatchString, ComparisonValue, EqualIgnoringCase;
    Rejoin(p.columnText + p.operatorText, p.valueText, after);
    Rejoin(p.columnText, p.operatorText, p.valueText + after);
    ReadsName(p.columnText, p.column, p.operatorText + (p.valueText + after));
    ReadsOperator(p.operatorText, p.operator, p.valueText + after);
    ReadsValueText(p.valueText, p.value, !p.operator.OpLike?, after);
  }

  lemma ReadsContainment(p: Primary, after: string)
    requires p.Containment? && DerivedPrimary(p) && SeparatedPrimary(p, after)
    ensures ParsePredicate(TextOfPrimary(p) + after) == Parsed(p, after)
  {
    hide ReadAWord, IsSpaced, IsIdentifier, IsValue, ValueEnds, WordEnds, Consumed, MatchString;
    Rejoin(p.keyword, p.valueText, after);
    NoParenthesis("contains");
    ReadsName(p.keyword, "contains", p.valueText + after);
    ReadsValueText(p.valueText, p.value, false, after);
  }

  lemma {:induction false} ReadsPrimaryText(p: Primary, after: string)
    requires DerivedPrimary(p) && SeparatedPrimary(p, after)
    ensures ParsePrimary(TextOfPrimary(p) + after) == Parsed(p, after)
    decreases p
  {
    hide ReadAWord, IsSpaced, ParsePredicate, ParseCondition, Derived, Separated, Text, Consumed, FirstWordEqual;
    FirstOfPrimary(p, after);
    match p
    case Nested(open, c, close) =>
      Rejoin(open + Text(c), close, after);
      Rejoin(open, Text(c), close + after);
      ReadsParenthesis(open, '(', Text(c) + (close + after));
      ReadsText(c, close + after);
      ReadsParenthesis(close, ')', after);
    case Comparison(_, _, _, _, _, _) => ReadsComparison(p, after);
    case Containment(_, _, _) => ReadsContainment(p, after);
  }

  lemma {:induction false} ReadsFactorText(f: Factor, after: string)
    requires DerivedFactor(f) && SeparatedFactor(f, after)
    ensures ParseFactor(TextOfFactor(f) + after) == Parsed(f, after)
    decreases f
  {
    hide ReadAWord, ParsePrimary, DerivedPrimary, SeparatedPrimary, TextOfPrimary, Consumed, FirstWordEqual, IsKeyword, WordEnds;
    ReadsPrimaryText(f.primary, after);
    if f.Negated? {
      Rejoin(f.notText, TextOfPrimary(f.primary), after);
      assert IsIdentifier("not");
      ReadsKeyword(f.notText, "not", TextOfPrimary(f.primary) + after);
    } else {
      assert "" + TextOfPrimary(f.primary) == TextOfPrimary(f.primary);
      FirstOfPrimary(f.primary, after);
    }
  }

  lemma {:induction false} ReadsFactorsText(fs: Factors, after: string)
    requires DerivedFactors(fs) && SeparatedFactors(fs, after)
    ensures ParseFactors(TextOfFactors(fs) + after) == Parsed(fs, after)
    decreases fs
  {
    hide ReadAWord, ParseFactor, DerivedFactor, SeparatedFactor, TextOfFactor, Consumed, FirstWordEqual, IsKeyword, WordEnds;
    match fs
    case NoFactors => assert "" + after == after;
    case MoreFactors(andText, factor, more) =>
      var behind := TextOfFactors(more) + after;
      Rejoin(andText + TextOfFactor(factor), TextOfFactors(more), after);
      Rejoin(andText, TextOfFactor(factor), behind);
      assert IsIdentifier("and");
      ReadsKeyword(andText, "and", TextOfFactor(factor) + behind);
      ReadsFactorText(factor, behind);
      ReadsFactorsText(more, after);
  }

  lemma {:induction false} ReadsTermText(t: Term, after: string)
    requires DerivedTerm(t) && SeparatedTerm(t, after)
    ensures ParseTerm(TextOfTerm(t) + after) == Parsed(t, after)
    decreases t
  {
    hide ParseFactor, ParseFactors, DerivedFactor, DerivedFactors, SeparatedFactor, SeparatedFactors, TextOfFactor, TextOfFactors;
    Rejoin(TextOfFactor(t.first), TextOfFactors(t.more), after);
    ReadsFactorText(t.first, TextOfFactors(t.more) + after);
    ReadsFactorsText(t.more, after);
  }

  lemma {:induction false} ReadsTermsText(ts: Terms, after: string)
    requires DerivedTerms(ts) && SeparatedTerms(ts, after)
    ensures ParseTerms(TextOfTerms(ts) + after) == Parsed(ts, after)
    decreases ts
  {
    hide ReadAWord, ParseTerm, DerivedTerm, SeparatedTerm, TextOfTerm, Consumed, FirstWordEqual, IsKeyword, WordEnds;
    match ts
    case NoTerms => assert "" + after == after;
    case MoreTerms(orText, term, more) =>
      var behind := TextOfTerms(more) + after;
      Rejoin(orText + TextOfTerm(term), TextOfTerms(more), after);
      Rejoin(orText, TextOfTerm(term), behind);
      assert IsIdentifier("or");
      ReadsKeyword(orText, "or", TextOfTerm(term) + behind);
      ReadsTermText(term, behind);
      ReadsTermsText(more, after);
  }

  lemma {:induction false} ReadsText(c: Condition, after: string)
    requires Derived(c) && Separated(c, after)
    ensures ParseCondition(Text(c) + after) == Parsed(c, after)
    decreases c
  {
    hide ParseTerm, ParseTerms, DerivedTerm, DerivedTerms, SeparatedTerm, SeparatedTerms, TextOfTerm, TextOfTerms;
    Rejoin(TextOfTerm(c.first), TextOfTerms(c.more), after);
    ReadsTermText(c.first, TextOfTerms(c.more) + after);
    ReadsTermsText(c.more, after);
  }

  // ---------------------------------------------------------------- what is read is separated

  lemma WordAtEnds(t: string)
    requires t != ""
    ensures WordAt(t).kind == Iden ==> WordEnds(WordAt(t).rest)
    ensures WordAt(t).kind == Integer ==> WordAt(t).rest == "" || !IsDigit(WordAt(t).rest[0])
  {
  }

  lemma SymbolAtEnds(t: string)
    requires t != "" && OperatorOf(WordAt(t).text).Some?
    ensures SymbolEnds(OperatorOf(WordAt(t).text).value, WordAt(t).rest)
  {
    var w := WordAt(t);
    assert w.text[0] == t[0];
    if w.text == ">" || w.text == "<" {
      assert w.rest != "" ==> w.rest[0] == t[1];
    } else if w.text == "like" {
      WordAtEnds(t);
    }
  }

  lemma NoWordBehind(s: string)
    requires SpaceCount(s) == |s|
    ensures ReadAWord(s) == Word(EndBuf, "", s) && OperatorOf("").None? && !IsIdentifier("")
  {
  }

  lemma WordReadEnds(s: string)
    ensures var w := ReadAWord(s);
      && (w.kind == Iden ==> WordEnds(w.rest))
      && (w.kind == Integer ==> w.rest == "" || !IsDigit(w.rest[0]))
      && (OperatorOf(w.text).Some? ==> SymbolEnds(OperatorOf(w.text).value, w.rest))
  {
    hide ReadAWord, WordAt, SymbolEnds, WordEnds, IsDigit, OperatorOf;
    if SpaceCount(s) < |s| {
      var t := s[SpaceCount(s)..];
      WordBehindSpaces(s);
      WordAtEnds(t);
      if OperatorOf(WordAt(t).text).Some? {
        SymbolAtEnds(t);
      }
    } else {
      NoWordBehind(s);
    }
  }

  lemma KeywordEnds(s: string, word: string)
    requires FirstWordEqual(s, word) && IsIdentifier(word)
    ensures WordEnds(ReadAWord(s).rest)
  {
    hide WordAt, WordEnds, EqualIgnoringCase, IsIdentifier;
    IdentifierInAnyCase(ReadAWord(s).text, word);
    if SpaceCount(s) < |s| {
      WordBehindSpaces(s);
      NameIsIden(s[SpaceCount(s)..]);
    } else {
      NoWordBehind(s);
    }
    WordReadEnds(s);
  }

  lemma NameIsIden(t: string)
    requires t != "" && IsIdentifier(WordAt(t).text)
    ensures WordAt(t).kind == Iden
  {
    assert WordAt(t).text[0] == t[0];
  }

  lemma WordStringEnds(s: string)
    requires WordString(s).Parsed?
    ensures WordString(s).rest == "" || EndsWordString(WordString(s).rest[0])
  {
    hide EndsWordString;
  }

  lemma ValueReadEnds(s: string, numbers: bool)
    ensures var v := if numbers then ComparisonValue(s) else MatchString(s);
      v.Parsed? ==> ValueEnds(Consumed(s, v.rest), v.value, numbers, v.rest)
  {
    hide ReadAWord, QuotedString, WordString, IsSpaced, Consumed, IsNumber, StartsNumber, IsDigit, EndsWordString, FirstWordEqual;
    var v := if numbers then ComparisonValue(s) else MatchString(s);
    if v.Parsed? {
      if FirstWordEqual(s, "'") {
        QuotedStringIsValue(s, numbers);
      } else if numbers && ReadAWord(s).kind == Integer {
        NumberIsWord(s);
        WordReadEnds(s);
        assert IsNumber(v.value) ==> StartsNumber(v.value);
      } else {
        WordStringEnds(s);
        WordStringShape(s);
        NumberIsInteger(s);
        StartsAlike(s[SpaceCount(s)..], v.value);
      }
    }
  }

  lemma PredicateIsSeparated(s: string)
    requires ParsePredicate(s).Parsed?
    ensures var p := ParsePredicate(s); SeparatedPrimary(p.value, p.rest)
  {
    hide ReadAWord, MatchString, ComparisonValue, WordEnds, SymbolEnds, ValueEnds, OperatorOf, Consumed, EqualIgnoringCase;
    var w := ReadAWord(s);
    if FirstWordEqual(s, "contains") {
      NoParenthesis("contains");
      KeywordEnds(s, "contains");
      MatchIsValue(w.rest);
      ValueReadEnds(w.rest, false);
    } else {
      WordReadEnds(s);
      var o := ReadAWord(w.rest);
      WordReadEnds(w.rest);
      WordIsSpaced(w.rest);
      if OperatorOf(o.text).value.OpLike? {
        MatchIsValue(o.rest);
        ValueReadEnds(o.rest, false);
      } else {
        ComparisonIsValue(o.rest);
        ValueReadEnds(o.rest, true);
      }
    }
  }

  lemma {:induction false} PrimaryIsSeparated(s: string)
    requires ParsePrimary(s).Parsed?
    ensures var p := ParsePrimary(s); SeparatedPrimary(p.value, p.rest)
    decreases |s|, 0
  {
    hide ReadAWord, ParsePredicate, ParseCondition, FirstWordEqual, Separated, Consumed;
    if FirstWordEqual(s, "(") {
      WordConsumes(s, "(");
      var c := ParseCondition(ReadAWord(s).rest);
      WordIsSpaced(c.rest);
      ConditionIsSeparated(ReadAWord(s).rest);
    } else {
      PredicateIsSeparated(s);
    }
  }

  lemma {:induction false} FactorIsSeparated(s: string)
    requires ParseFactor(s).Parsed?
    ensures var f := ParseFactor(s); SeparatedFactor(f.value, f.rest)
    decreases |s|, 1
  {
    hide ReadAWord, ParsePrimary, FirstWordEqual, SeparatedPrimary, WordEnds, TextOfPrimary, DerivedPrimary, EqualIgnoringCase;
    if FirstWordEqual(s, "not") {
      WordConsumes(s, "not");
      assert IsIdentifier("not");
      KeywordEnds(s, "not");
      PrimaryIsDerived(ReadAWord(s).rest);
      PrimaryIsSeparated(ReadAWord(s).rest);
    } else {
      PrimaryIsDerived(s);
      PrimaryIsSeparated(s);
      FirstOfPrimary(ParsePrimary(s).value, ParsePrimary(s).rest);
    }
  }

  lemma {:induction false} FactorsAreSeparated(s: string)
    requires ParseFactors(s).Parsed?
    ensures var fs := ParseFactors(s); SeparatedFactors(fs.value, fs.rest)
    decreases |s|, 3
  {
    hide ReadAWord, ParseFactor, FirstWordEqual, SeparatedFactor, WordEnds, TextOfFactor, DerivedFactor;
    if FirstWordEqual(s, "and") {
      WordConsumes(s, "and");
      assert IsIdentifier("and");
      KeywordEnds(s, "and");
      var t := ReadAWord(s).rest;
      FactorIsDerived(t);
      FactorsAreDerived(ParseFactor(t).rest);
      FactorIsSeparated(t);
      FactorsAreSeparated(ParseFactor(t).rest);
    }
  }

  lemma {:induction false} TermIsSeparated(s: string)
    requires ParseTerm(s).Parsed?
    ensures var t := ParseTerm(s); SeparatedTerm(t.value, t.rest)
    decreases |s|, 2
  {
    hide ParseFactor, ParseFactors, SeparatedFactor, SeparatedFactors, TextOfFactors, DerivedFactors;
    FactorIsSeparated(s);
    FactorsAreDerived(ParseFactor(s).rest);
    FactorsAreSeparated(ParseFactor(s).rest);
  }

  lemma {:induction false} TermsAreSeparated(s: string)
    requires ParseTerms(s).Parsed?
    ensures var ts := ParseTerms(s); SeparatedTerms(ts.value, ts.rest)
    decreases |s|, 5
  {
    hide ReadAWord, ParseTerm, FirstWordEqual, SeparatedTerm, WordEnds, TextOfTerm, DerivedTerm;
    if FirstWordEqual(s, "or") {
      WordConsumes(s, "or");
      assert IsIdentifier("or");
      KeywordEnds(s, "or");
      var t := ReadAWord(s).rest;
      TermIsDerived(t);
      TermsAreDerived(ParseTerm(t).rest);
      TermIsSeparated(t);
      TermsAreSeparated(ParseTerm(t).rest);
    }
  }

  lemma {:induction false} ConditionIsSeparated(s: string)
    requires ParseCondition(s).Parsed?
    ensures var c := ParseCondition(s); Separated(c.value, c.rest)
    decreases |s|, 4
  {
    hide ParseTerm, ParseTerms, SeparatedTerm, SeparatedTerms, TextOfTerms, DerivedTerms;
    TermIsSeparated(s);
    TermsAreDerived(ParseTerm(s).rest);
    TermsAreSeparated(ParseTerm(s).rest);
  }

  /** The parser reads a tree exactly from the text of a derivation that stands separated. */
  lemma ReadsExactlySentences(s: string, c: Condition, rest: string)
    ensures ParseCondition(s) == Parsed(c, rest) <==> s == Text(c) + rest && Derived(c) && Separated(c, rest)
  {
    hide ParseCondition, Text, Derived, Separated;
    if ParseCondition(s) == Parsed(c, rest) {
      ConditionIsDerived(s);
      ConditionIsSeparated(s);
    }
    if s == Text(c) + rest && Derived(c) && Separated(c, rest) {
      ReadsText(c, rest);
    }
  }

  // ---------------------------------------------------------------- contains

  predicate Closes(t: string, k: nat)
    requires 0 < k < |t|
  {
    t[k] == '\'' && t[k - 1] != '\\'
  }

  /** Behind spaces, a character that is no closing parenthesis, and, if it opens a quoted string, a
      later quote that ends it. */
  predicate ValueFollows(t: string) {
    var n := SpaceCount(t);
    n < |t| && t[n] != ')' && (t[n] == '\'' ==> exists k :: n < k < |t| && Closes(t, k))
  }

  lemma {:induction false} QuotedIffCloses(t: string, n: nat)
    requires n + 1 < |t|
    ensures Quoted(t[n + 1..], t[n]).Parsed? <==> exists k :: n < k < |t| && Closes(t, k)
    decreases |t| - n
  {
    assert t[n + 1..][0] == t[n + 1] && t[n + 1..][1..] == t[n + 2..];
    if !Closes(t, n + 1) {
      if n + 2 < |t| {
        QuotedIffCloses(t, n + 1);
      } else {
        assert t[n + 2..] == "";
      }
    }
  }

  lemma OpensQuoted(t: string)
    requires SpaceCount(t) < |t| && t[SpaceCount(t)] == '\''
    ensures FirstWordEqual(t, "'") && ReadAWord(t) == Word(Quot, "'", t[SpaceCount(t) + 1..])
  {
    hide *;
    var n := SpaceCount(t);
    SplitsAt(t, n);
    assert t[n..] == ['\''] + t[n + 1..];
    ReadsMark(t[..n], '\'', t[n + 1..]);
    QuoteIsQuote();
  }

  lemma QuoteIsQuote()
    ensures SingleKind('\'').Quot? && forall s :: ReadAWord(s).text == "'" ==> FirstWordEqual(s, "'")
  {
    hide ReadAWord;
  }

  lemma MatchIffValue(t: string)
    ensures MatchString(t).Parsed? <==> ValueFollows(t)
  {
    hide ReadAWord, Quoted, WordStringCount, EqualIgnoringCase;
    var n := SpaceCount(t);
    if n < |t| && t[n] == '\'' {
      OpensQuoted(t);
      if n + 1 < |t| {
        QuotedIffCloses(t, n);
        FirstQuoteIsAlike(t, n);
      } else {
        assert Quoted("", '\0').Failed?;
      }
    } else {
      NotQuoted(t);
    }
  }

  /** The character in front of a quoted string is taken to be its own first character. */
  lemma FirstQuoteIsAlike(t: string, n: nat)
    requires n + 1 < |t| && t[n] == '\''
    ensures Quoted(t[n + 1..], t[n + 1]).Parsed? <==> Quoted(t[n + 1..], t[n]).Parsed?
  {
  }

  lemma NotQuoted(t: string)
    requires SpaceCount(t) < |t| ==> t[SpaceCount(t)] != '\''
    ensures !FirstWordEqual(t, "'")
  {
    hide WordAt, EqualIgnoringCase;
    if SpaceCount(t) < |t| {
      WordBehindSpaces(t);
      FirstOfWord(t[SpaceCount(t)..]);
    } else {
      assert !EqualIgnoringCase("", "'") by { EmptyIsNoQuote(); }
    }
  }

  lemma EmptyIsNoQuote()
    ensures !EqualIgnoringCase("", "'")
  {
  }

  /** A text whose first word is `contains` in any case is a predicate if and only if that word is in
      lower case and a value follows; with any capital letter the whole query is refused. */
  lemma ContainsIffLowerCase(s: string)
    requires FirstWordEqual(s, "contains")
    ensures ParsePredicate(s).Parsed? <==> ReadAWord(s).text == "contains" && ValueFollows(ReadAWord(s).rest)
    ensures ReadAWord(s).text != "contains" ==> ParseCondition(s).Failed?
  {
    hide ReadAWord, ValueFollows, MatchString, EqualIgnoringCase;
    MatchIffValue(ReadAWord(s).rest);
    ContainsIsNo(ReadAWord(s).text);
    assert ParsePrimary(s) == ParsePredicate(s) && ParseFactor(s).Parsed? <==> ParsePredicate(s).Parsed?;
  }

  lemma ContainsIsNo(text: string)
    requires EqualIgnoringCase(text, "contains")
    ensures !EqualIgnoringCase(text, "not") && !EqualIgnoringCase(text, "(")
  {
  }

  lemma ContainsIsRead(keyword: string)
    requires keyword == "contains" || keyword == "Contains"
    ensures FirstWordEqual(keyword + " x", "contains") && ReadAWord(keyword + " x").text == keyword
  {
    hide ReadAWord, EqualIgnoringCase, IsIdentifier;
    ContainsMatches(keyword);
    assert keyword + " x" == "" + (keyword + " x");
    ReadsIdentifier("", keyword, " x");
  }

  lemma ContainsMatches(keyword: string)
    requires keyword == "contains" || keyword == "Contains"
    ensures IsIdentifier(keyword) && EqualIgnoringCase(keyword, "contains")
  {
  }

  lemma ContainsTree() returns (p: Primary)
    ensures DerivedPrimary(p) && SeparatedPrimary(p, "") && TextOfPrimary(p) == "contains x" && p.Containment?
  {
    p := Containment("contains", " x", "x");
  }

  lemma ContainsIsQuery()
    ensures ParseCondition("contains x").Parsed?
  {
    hide ParseCondition, DerivedPrimary, SeparatedPrimary, TextOfPrimary, FirstWordEqual;
    var p := ContainsTree();
    EndHasNoWord();
    var f := Plain(p);
    assert DerivedFactor(f) && SeparatedFactor(f, "") && TextOfFactor(f) == "contains x";
    var t := Term(f, NoFactors);
    assert TextOfFactors(NoFactors) + "" == "" && TextOfTerms(NoTerms) + "" == "";
    assert DerivedTerm(t) && SeparatedTerm(t, "") && TextOfTerm(t) == "contains x";
    var c := Condition(t, NoTerms);
    ReadsText(c, "");
    assert Text(c) + "" == "contains x";
  }

  /** `contains x` is a query and `Contains x`, whose first word is recognized too, is none. */
  lemma ContainsInCapitalsFails()
    ensures FirstWordEqual("Contains x", "contains") && ParseCondition("Contains x").Failed?
    ensures ParseCondition("contains x").Parsed?
  {
    hide ReadAWord, ParseCondition, FirstWordEqual;
    ContainsIsRead("Contains");
    assert "Contains" + " x" == "Contains x";
    ContainsIffLowerCase("Contains x");
    ContainsIsQuery();
  }

  lemma EndHasNoWord()
    ensures !FirstWordEqual("", "and") && !FirstWordEqual("", "or")
  {
  }
}
