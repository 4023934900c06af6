/** The query compiler of search.c: it consumes the query and appends the XML to buffers. */
module SearchCompiler {
  import opened Common
  import opened SearchSyntax
  import opened SearchXml

  // ---------------------------------------------------------------- what a syntax tree means

  /** One term is itself; terms joined by `or` are alternatives. */
  function Meaning(c: Condition): Cond {
    if c.more.NoTerms? then MeaningOfTerm(c.first) else Or([MeaningOfTerm(c.first)] + MeaningOfTerms(c.more))
  }

  function MeaningOfTerms(ts: Terms): seq<Cond> {
    match ts
    case NoTerms => []
    case MoreTerms(_, term, more) => [MeaningOfTerm(term)] + MeaningOfTerms(more)
  }

  function MeaningOfTerm(t: Term): Cond {
    if t.more.NoFactors? then MeaningOfFactor(t.first) else And([MeaningOfFactor(t.first)] + MeaningOfFactors(t.more))
  }

  function MeaningOfFactors(fs: Factors): seq<Cond> {
    match fs
    case NoFactors => []
    case MoreFactors(_, factor, more) => [MeaningOfFactor(factor)] + MeaningOfFactors(more)
  }

  function MeaningOfFactor(f: Factor): Cond {
    match f
    case Plain(p) => MeaningOfPrimary(p)
    case Negated(_, p) => Not(MeaningOfPrimary(p))
  }

  function MeaningOfPrimary(p: Primary): Cond {
    match p
    case Nested(_, c, _) => Meaning(c)
    case Comparison(_, column, _, operator, _, value) => Compare(operator, column, value)
    case Containment(_, _, value) => Contains(value)
  }

  // ---------------------------------------------------------------- counting

  lemma SpaceCountFrom(s: string, i: nat)
    requires i <= |s| && Spaces(s[..i])
    ensures SpaceCount(s) == i + SpaceCount(s[i..])
  {
    if i == 0 {
      assert s[0..] == s;
    } else {
      assert s[0] == s[..i][0];
      assert s[1..][..i - 1] == s[..i][1..];
      assert s[1..][i - 1..] == s[i..];
      SpaceCountFrom(s[1..], i - 1);
    }
  }

  lemma DigitCountFrom(s: string, i: nat)
    requires i <= |s| && Digits(s[..i])
    ensures DigitCount(s) == i + DigitCount(s[i..])
  {
    if i == 0 {
      assert s[0..] == s;
    } else {
      assert s[0] == s[..i][0];
      assert s[1..][..i - 1] == s[..i][1..];
      assert s[1..][i - 1..] == s[i..];
      DigitCountFrom(s[1..], i - 1);
    }
  }

  lemma WordCharCountFrom(s: string, i: nat)
    requires i <= |s| && WordChars(s[..i])
    ensures WordCharCount(s) == i + WordCharCount(s[i..])
  {
    if i == 0 {
      assert s[0..] == s;
    } else {
      assert s[0] == s[..i][0];
      assert s[1..][..i - 1] == s[..i][1..];
      assert s[1..][i - 1..] == s[i..];
      WordCharCountFrom(s[1..], i - 1);
    }
  }

  lemma WordStringCountFrom(s: string, i: nat)
    requires i <= |s| && forall k :: 0 <= k < i ==> !EndsWordString(s[k])
    ensures WordStringCount(s) == i + WordStringCount(s[i..])
  {
    if i == 0 {
      assert s[0..] == s;
    } else {
      assert s[1..][i - 1..] == s[i..];
      WordStringCountFrom(s[1..], i - 1);
    }
  }

  method SkipSpaces(s: string) returns (i: nat)
    ensures i == SpaceCount(s)
  {
    i := 0;
    while i < |s| && IsSpace(s[i])
      invariant 0 <= i <= |s| && Spaces(s[..i])
    {
      i := i + 1;
    }
    SpaceCountFrom(s, i);
  }

  /** The end of the identifier whose first letter is at `start`. */
  method EndOfIdentifier(s: string, start: nat) returns (i: nat)
    requires start < |s|
    ensures i == start + 1 + WordCharCount(s[start + 1..])
  {
    i := start + 1;
    while i < |s| && IsWordChar(s[i])
      invariant start < i <= |s| && WordChars(s[start + 1..i])
    {
      assert s[start + 1..i + 1] == s[start + 1..i] + [s[i]];
      i := i + 1;
    }
    assert s[start + 1..][..i - start - 1] == s[start + 1..i] && s[start + 1..][i - start - 1..] == s[i..];
    WordCharCountFrom(s[start + 1..], i - start - 1);
  }

  method EndOfNumber(s: string, start: nat) returns (i: nat)
    requires start < |s|
    ensures i == start + 1 + DigitCount(s[start + 1..])
  {
    i := start + 1;
    while i < |s| && IsDigit(s[i])
      invariant start < i <= |s| && Digits(s[start + 1..i])
    {
      assert s[start + 1..i + 1] == s[start + 1..i] + [s[i]];
      i := i + 1;
    }
    assert s[start + 1..][..i - start - 1] == s[start + 1..i] && s[start + 1..][i - start - 1..] == s[i..];
    DigitCountFrom(s[start + 1..], i - start - 1);
  }

  /** The loop of word_string: the place of the character that ends the word. */
  method EndOfWordString(s: string, start: nat) returns (i: nat)
    requires start <= |s|
    ensures i == start + WordStringCount(s[start..])
    ensures s[start..][..i - start] == s[start..i] && s[start..][i - start..] == s[i..]
  {
    i := start;
    while i < |s| && !EndsWordString(s[i])
      invariant start <= i <= |s|
      invariant forall k :: start <= k < i ==> !EndsWordString(s[k])
    {
      i := i + 1;
    }
    var t := s[start..];
    assert t[i - start..] == s[i..] && t[..i - start] == s[start..i];
    WordStringCountFrom(t, i - start);
  }

  /** The loop of quoted_string: the place of the quote that ends the literal. */
  method ScanQuoted(s: string) returns (ok: bool, i: nat)
    ensures ok ==> i < |s|
    ensures Quoted(s, At(s, 0)) == if ok then Parsed(s[..i], s[i + 1..]) else Failed
  {
    hide Quoted;
    i := 0;
    var current, previous := At(s, 0), At(s, 0);
    AfterNothing(s, previous);
    while i < |s| && (current != '\'' || previous == '\\')
      invariant 0 <= i <= |s| && current == At(s, i)
      invariant Quoted(s, At(s, 0)) == AfterText(s[..i], Quoted(s[i..], previous))
    {
      QuotedMore(s, i, previous);
      previous := current;
      i := i + 1;
      current := At(s, i);
    }
    QuotedStep(s, i, previous);
    ok := i < |s|;
    assert s[..i] + "" == s[..i];
  }

  // ---------------------------------------------------------------- the compiler

  class Compiler {
    /** What is left of the query. */
    var stringParsed: string

    constructor (query: string)
      ensures stringParsed == query
    {
      stringParsed := query;
    }

    /** read_aword. */
    method ReadWord() returns (kind: Kind, text: string)
      modifies this
      ensures Word(kind, text, stringParsed) == ReadAWord(old(stringParsed))
    {
      var s := stringParsed;
      var i := SkipSpaces(s);
      if i == |s| {
        assert s[i..] == "";
        return EndBuf, "";
      }
      var t := s[i..];
      var n := 1;
      if IsAlpha(s[i]) {
        var end := EndOfIdentifier(s, i);
        kind, n := Iden, end - i;
        assert s[i..][1..] == s[i + 1..];
      } else if s[i] == '+' || s[i] == '-' || IsDigit(s[i]) {
        var end := EndOfNumber(s, i);
        kind, n := Integer, end - i;
        assert s[i..][1..] == s[i + 1..];
      } else if s[i] == '>' && i + 1 < |s| && s[i + 1] == '=' {
        kind, n := Ge, 2;
      } else if s[i] == '<' && i + 1 < |s| && s[i + 1] == '=' {
        kind, n := Le, 2;
      } else if s[i] == '<' && i + 1 < |s| && s[i + 1] == '>' {
        kind, n := Neq, 2;
      } else {
        kind := SingleKind(s[i]);
      }
      text := t[..n];
      stringParsed := t[n..];
    }

    /** match_fetch. */
    method MatchFetch(expected: string) returns (ok: bool)
      modifies this
      ensures stringParsed == ReadAWord(old(stringParsed)).rest
      ensures ok <==> ReadAWord(old(stringParsed)).text == expected
    {
      var _, text := ReadWord();
      ok := text == expected;
    }

    /** quoted_string. */
    method ParseQuotedString() returns (ok: bool, result: string)
      modifies this
      ensures Ends(ok, result, QuotedString(old(stringParsed)))
    {
      result := "";
      ok := MatchFetch("'");
      if !ok {
        return;
      }
      var s := stringParsed;
      var i;
      ok, i := ScanQuoted(s);
      if ok {
        result := s[..i];
        stringParsed := s[i + 1..];
      }
    }

    /** word_string. */
    method ParseWordString() returns (ok: bool, result: string)
      modifies this
      ensures Ends(ok, result, WordString(old(stringParsed)))
    {
      var s := stringParsed;
      var start := SkipSpaces(s);
      if start == |s| || s[start] == ')' {
        return false, "";
      }
      var i := EndOfWordString(s, start);
      ok, result := true, s[start..i];
      stringParsed := s[i..];
    }

    /** What contains and like compare with. */
    method ParseMatchString() returns (ok: bool, result: string)
      modifies this
      ensures Ends(ok, result, MatchString(old(stringParsed)))
    {
      if FirstWordEqual(stringParsed, "'") {
        ok, result := ParseQuotedString();
      } else {
        ok, result := ParseWordString();
      }
    }

    /** comparison_value. */
    method ParseComparisonValue() returns (ok: bool, result: string)
      modifies this
      ensures Ends(ok, result, ComparisonValue(old(stringParsed)))
    {
      if FirstWordEqual(stringParsed, "'") {
        ok, result := ParseQuotedString();
      } else if ReadAWord(stringParsed).kind == Integer {
        var _, text := ReadWord();
        ok, result := true, text;
      } else {
        ok, result := ParseWordString();
      }
    }

    /** What a method of the compiler leaves behind, against a result of the grammar. */
    ghost predicate Ends(ok: bool, result: string, r: Parsed<string>)
      reads this
    {
      (ok <==> r.Parsed?) && (ok ==> stringParsed == r.rest && result == r.value)
    }

    /** The same for the emitted text of a condition. */
    ghost predicate Emits(ok: bool, result: string, r: Parsed<Cond>)
      reads this
    {
      (ok <==> r.Parsed?) && (ok ==> stringParsed == r.rest && result == Xml(r.value))
    }

    /** contains_predicate. */
    method ContainsPredicate() returns (ok: bool, result: string)
      modifies this
      ensures Emits(ok, result, PrimaryMeant(ParseContains(old(stringParsed))))
    {
      hide ReadAWord, MatchString, Xml, OpenTag, CloseTag;
      result := "";
      ok := MatchFetch("contains");
      if !ok {
        return;
      }
      var literal;
      ok, literal := ParseMatchString();
      if ok {
        result := OpenTag("contains") + literal + CloseTag("contains");
        XmlContains(literal);
      }
    }

    /** predicate. */
    method Predicate() returns (ok: bool, result: string)
      modifies this
      ensures Emits(ok, result, PrimaryMeant(ParsePredicate(old(stringParsed))))
    {
      hide ReadAWord, MatchString, ComparisonValue, ParseContains, Xml, OpenTag, CloseTag, PropText, LiteralText, OperatorOf,
        XmlOperator, FirstWordEqual;
      if FirstWordEqual(stringParsed, "contains") {
        ok, result := ContainsPredicate();
        return;
      }
      ok, result := false, "";
      var kind, column := ReadWord();
      if kind != Iden {
        return;
      }
      var _, symbol := ReadWord();
      var operator := OperatorOf(symbol);
      if operator.None? {
        return;
      }
      var literal;
      if operator.value.OpLike? {
        ok, literal := ParseMatchString();
      } else {
        ok, literal := ParseComparisonValue();
      }
      if ok {
        result := OpenTag(XmlOperator(operator.value)) + PropText(column) + LiteralText(literal)
          + CloseTag(XmlOperator(operator.value));
        XmlCompare(operator.value, column, literal);
      }
    }

    /** boolean_primary. */
    method BooleanPrimary() returns (ok: bool, result: string)
      modifies this
      ensures Emits(ok, result, PrimaryMeant(ParsePrimary(old(stringParsed))))
      decreases |stringParsed|, 0
    {
      hide ParsePredicate, ParseCondition, Xml;
      result := "";
      if FirstWordEqual(stringParsed, "(") {
        var _, _ := ReadWord();
        ok, result := SearchCondition();
        if ok {
          ok := MatchFetch(")");
        }
      } else {
        ok, result := Predicate();
      }
    }

    /** boolean_factor. */
    method BooleanFactor() returns (ok: bool, result: string)
      modifies this
      ensures Emits(ok, result, FactorMeant(ParseFactor(old(stringParsed))))
      decreases |stringParsed|, 1
    {
      hide ParsePrimary;
      var addedNot := FirstWordEqual(stringParsed, "not");
      if addedNot {
        var _, _ := ReadWord();
      }
      var primary;
      ok, primary := BooleanPrimary();
      result := if addedNot then OpenTag("not") + primary + CloseTag("not") else primary;
    }

    /** boolean_term. */
    method BooleanTerm() returns (ok: bool, result: string)
      modifies this
      ensures Emits(ok, result, TermMeant(ParseTerm(old(stringParsed))))
      decreases |stringParsed|, 2
    {
      hide ParseFactor, ParseFactors, Xml, XmlAll, FirstWordEqual, ReadAWord, MeaningOfFactor, OpenTag, CloseTag;
      var factor;
      ok, factor := BooleanFactor();
      if !ok {
        return false, "";
      }
      ghost var first := ParseFactor(old(stringParsed));
      ghost var s := stringParsed;
      var addedAnd := FirstWordEqual(stringParsed, "and");
      ok, result := MoreFactorsText(if addedAnd then OpenTag("and") + factor else factor);
      if ok {
        TermIsJoined(old(stringParsed));
        if addedAnd {
          result := result + CloseTag("and");
        }
      }
    }

    /** The loop of boolean_term: appends the factors behind `and` to the buffer. */
    method MoreFactorsText(start: string) returns (ok: bool, result: string)
      modifies this
      ensures var r := FactorsMeant(ParseFactors(old(stringParsed)));
        (ok <==> r.Parsed?) && (ok ==> stringParsed == r.rest && result == start + XmlAll(r.value))
      decreases |stringParsed|, 2
    {
      hide ParseFactor, ParseFactors, Xml, XmlAll, FirstWordEqual, ReadAWord, MeaningOfFactor, FactorsMeant;
      ghost var target := FactorsMeant(ParseFactors(stringParsed));
      ghost var s := stringParsed;
      ghost var done: seq<Cond> := [];
      NothingBefore(target);
      XmlNothing();
      ok, result := true, start;
      while FirstWordEqual(stringParsed, "and")
        invariant |stringParsed| <= |s| && ok
        invariant result == start + XmlAll(done)
        invariant target == AfterMore(done, FactorsMeant(ParseFactors(stringParsed)))
        decreases |stringParsed|
      {
        FactorsStep(stringParsed, done);
        WordConsumes(stringParsed, "and");
        ghost var f := ParseFactor(ReadAWord(stringParsed).rest);
        var _, _ := ReadWord();
        var factor;
        ok, factor := BooleanFactor();
        if !ok {
          return;
        }
        XmlSnoc(done, MeaningOfFactor(f.value));
        done := done + [MeaningOfFactor(f.value)];
        result := result + factor;
      }
      FactorsEnd(stringParsed, done);
    }

    /** search_condition. */
    method SearchCondition() returns (ok: bool, result: string)
      modifies this
      ensures Emits(ok, result, ConditionMeant(ParseCondition(old(stringParsed))))
      decreases |stringParsed|, 3
    {
      hide ParseTerm, ParseTerms, Xml, XmlAll, FirstWordEqual, ReadAWord, MeaningOfTerm, OpenTag, CloseTag;
      var term;
      ok, term := BooleanTerm();
      if !ok {
        return false, "";
      }
      ghost var first := ParseTerm(old(stringParsed));
      ghost var s := stringParsed;
      var addedOr := FirstWordEqual(stringParsed, "or");
      ok, result := MoreTermsText(if addedOr then OpenTag("or") + term else term);
      if ok {
        ConditionIsJoined(old(stringParsed));
        if addedOr {
          result := result + CloseTag("or");
        }
      }
    }

    /** The loop of search_condition: appends the terms behind `or` to the buffer. */
    method MoreTermsText(start: string) returns (ok: bool, result: string)
      modifies this
      ensures var r := TermsMeant(ParseTerms(old(stringParsed)));
        (ok <==> r.Parsed?) && (ok ==> stringParsed == r.rest && result == start + XmlAll(r.value))
      decreases |stringParsed|, 3
    {
      hide ParseTerm, ParseTerms, Xml, XmlAll, FirstWordEqual, ReadAWord, MeaningOfTerm, TermsMeant;
      ghost var target := TermsMeant(ParseTerms(stringParsed));
      ghost var s := stringParsed;
      ghost var done: seq<Cond> := [];
      NothingBefore(target);
      XmlNothing();
      ok, result := true, start;
      while FirstWordEqual(stringParsed, "or")
        invariant |stringParsed| <= |s| && ok
        invariant result == start + XmlAll(done)
        invariant target == AfterMore(done, TermsMeant(ParseTerms(stringParsed)))
        decreases |stringParsed|
      {
        TermsStep(stringParsed, done);
        WordConsumes(stringParsed, "or");
        ghost var f := ParseTerm(ReadAWord(stringParsed).rest);
        var _, _ := ReadWord();
        var term;
        ok, term := BooleanTerm();
        if !ok {
          return;
        }
        XmlSnoc(done, MeaningOfTerm(f.value));
        done := done + [MeaningOfTerm(f.value)];
        result := result + term;
      }
      TermsEnd(stringParsed, done);
    }

    /** search_where_gen: the where element, if nothing but spaces follows the condition. */
    method SearchWhere() returns (ok: bool, body: string)
      modifies this
      ensures var r := ParseCondition(old(stringParsed));
        && (ok <==> r.Parsed? && Spaces(r.rest))
        && (ok ==> body == "<D:where>\n" + Xml(Meaning(r.value)) + "</D:where>\n")
    {
      hide ParseCondition, Xml, Meaning;
      body := "<D:where>\n";
      var result;
      ok, result := SearchCondition();
      if !ok {
        return;
      }
      var kind, _ := ReadWord();
      ok := kind == EndBuf;
      if ok {
        body := body + result + "</D:where>\n";
      }
    }
  }

  // ---------------------------------------------------------------- results as conditions

  ghost function PrimaryMeant(r: Parsed<Primary>): Parsed<Cond> {
    if r.Failed? then Failed else Parsed(MeaningOfPrimary(r.value), r.rest)
  }

  ghost function FactorMeant(r: Parsed<Factor>): Parsed<Cond> {
    if r.Failed? then Failed else Parsed(MeaningOfFactor(r.value), r.rest)
  }

  ghost function TermMeant(r: Parsed<Term>): Parsed<Cond> {
    if r.Failed? then Failed else Parsed(MeaningOfTerm(r.value), r.rest)
  }

  ghost function ConditionMeant(r: Parsed<Condition>): Parsed<Cond> {
    if r.Failed? then Failed else Parsed(Meaning(r.value), r.rest)
  }

  ghost function FactorsMeant(r: Parsed<Factors>): Parsed<seq<Cond>> {
    if r.Failed? then Failed else Parsed(MeaningOfFactors(r.value), r.rest)
  }

  ghost function TermsMeant(r: Parsed<Terms>): Parsed<seq<Cond>> {
    if r.Failed? then Failed else Parsed(MeaningOfTerms(r.value), r.rest)
  }

  /** A list of which some members have been read before. */
  ghost function AfterMore(done: seq<Cond>, r: Parsed<seq<Cond>>): Parsed<seq<Cond>> {
    if r.Failed? then Failed else Parsed(done + r.value, r.rest)
  }

  lemma NothingBefore(r: Parsed<seq<Cond>>)
    ensures AfterMore([], r) == r
  {
    if r.Parsed? {
      assert [] + r.value == r.value;
    }
  }

  lemma FactorsStep(s: string, done: seq<Cond>)
    requires FirstWordEqual(s, "and")
    ensures var f := ParseFactor(ReadAWord(s).rest);
      AfterMore(done, FactorsMeant(ParseFactors(s))) ==
      if f.Failed? then Failed
      else AfterMore(done + [MeaningOfFactor(f.value)], FactorsMeant(ParseFactors(f.rest)))
  {
    hide ReadAWord, ParseFactor, MeaningOfFactor;
    var f := ParseFactor(ReadAWord(s).rest);
    if f.Parsed? && ParseFactors(f.rest).Parsed? {
      var more := MeaningOfFactors(ParseFactors(f.rest).value);
      assert done + ([MeaningOfFactor(f.value)] + more) == done + [MeaningOfFactor(f.value)] + more;
    }
  }

  /** Two or more factors make an `and`, and one factor does not. */
  lemma TermIsJoined(s: string)
    requires ParseFactor(s).Parsed? && ParseFactors(ParseFactor(s).rest).Parsed?
    ensures var first := ParseFactor(s);
      var more := FactorsMeant(ParseFactors(first.rest));
      && ParseTerm(s).Parsed? && ParseTerm(s).rest == more.rest
      && Xml(MeaningOfTerm(ParseTerm(s).value)) ==
         if FirstWordEqual(first.rest, "and") then
           OpenTag("and") + Xml(MeaningOfFactor(first.value)) + XmlAll(more.value) + CloseTag("and")
         else Xml(MeaningOfFactor(first.value)) + XmlAll(more.value)
  {
    hide ParseFactor, ReadAWord, FirstWordEqual, MeaningOfFactor, OpenTag, CloseTag;
    var first := ParseFactor(s);
    var more := ParseFactors(first.rest).value;
    FactorsAfterAnd(first.rest);
    var f := MeaningOfFactor(first.value);
    if more.NoFactors? {
      assert Xml(f) + "" == Xml(f);
    } else {
      XmlCons(f, MeaningOfFactors(more));
      XmlAnd([f] + MeaningOfFactors(more));
      assert OpenTag("and") + (Xml(f) + XmlAll(MeaningOfFactors(more))) + CloseTag("and")
        == OpenTag("and") + Xml(f) + XmlAll(MeaningOfFactors(more)) + CloseTag("and");
    }
  }

  lemma FactorsAfterAnd(s: string)
    requires ParseFactors(s).Parsed?
    ensures FirstWordEqual(s, "and") <==> ParseFactors(s).value.MoreFactors?
  {
  }

  lemma XmlCons(c: Cond, cs: seq<Cond>)
    ensures XmlAll([c] + cs) == Xml(c) + XmlAll(cs)
  {
    assert ([c] + cs)[1..] == cs;
  }

  lemma XmlAnd(cs: seq<Cond>)
    ensures Xml(And(cs)) == OpenTag("and") + XmlAll(cs) + CloseTag("and")
  {
  }

  lemma FactorsEnd(s: string, done: seq<Cond>)
    requires !FirstWordEqual(s, "and")
    ensures AfterMore(done, FactorsMeant(ParseFactors(s))) == Parsed(done, s)
  {
    assert done + [] == done;
  }

  lemma TermsStep(s: string, done: seq<Cond>)
    requires FirstWordEqual(s, "or")
    ensures var f := ParseTerm(ReadAWord(s).rest);
      AfterMore(done, TermsMeant(ParseTerms(s))) ==
      if f.Failed? then Failed
      else AfterMore(done + [MeaningOfTerm(f.value)], TermsMeant(ParseTerms(f.rest)))
  {
    hide ReadAWord, ParseTerm, MeaningOfTerm;
    var f := ParseTerm(ReadAWord(s).rest);
    if f.Parsed? && ParseTerms(f.rest).Parsed? {
      var more := MeaningOfTerms(ParseTerms(f.rest).value);
      assert done + ([MeaningOfTerm(f.value)] + more) == done + [MeaningOfTerm(f.value)] + more;
    }
  }

  /** Two or more terms make an `or`, and one term does not. */
  lemma ConditionIsJoined(s: string)
    requires ParseTerm(s).Parsed? && ParseTerms(ParseTerm(s).rest).Parsed?
    ensures var first := ParseTerm(s);
      var more := TermsMeant(ParseTerms(first.rest));
      && ParseCondition(s).Parsed? && ParseCondition(s).rest == more.rest
      && Xml(Meaning(ParseCondition(s).value)) ==
         if FirstWordEqual(first.rest, "or") then
           OpenTag("or") + Xml(MeaningOfTerm(first.value)) + XmlAll(more.value) + CloseTag("or")
         else Xml(MeaningOfTerm(first.value)) + XmlAll(more.value)
  {
    hide ParseTerm, ReadAWord, FirstWordEqual, MeaningOfTerm, OpenTag, CloseTag;
    var first := ParseTerm(s);
    var more := ParseTerms(first.rest).value;
    TermsAfterOr(first.rest);
    var f := MeaningOfTerm(first.value);
    if more.NoTerms? {
      assert Xml(f) + "" == Xml(f);
    } else {
      XmlCons(f, MeaningOfTerms(more));
      XmlOr([f] + MeaningOfTerms(more));
      assert OpenTag("or") + (Xml(f) + XmlAll(MeaningOfTerms(more))) + CloseTag("or")
        == OpenTag("or") + Xml(f) + XmlAll(MeaningOfTerms(more)) + CloseTag("or");
    }
  }

  lemma TermsAfterOr(s: string)
    requires ParseTerms(s).Parsed?
    ensures FirstWordEqual(s, "or") <==> ParseTerms(s).value.MoreTerms?
  {
  }

  lemma XmlOr(cs: seq<Cond>)
    ensures Xml(Or(cs)) == OpenTag("or") + XmlAll(cs) + CloseTag("or")
  {
  }

  lemma TermsEnd(s: string, done: seq<Cond>)
    requires !FirstWordEqual(s, "or")
    ensures AfterMore(done, TermsMeant(ParseTerms(s))) == Parsed(done, s)
  {
    assert done + [] == done;
  }

  lemma XmlNothing()
    ensures XmlAll([]) == ""
  {
  }

  lemma XmlContains(literal: string)
    ensures Xml(Contains(literal)) == OpenTag("contains") + literal + CloseTag("contains")
  {
  }

  lemma XmlCompare(op: Operator, column: string, literal: string)
    ensures Xml(Compare(op, column, literal))
      == OpenTag(XmlOperator(op)) + PropText(column) + LiteralText(literal) + CloseTag(XmlOperator(op))
  {
  }

  lemma WordConsumes(s: string, w: string)
    requires FirstWordEqual(s, w) && w != ""
    ensures |ReadAWord(s).rest| < |s|
  {
  }

  lemma XmlOne(c: Cond)
    ensures XmlAll([c]) == Xml(c)
  {
    assert [c][1..] == [];
    assert Xml(c) + "" == Xml(c);
  }

  lemma {:induction false} XmlSnoc(cs: seq<Cond>, c: Cond)
    ensures XmlAll(cs + [c]) == XmlAll(cs) + Xml(c)
  {
    hide Xml;
    if cs == [] {
      XmlOne(c);
      assert [] + [c] == [c];
    } else {
      XmlSnoc(cs[1..], c);
      assert (cs + [c])[1..] == cs[1..] + [c];
    }
  }

  /** A literal of which some text has been read before. */
  function AfterText(text: string, r: Parsed<string>): Parsed<string> {
    if r.Failed? then Failed else Parsed(text + r.value, r.rest)
  }

  lemma AfterNothing(s: string, previous: char)
    ensures AfterText(s[..0], Quoted(s[0..], previous)) == Quoted(s, previous)
  {
    assert s[0..] == s;
    if Quoted(s, previous).Parsed? {
      assert s[..0] + Quoted(s, previous).value == Quoted(s, previous).value;
    }
  }

  lemma QuotedMore(s: string, i: nat, previous: char)
    requires i < |s| && (s[i] != '\'' || previous == '\\')
    ensures AfterText(s[..i], Quoted(s[i..], previous)) == AfterText(s[..i + 1], Quoted(s[i + 1..], s[i]))
  {
    QuotedStep(s, i, previous);
    var more := Quoted(s[i + 1..], s[i]);
    if more.Parsed? {
      assert s[..i] + ([s[i]] + more.value) == s[..i + 1] + more.value;
    }
  }

  lemma QuotedStep(s: string, i: nat, previous: char)
    requires i <= |s|
    ensures Quoted(s[i..], previous) ==
      if i == |s| then Failed
      else if s[i] == '\'' && previous != '\\' then Parsed("", s[i + 1..])
      else
        var more := Quoted(s[i + 1..], s[i]);
        if more.Failed? then Failed else Parsed([s[i]] + more.value, more.rest)
  {
    if i < |s| {
      assert s[i..][1..] == s[i + 1..];
    }
  }
}
