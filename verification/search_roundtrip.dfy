/** Every condition, written with parentheses, compiles to its own XML. */
module SearchRoundTrip {
  import opened Common
  import opened SearchSyntax
  import opened SearchXml
  import opened SearchCompiler
  import opened SearchTheorems
  import opened SearchGrammar

  // ---------------------------------------------------------------- printing

  /** In quotes where they can hold it, and else as a word string. */
  function PrintLiteral(literal: string): string {
    if IsQuotable(literal) then "'" + literal + "'" else literal
  }

  function PrintCompare(op: Operator, column: string, literal: string): string {
    column + (" " + (Symbol(op) + (" " + PrintLiteral(literal))))
  }

  function Print(c: Cond): string
    decreases c, 0
  {
    match c
    case Or(cs) => "(" + PrintJoined(cs, "or") + ")"
    case And(cs) => "(" + PrintJoined(cs, "and") + ")"
    case Not(d) => "(" + ("not" + (" " + Print(d))) + ")"
    case Compare(op, column, literal) => "(" + PrintCompare(op, column, literal) + ")"
    case Contains(literal) => "(" + ("contains" + (" " + PrintLiteral(literal))) + ")"
  }

  function PrintJoined(cs: seq<Cond>, word: string): string
    decreases cs, 1
  {
    if cs == [] then ""
    else Print(cs[0]) + PrintBehind(cs[1..], word)
  }

  /** Each with its connecting word in front. */
  function PrintBehind(cs: seq<Cond>, word: string): string
    decreases cs, 1
  {
    if cs == [] then "" else " " + (word + (" " + (Print(cs[0]) + PrintBehind(cs[1..], word))))
  }

  /** A literal that can be written: in quotes, or as a word string that is not read as a number. */
  predicate IsWritable(literal: string, numbers: bool) {
    IsQuotable(literal) || (IsWordString(literal) && (numbers ==> !StartsNumber(literal)))
  }

  /** Connectives join at least two conditions, columns are no keywords, and literals can be written. */
  ghost predicate Printable(c: Cond)
    decreases c, 0
  {
    match c
    case Or(cs) => |cs| >= 2 && AllPrintable(cs)
    case And(cs) => |cs| >= 2 && AllPrintable(cs)
    case Not(d) => Printable(d)
    case Compare(op, column, literal) =>
      && IsIdentifier(column) && !EqualIgnoringCase(column, "not") && !EqualIgnoringCase(column, "contains")
      && IsWritable(literal, !op.OpLike?)
    case Contains(literal) => IsWritable(literal, false)
  }

  ghost predicate AllPrintable(cs: seq<Cond>)
    decreases cs, 1
  {
    cs == [] || (Printable(cs[0]) && AllPrintable(cs[1..]))
  }

  // ---------------------------------------------------------------- reading conditions

  /** Behind a closing parenthesis neither connective is read. */
  lemma NothingMore(rest: string)
    ensures ParseFactors(")" + rest) == Parsed(NoFactors, ")" + rest)
    ensures ParseTerms(")" + rest) == Parsed(NoTerms, ")" + rest)
    ensures ReadAWord(")" + rest) == Word(RPar, ")", rest)
  {
    hide ReadAWord;
    ReadsMark("", ')', rest);
    assert "" + ([')'] + rest) == ")" + rest;
  }

  /** What a primary read as `c` gives: a factor, a term without `and`, a condition without `or`. */
  ghost predicate ReadsPrimary(s: string, c: Cond, rest: string) {
    PrimaryMeant(ParsePrimary(s)) == Parsed(c, rest)
  }

  ghost predicate ReadsFactor(s: string, c: Cond, rest: string) {
    FactorMeant(ParseFactor(s)) == Parsed(c, rest)
  }

  ghost predicate ReadsTerm(s: string, c: Cond, rest: string) {
    TermMeant(ParseTerm(s)) == Parsed(c, rest)
  }

  ghost predicate ReadsCondition(s: string, c: Cond, rest: string) {
    ConditionMeant(ParseCondition(s)) == Parsed(c, rest)
  }

  lemma PrimaryAsFactor(s: string, c: Cond, rest: string)
    requires ReadsPrimary(s, c, rest) && !FirstWordEqual(s, "not")
    ensures ReadsFactor(s, c, rest)
  {
    hide ReadAWord, ParsePrimary;
  }

  lemma FactorAsTerm(s: string, c: Cond, rest: string)
    requires ReadsFactor(s, c, rest) && !FirstWordEqual(rest, "and")
    ensures ReadsTerm(s, c, rest)
  {
    hide FirstWordEqual, ParseFactor;
    assert ParseFactors(rest) == Parsed(NoFactors, rest);
  }

  lemma TermAsCondition(s: string, c: Cond, rest: string)
    requires ReadsTerm(s, c, rest) && !FirstWordEqual(rest, "or")
    ensures ReadsCondition(s, c, rest)
  {
    hide FirstWordEqual, ParseTerm;
    assert ParseTerms(rest) == Parsed(NoTerms, rest);
  }

  /** A parenthesized condition is a primary. */
  lemma NestedIsPrimary(spaces: string, s: string, c: Cond, rest: string)
    requires Spaces(spaces) && ReadsCondition(s, c, ")" + rest)
    ensures ReadsPrimary(spaces + ("(" + s), c, rest) && !FirstWordEqual(spaces + ("(" + s), "not")
  {
    hide ReadAWord, ParseCondition;
    ReadsMark(spaces, '(', s);
    assert ['('] + s == "(" + s;
    NothingMore(rest);
  }

  /** A predicate inside its parentheses. */
  lemma InnerPredicate(s: string, c: Cond, rest: string)
    requires PrimaryMeant(ParsePredicate(s)) == Parsed(c, ")" + rest)
    requires !FirstWordEqual(s, "not") && !FirstWordEqual(s, "(")
    ensures ReadsCondition(s, c, ")" + rest)
  {
    hide ReadAWord, ParsePredicate;
    NothingMore(rest);
    NoConnective(rest);
    assert ReadsPrimary(s, c, ")" + rest);
    PrimaryAsFactor(s, c, ")" + rest);
    FactorAsTerm(s, c, ")" + rest);
    TermAsCondition(s, c, ")" + rest);
  }

  lemma NoConnective(rest: string)
    ensures !FirstWordEqual(")" + rest, "and") && !FirstWordEqual(")" + rest, "or")
  {
    hide ReadAWord;
    NothingMore(rest);
  }

  function LiteralAnd(literal: string, end: string): string { " " + PrintLiteral(literal) + end }

  lemma CompareText(op: Operator, column: string, literal: string, end: string)
    ensures PrintCompare(op, column, literal) + end == "" + (column + (" " + (Symbol(op) + LiteralAnd(literal, end))))
  {
    hide Symbol;
  }

  lemma ReadsCompare(op: Operator, column: string, literal: string, rest: string)
    requires Printable(Compare(op, column, literal))
    ensures ReadsCondition(PrintCompare(op, column, literal) + (")" + rest), Compare(op, column, literal), ")" + rest)
  {
    hide ReadAWord, ReadsCondition, Symbol, IsWritable, ParsePredicate, EqualIgnoringCase, PrintCompare, LiteralAnd;
    var end := ")" + rest;
    CompareText(op, column, literal, end);
    ReadsIdentifier("", column, " " + (Symbol(op) + LiteralAnd(literal, end)));
    NoParenthesis(column);
    ComparePredicate(op, column, literal, end);
    InnerPredicate(PrintCompare(op, column, literal) + end, Compare(op, column, literal), rest);
  }

  lemma SpaceSeparates(op: Operator, after: string)
    requires after != "" && after[0] == ' '
    ensures WordEnds(after) && SymbolEnds(op, after)
  {
  }

  lemma PredicateReads(s: string, column: string, t: string, op: Operator, u: string, literal: string, end: string)
    requires ReadAWord(s) == Word(Iden, column, t) && !EqualIgnoringCase(column, "contains")
    requires ReadAWord(t).rest == u && OperatorOf(ReadAWord(t).text) == Some(op)
    requires (if op.OpLike? then MatchString(u) else ComparisonValue(u)) == Parsed(literal, end)
    ensures PrimaryMeant(ParsePredicate(s)) == Parsed(Compare(op, column, literal), end)
  {
    hide ReadAWord, MatchString, ComparisonValue, Consumed, OperatorOf, EqualIgnoringCase;
  }

  lemma ComparePredicate(op: Operator, column: string, literal: string, end: string)
    requires IsIdentifier(column) && !EqualIgnoringCase(column, "contains") && IsWritable(literal, !op.OpLike?)
    requires end != "" && end[0] == ')'
    ensures PrimaryMeant(ParsePredicate(PrintCompare(op, column, literal) + end)) == Parsed(Compare(op, column, literal), end)
  {
    hide *;
    var u := LiteralAnd(literal, end);
    var t := " " + (Symbol(op) + u);
    CompareText(op, column, literal, end);
    SpaceSeparates(op, t);
    NoSpaces();
    ReadsIdentifier("", column, t);
    LiteralAndStarts(literal, end);
    SpaceSeparates(op, u);
    ReadsSymbol(" ", op, u);
    ReadsValue(literal, end);
    PredicateReads("" + (column + t), column, t, op, u, literal, end);
  }

  lemma NoSpaces()
    ensures Spaces("") && Spaces(" ")
  {
  }

  lemma ReadsValue(literal: string, end: string)
    requires end != "" && end[0] == ')'
    ensures IsWritable(literal, false) ==> MatchString(LiteralAnd(literal, end)) == Parsed(literal, end)
    ensures IsWritable(literal, true) ==> ComparisonValue(LiteralAnd(literal, end)) == Parsed(literal, end)
  {
    hide ReadAWord, QuotedString, WordString, EqualIgnoringCase, IsQuotable, IsWordString, StartsNumber;
    if IsQuotable(literal) {
      assert LiteralAnd(literal, end) == " " + "'" + literal + "'" + end;
      ReadsLiteral(" ", literal, end);
    } else if IsWordString(literal) {
      assert LiteralAnd(literal, end) == " " + (literal + end);
      ReadsWordString(" ", literal, end);
      WordStringsFirstWord(" ", literal, end);
    }
  }

  lemma LiteralAndStarts(literal: string, end: string)
    ensures LiteralAnd(literal, end) != "" && LiteralAnd(literal, end)[0] == ' '
  {
  }

  lemma ReadsContains(literal: string, rest: string)
    requires IsWritable(literal, false)
    ensures ReadsCondition("contains" + (" " + PrintLiteral(literal)) + (")" + rest), Contains(literal), ")" + rest)
  {
    hide ReadAWord, ReadsCondition, IsWritable, EqualIgnoringCase, ParsePredicate, LiteralAnd, PrintLiteral;
    var end := ")" + rest;
    var s := "contains" + (" " + PrintLiteral(literal)) + end;
    ContainsText(literal, end);
    ContainsIsWord();
    LiteralAndStarts(literal, end);
    ReadsIdentifier("", "contains", LiteralAnd(literal, end));
    ContainsPredicateReads(literal, end);
    InnerPredicate(s, Contains(literal), rest);
  }

  lemma ContainsText(literal: string, end: string)
    ensures "contains" + (" " + PrintLiteral(literal)) + end == "" + ("contains" + LiteralAnd(literal, end))
  {
  }

  lemma ContainsIsWord()
    ensures IsIdentifier("contains") && EqualIgnoringCase("contains", "contains")
    ensures !EqualIgnoringCase("contains", "not") && !EqualIgnoringCase("contains", "(")
  {
  }

  lemma ContainsPredicateReads(literal: string, end: string)
    requires IsWritable(literal, false) && end != "" && end[0] == ')'
    ensures PrimaryMeant(ParsePredicate("" + ("contains" + LiteralAnd(literal, end)))) == Parsed(Contains(literal), end)
  {
    hide ReadAWord, MatchString, IsWritable, IsIdentifier, EqualIgnoringCase, LiteralAnd;
    ContainsIsWord();
    LiteralAndStarts(literal, end);
    ReadsIdentifier("", "contains", LiteralAnd(literal, end));
    ReadsValue(literal, end);
  }

  // ---------------------------------------------------------------- the round trip

  lemma {:induction false} PrintIsPrimary(spaces: string, c: Cond, rest: string)
    requires Printable(c) && Spaces(spaces)
    ensures ReadsPrimary(spaces + (Print(c) + rest), c, rest)
    ensures !FirstWordEqual(spaces + (Print(c) + rest), "not")
    decreases c, 0
  {
    hide ReadsPrimary, ReadsCondition, FirstWordEqual, Spaces;
    var inner := match c
      case Or(cs) => PrintJoined(cs, "or")
      case And(cs) => PrintJoined(cs, "and")
      case Not(d) => "not" + (" " + Print(d))
      case Compare(op, column, literal) => PrintCompare(op, column, literal)
      case Contains(literal) => "contains" + (" " + PrintLiteral(literal));
    assert Print(c) + rest == "(" + (inner + (")" + rest));
    match c {
      case Or(cs) => ReadsOr(cs, rest);
      case And(cs) => ReadsAnd(cs, rest);
      case Not(d) => ReadsNot(d, rest);
      case Compare(op, column, literal) => ReadsCompare(op, column, literal, rest);
      case Contains(literal) => ReadsContains(literal, rest);
    }
    NestedIsPrimary(spaces, inner + (")" + rest), c, rest);
  }

  lemma {:induction false} ReadsNot(d: Cond, rest: string)
    requires Printable(d)
    ensures ReadsCondition("not" + (" " + Print(d)) + (")" + rest), Not(d), ")" + rest)
    decreases d, 3
  {
    hide ReadAWord, ParsePrimary, Print, Printable;
    var s := "not" + (" " + Print(d)) + (")" + rest);
    var t := " " + (Print(d) + (")" + rest));
    assert s == "" + ("not" + t);
    ReadsIdentifier("", "not", t);
    PrintIsPrimary(" ", d, ")" + rest);
    assert ReadsFactor(s, Not(d), ")" + rest);
    NoConnective(rest);
    FactorAsTerm(s, Not(d), ")" + rest);
    TermAsCondition(s, Not(d), ")" + rest);
  }

  lemma {:induction false} ReadsOr(cs: seq<Cond>, rest: string)
    requires AllPrintable(cs) && |cs| >= 2
    ensures ReadsCondition(PrintJoined(cs, "or") + (")" + rest), Or(cs), ")" + rest)
    decreases cs, 3
  {
    hide ReadAWord, ParseTerm, ParseTerms, Print, PrintBehind, MeaningOfTerm, MeaningOfTerms, FirstWordEqual;
    var behind := PrintBehind(cs[1..], "or") + (")" + rest);
    var s := PrintJoined(cs, "or") + (")" + rest);
    assert s == Print(cs[0]) + behind;
    TermOfOr("", cs, rest);
    assert "" + (Print(cs[0]) + behind) == s;
    TermsBehind(cs[1..], rest);
    TermsAfterOr(behind);
    assert [cs[0]] + cs[1..] == cs;
  }

  /** A printed condition in front of further alternatives. */
  lemma {:induction false} TermOfOr(spaces: string, cs: seq<Cond>, rest: string)
    requires AllPrintable(cs) && cs != [] && Spaces(spaces)
    ensures var behind := PrintBehind(cs[1..], "or") + (")" + rest);
      ReadsTerm(spaces + (Print(cs[0]) + behind), cs[0], behind)
    decreases cs, 1
  {
    hide ReadsPrimary, ReadsFactor, ReadsTerm, FirstWordEqual, Print, PrintBehind;
    var behind := PrintBehind(cs[1..], "or") + (")" + rest);
    PrintIsPrimary(spaces, cs[0], behind);
    PrimaryAsFactor(spaces + (Print(cs[0]) + behind), cs[0], behind);
    BehindOr(cs[1..], rest);
    FactorAsTerm(spaces + (Print(cs[0]) + behind), cs[0], behind);
  }

  lemma BehindOr(cs: seq<Cond>, rest: string)
    ensures var behind := PrintBehind(cs, "or") + (")" + rest);
      && !FirstWordEqual(behind, "and")
      && (cs != [] <==> FirstWordEqual(behind, "or"))
      && (cs != [] ==> ReadAWord(behind).rest == " " + (Print(cs[0]) + (PrintBehind(cs[1..], "or") + (")" + rest))))
  {
    hide ReadAWord, Print;
    var behind := PrintBehind(cs, "or") + (")" + rest);
    if cs == [] {
      NoConnective(rest);
      assert behind == ")" + rest;
    } else {
      var t := " " + (Print(cs[0]) + (PrintBehind(cs[1..], "or") + (")" + rest)));
      assert behind == " " + ("or" + t);
      ReadsIdentifier(" ", "or", t);
    }
  }

  lemma {:induction false} TermsBehind(cs: seq<Cond>, rest: string)
    requires AllPrintable(cs)
    ensures TermsMeant(ParseTerms(PrintBehind(cs, "or") + (")" + rest))) == Parsed(cs, ")" + rest)
    ensures cs != [] <==> FirstWordEqual(PrintBehind(cs, "or") + (")" + rest), "or")
    decreases cs, 2
  {
    hide ReadAWord, ParseTerm, Print, PrintBehind, MeaningOfTerm, FirstWordEqual;
    BehindOr(cs, rest);
    if cs == [] {
      NothingBehind("or");
      NothingMore(rest);
      assert PrintBehind([], "or") + (")" + rest) == ")" + rest;
    } else {
      TermOfOr(" ", cs, rest);
      TermsBehind(cs[1..], rest);
      assert [cs[0]] + cs[1..] == cs;
    }
  }

  lemma NothingBehind(word: string)
    ensures PrintBehind([], word) == ""
  {
  }

  lemma {:induction false} ReadsAnd(cs: seq<Cond>, rest: string)
    requires AllPrintable(cs) && |cs| >= 2
    ensures ReadsCondition(PrintJoined(cs, "and") + (")" + rest), And(cs), ")" + rest)
    decreases cs, 3
  {
    hide ReadAWord, ParseFactor, ParseFactors, Print, PrintBehind, MeaningOfFactor, MeaningOfFactors, FirstWordEqual;
    var behind := PrintBehind(cs[1..], "and") + (")" + rest);
    var s := PrintJoined(cs, "and") + (")" + rest);
    assert s == Print(cs[0]) + behind;
    FactorOfAnd("", cs, rest);
    assert "" + (Print(cs[0]) + behind) == s;
    FactorsBehind(cs[1..], rest);
    FactorsAfterAnd(behind);
    assert [cs[0]] + cs[1..] == cs;
    assert ReadsTerm(s, And(cs), ")" + rest);
    NoConnective(rest);
    TermAsCondition(s, And(cs), ")" + rest);
  }

  lemma {:induction false} FactorOfAnd(spaces: string, cs: seq<Cond>, rest: string)
    requires AllPrintable(cs) && cs != [] && Spaces(spaces)
    ensures var behind := PrintBehind(cs[1..], "and") + (")" + rest);
      ReadsFactor(spaces + (Print(cs[0]) + behind), cs[0], behind)
    decreases cs, 1
  {
    hide ReadsPrimary, ReadsFactor, FirstWordEqual, Print, PrintBehind;
    var behind := PrintBehind(cs[1..], "and") + (")" + rest);
    PrintIsPrimary(spaces, cs[0], behind);
    PrimaryAsFactor(spaces + (Print(cs[0]) + behind), cs[0], behind);
  }

  lemma BehindAnd(cs: seq<Cond>, rest: string)
    ensures var behind := PrintBehind(cs, "and") + (")" + rest);
      && (cs != [] <==> FirstWordEqual(behind, "and"))
      && (cs != [] ==> ReadAWord(behind).rest == " " + (Print(cs[0]) + (PrintBehind(cs[1..], "and") + (")" + rest))))
  {
    hide ReadAWord, Print;
    var behind := PrintBehind(cs, "and") + (")" + rest);
    if cs == [] {
      NoConnective(rest);
      assert behind == ")" + rest;
    } else {
      var t := " " + (Print(cs[0]) + (PrintBehind(cs[1..], "and") + (")" + rest)));
      assert behind == " " + ("and" + t);
      ReadsIdentifier(" ", "and", t);
    }
  }

  lemma {:induction false} FactorsBehind(cs: seq<Cond>, rest: string)
    requires AllPrintable(cs)
    ensures FactorsMeant(ParseFactors(PrintBehind(cs, "and") + (")" + rest))) == Parsed(cs, ")" + rest)
    ensures cs != [] <==> FirstWordEqual(PrintBehind(cs, "and") + (")" + rest), "and")
    decreases cs, 2
  {
    hide ReadAWord, ParseFactor, Print, PrintBehind, MeaningOfFactor, FirstWordEqual;
    BehindAnd(cs, rest);
    if cs == [] {
      NothingBehind("and");
      NothingMore(rest);
      assert PrintBehind([], "and") + (")" + rest) == ")" + rest;
    } else {
      FactorOfAnd(" ", cs, rest);
      FactorsBehind(cs[1..], rest);
      assert [cs[0]] + cs[1..] == cs;
    }
  }

  /** Compiling the printed condition gives its XML, in the where element. */
  method CompilePrinted(c: Cond) returns (ok: bool, body: string)
    requires Printable(c)
    ensures ok && body == "<D:where>\n" + Xml(c) + "</D:where>\n"
  {
    hide ParseCondition, Xml, Print, Meaning;
    PrintedIsRead(c);
    var compiler := new Compiler(Print(c));
    ok, body := compiler.SearchWhere();
  }

  lemma PrintedIsRead(c: Cond)
    requires Printable(c)
    ensures ReadsCondition(Print(c), c, "")
  {
    hide ReadsPrimary, ReadsFactor, ReadsTerm, ReadsCondition, Print;
    PrintIsPrimary("", c, "");
    assert "" + (Print(c) + "") == Print(c);
    PrimaryAsFactor(Print(c), c, "");
    EndHasNoWord();
    FactorAsTerm(Print(c), c, "");
    TermAsCondition(Print(c), c, "");
  }

  // ---------------------------------------------------------------- every accepted query

  /** No column is named `not` or `contains`. */
  ghost predicate PlainColumns(c: Cond)
    decreases c, 0
  {
    match c
    case Or(cs) => AllPlainColumns(cs)
    case And(cs) => AllPlainColumns(cs)
    case Not(d) => PlainColumns(d)
    case Compare(_, column, _) => !EqualIgnoringCase(column, "not") && !EqualIgnoringCase(column, "contains")
    case Contains(_) => true
  }

  ghost predicate AllPlainColumns(cs: seq<Cond>)
    decreases cs, 1
  {
    cs == [] || (PlainColumns(cs[0]) && AllPlainColumns(cs[1..]))
  }

  lemma ValueIsWritable(text: string, literal: string, numbers: bool)
    requires IsValue(text, literal, numbers)
    ensures IsWritable(literal, numbers)
  {
    if IsNumber(literal) {
      forall i | 0 <= i < |literal|
        ensures literal[i] != '\'' && literal[i] != '\\'
      {
        assert i > 0 ==> literal[i] == literal[1..][i - 1];
      }
    }
  }

  lemma {:induction false} DerivedIsPrintable(c: Condition)
    requires Derived(c) && PlainColumns(Meaning(c))
    ensures Printable(Meaning(c))
    decreases c
  {
    hide MeaningOfTerm, DerivedTerm;
    TermIsPrintableIf(c.first);
    if c.more.MoreTerms? {
      assert ([MeaningOfTerm(c.first)] + MeaningOfTerms(c.more))[1..] == MeaningOfTerms(c.more);
      TermsArePrintable(c.more);
    }
  }

  lemma {:induction false} TermIsPrintableIf(t: Term)
    requires DerivedTerm(t)
    ensures PlainColumns(MeaningOfTerm(t)) ==> Printable(MeaningOfTerm(t))
    decreases t
  {
    hide MeaningOfFactor, DerivedFactor;
    FactorIsPrintableIf(t.first);
    if t.more.MoreFactors? {
      var cs := [MeaningOfFactor(t.first)] + MeaningOfFactors(t.more);
      assert cs[1..] == MeaningOfFactors(t.more) && MeaningOfTerm(t) == And(cs);
      FactorsArePrintable(t.more);
      assert AllPlainColumns(cs) ==> AllPrintable(cs);
    }
  }

  lemma {:induction false} TermsArePrintable(ts: Terms)
    requires DerivedTerms(ts)
    ensures AllPlainColumns(MeaningOfTerms(ts)) ==> AllPrintable(MeaningOfTerms(ts))
    ensures ts.MoreTerms? ==> MeaningOfTerms(ts) != []
    decreases ts
  {
    hide MeaningOfTerm, DerivedTerm;
    if ts.MoreTerms? {
      assert ([MeaningOfTerm(ts.term)] + MeaningOfTerms(ts.more))[1..] == MeaningOfTerms(ts.more);
      TermIsPrintableIf(ts.term);
      TermsArePrintable(ts.more);
    }
  }

  lemma {:induction false} FactorsArePrintable(fs: Factors)
    requires DerivedFactors(fs)
    ensures AllPlainColumns(MeaningOfFactors(fs)) ==> AllPrintable(MeaningOfFactors(fs))
    ensures fs.MoreFactors? ==> MeaningOfFactors(fs) != []
    decreases fs
  {
    hide MeaningOfFactor, DerivedFactor;
    if fs.MoreFactors? {
      assert ([MeaningOfFactor(fs.factor)] + MeaningOfFactors(fs.more))[1..] == MeaningOfFactors(fs.more);
      FactorIsPrintableIf(fs.factor);
      FactorsArePrintable(fs.more);
    }
  }

  lemma {:induction false} FactorIsPrintableIf(f: Factor)
    requires DerivedFactor(f)
    ensures PlainColumns(MeaningOfFactor(f)) ==> Printable(MeaningOfFactor(f))
    decreases f
  {
    hide MeaningOfPrimary, DerivedPrimary;
    PrimaryIsPrintableIf(f.primary);
  }

  lemma {:induction false} PrimaryIsPrintableIf(p: Primary)
    requires DerivedPrimary(p)
    ensures PlainColumns(MeaningOfPrimary(p)) ==> Printable(MeaningOfPrimary(p))
    decreases p
  {
    hide Meaning, IsValue, IsWritable, IsIdentifier, EqualIgnoringCase;
    match p
    case Nested(_, c, _) =>
      if PlainColumns(Meaning(c)) {
        DerivedIsPrintable(c);
      }
    case Comparison(_, _, _, op, text, value) => ValueIsWritable(text, value, !op.OpLike?);
    case Containment(_, text, value) => ValueIsWritable(text, value, false);
  }

  /** The meaning of an accepted query can be printed, and the printed query means the same, so that
      printing reaches every condition that some query without keyword columns means. */
  lemma AcceptedQueryIsReprinted(s: string)
    requires ParseCondition(s).Parsed? && PlainColumns(Meaning(ParseCondition(s).value))
    ensures var c := Meaning(ParseCondition(s).value); Printable(c) && ReadsCondition(Print(c), c, "")
  {
    hide ParseCondition, Meaning, PlainColumns, Printable, Print, ReadsCondition, Derived;
    ConditionIsDerived(s);
    DerivedIsPrintable(ParseCondition(s).value);
    PrintedIsRead(Meaning(ParseCondition(s).value));
  }
}
