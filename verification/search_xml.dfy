/** The conditions of a DASL query, the XML that search.c emits for them, and a reader for it. */
module SearchXml {
  import opened Common
  import opened SearchSyntax

  datatype Cond =
    | Or(alternatives: seq<Cond>)
    | And(conditions: seq<Cond>)
    | Not(condition: Cond)
    | Compare(operator: Operator, column: string, literal: string)
    | Contains(literal: string)

  // ---------------------------------------------------------------- the emitted text

  function OpenTag(name: string): string { "<D:" + name + ">\n" }

  function CloseTag(name: string): string { "</D:" + name + ">\n" }

  /** operator_translate. */
  function XmlOperator(op: Operator): string {
    match op
    case OpEq => "eq"
    case OpGe => "gte"
    case OpLe => "lte"
    case OpGt => "gt"
    case OpLt => "lt"
    case OpNe => "not"
    case OpLike => "like"
  }

  function PropText(column: string): string { "<D:prop><D:" + column + "/></D:prop>\n" }

  function LiteralText(literal: string): string { "<D:literal>" + literal + "</D:literal>\n" }

  function Xml(c: Cond): string
    decreases c, 0
  {
    match c
    case Or(cs) => OpenTag("or") + XmlAll(cs) + CloseTag("or")
    case And(cs) => OpenTag("and") + XmlAll(cs) + CloseTag("and")
    case Not(d) => OpenTag("not") + Xml(d) + CloseTag("not")
    case Compare(op, column, literal) =>
      OpenTag(XmlOperator(op)) + PropText(column) + LiteralText(literal) + CloseTag(XmlOperator(op))
    case Contains(literal) => OpenTag("contains") + literal + CloseTag("contains")
  }

  function XmlAll(cs: seq<Cond>): string
    decreases cs, 1
  {
    if cs == [] then "" else Xml(cs[0]) + XmlAll(cs[1..])
  }

  // ---------------------------------------------------------------- reading it back

  predicate StartsWith(s: string, p: string) {
    |p| <= |s| && s[..|p|] == p
  }

  function Before(s: string, c: char): (r: string)
    ensures |r| <= |s| && r == s[..|r|] && c !in r
    ensures |r| < |s| ==> s[|r|] == c
  {
    if s == "" || s[0] == c then "" else [s[0]] + Before(s[1..], c)
  }

  /** The text behind an expected piece. */
  function Expect(s: string, p: string): (r: Option<string>)
    ensures r.Some? ==> |r.value| == |s| - |p|
  {
    if StartsWith(s, p) then Some(s[|p|..]) else None
  }

  function ReadOpenTag(s: string): (r: Parsed<string>)
    ensures r.Parsed? ==> |r.rest| < |s|
  {
    var t := Expect(s, "<D:");
    if t.None? then Failed
    else
      var name := Before(t.value, '>');
      var rest := Expect(t.value[|name|..], ">\n");
      if rest.None? then Failed else Parsed(name, rest.value)
  }

  function OperatorNamed(name: string): Option<Operator> {
    if name == "eq" then Some(OpEq)
    else if name == "gte" then Some(OpGe)
    else if name == "lte" then Some(OpLe)
    else if name == "gt" then Some(OpGt)
    else if name == "lt" then Some(OpLt)
    else if name == "not" then Some(OpNe)
    else if name == "like" then Some(OpLike)
    else None
  }

  /** A literal, up to the next tag. */
  function ReadText(s: string, c: char, behind: string): (r: Parsed<string>)
    ensures r.Parsed? ==> |r.rest| <= |s|
  {
    var text := Before(s, c);
    var rest := Expect(s[|text|..], behind);
    if rest.None? then Failed else Parsed(text, rest.value)
  }

  /** The inside of a comparison. */
  function ReadComparison(s: string, op: Operator): (r: Parsed<Cond>)
    ensures r.Parsed? ==> |r.rest| <= |s|
  {
    var a := Expect(s, "<D:prop><D:");
    if a.None? then Failed
    else
      var column := ReadText(a.value, '/', "/></D:prop>\n<D:literal>");
      if column.Failed? then Failed
      else
        var literal := ReadText(column.rest, '<', "</D:literal>\n" + CloseTag(XmlOperator(op)));
        if literal.Failed? then Failed else Parsed(Compare(op, column.value, literal.value), literal.rest)
  }

  /** One condition. The element `not` holds either a comparison or a condition. */
  function Read(s: string): (r: Parsed<Cond>)
    ensures r.Parsed? ==> |r.rest| < |s|
    decreases |s|, 0
  {
    var tag := ReadOpenTag(s);
    if tag.Failed? then Failed
    else if tag.value == "or" || tag.value == "and" then
      var cs := ReadAll(tag.rest, CloseTag(tag.value));
      if cs.Failed? then Failed
      else Parsed(if tag.value == "or" then Or(cs.value) else And(cs.value), cs.rest)
    else if tag.value == "contains" then
      var literal := ReadText(tag.rest, '<', CloseTag("contains"));
      if literal.Failed? then Failed else Parsed(Contains(literal.value), literal.rest)
    else if tag.value == "not" && !StartsWith(tag.rest, "<D:prop>") then
      var d := Read(tag.rest);
      if d.Failed? then Failed
      else
        var rest := Expect(d.rest, CloseTag("not"));
        if rest.None? then Failed else Parsed(Not(d.value), rest.value)
    else
      var op := OperatorNamed(tag.value);
      if op.None? then Failed else ReadComparison(tag.rest, op.value)
  }

  function ReadAll(s: string, close: string): (r: Parsed<seq<Cond>>)
    ensures r.Parsed? ==> |r.rest| <= |s|
    decreases |s|, 1
  {
    if StartsWith(s, close) then Parsed([], s[|close|..])
    else
      var first := Read(s);
      if first.Failed? then Failed
      else
        var more := ReadAll(first.rest, close);
        if more.Failed? then Failed else Parsed([first.value] + more.value, more.rest)
  }

  // ---------------------------------------------------------------- unique reading

  /** Column names are words, and literals hold no tag. */
  ghost predicate Readable(c: Cond)
    decreases c, 0
  {
    match c
    case Or(cs) => AllReadable(cs)
    case And(cs) => AllReadable(cs)
    case Not(d) => Readable(d)
    case Compare(_, column, literal) => WordChars(column) && '<' !in literal
    case Contains(literal) => '<' !in literal
  }

  ghost predicate AllReadable(cs: seq<Cond>)
    decreases cs, 1
  {
    cs == [] || (Readable(cs[0]) && AllReadable(cs[1..]))
  }

  lemma {:induction false} BeforeFirst(a: string, c: char, b: string)
    requires c !in a && (b == "" || b[0] == c)
    ensures Before(a + b, c) == a
  {
    if a == "" {
      assert a + b == b;
    } else {
      assert (a + b)[1..] == a[1..] + b;
      BeforeFirst(a[1..], c, b);
    }
  }

  lemma ExpectFirst(p: string, rest: string)
    ensures Expect(p + rest, p) == Some(rest)
  {
    assert (p + rest)[..|p|] == p && (p + rest)[|p|..] == rest;
  }

  lemma ReadTextFirst(text: string, c: char, behind: string, rest: string)
    requires c !in text && behind != "" && behind[0] == c
    ensures ReadText(text + behind + rest, c, behind) == Parsed(text, rest)
  {
    assert text + behind + rest == text + (behind + rest);
    BeforeFirst(text, c, behind + rest);
    assert (text + (behind + rest))[|text|..] == behind + rest;
    ExpectFirst(behind, rest);
  }

  lemma ReadOpenTagFirst(name: string, rest: string)
    requires '>' !in name
    ensures ReadOpenTag(OpenTag(name) + rest) == Parsed(name, rest)
  {
    var t := name + (">\n" + rest);
    assert OpenTag(name) + rest == "<D:" + t;
    ExpectFirst("<D:", t);
    BeforeFirst(name, '>', ">\n" + rest);
    assert t[|name|..] == ">\n" + rest;
    ExpectFirst(">\n", rest);
  }

  lemma NamesAreClean(op: Operator)
    ensures '>' !in XmlOperator(op) && OperatorNamed(XmlOperator(op)) == Some(op)
    ensures XmlOperator(op) != "or" && XmlOperator(op) != "and" && XmlOperator(op) != "contains"
  {
    match op
    case OpEq => assert "eq"[0] == 'e';
    case OpGe => assert "gte"[0] == 'g';
    case OpLe => assert "lte"[0] == 'l';
    case OpGt => assert "gt"[0] == 'g';
    case OpLt => assert "lt"[0] == 'l';
    case OpNe => assert "not"[0] == 'n';
    case OpLike => assert "like"[0] == 'l';
  }

  /** Every condition starts with an open tag, and not with the one of a property. */
  lemma XmlStarts(c: Cond)
    ensures |Xml(c)| > 4 && Xml(c)[0] == '<' && Xml(c)[1] == 'D' && Xml(c)[3] != 'p'
  {
    var name := match c
      case Or(_) => "or"
      case And(_) => "and"
      case Not(_) => "not"
      case Compare(op, _, _) => XmlOperator(op)
      case Contains(_) => "contains";
    assert name != "" && name[0] != 'p' by {
      if c.Compare? {
        NameStarts(c.operator);
      }
    }
    assert Xml(c)[..|OpenTag(name)|] == OpenTag(name);
    assert OpenTag(name)[3] == name[0];
  }

  lemma NameStarts(op: Operator)
    ensures XmlOperator(op) != "" && XmlOperator(op)[0] != 'p'
  {
  }

  lemma ReadComparisonFirst(op: Operator, column: string, literal: string, rest: string)
    requires WordChars(column) && '<' !in literal
    ensures ReadComparison(PropText(column) + LiteralText(literal) + CloseTag(XmlOperator(op)) + rest, op)
         == Parsed(Compare(op, column, literal), rest)
  {
    var close := "</D:literal>\n" + CloseTag(XmlOperator(op));
    var middle := "/></D:prop>\n<D:literal>";
    var t := column + middle + (literal + close + rest);
    assert PropText(column) + LiteralText(literal) + CloseTag(XmlOperator(op)) + rest == "<D:prop><D:" + t by {
      PropPieces(column, literal, close, rest, CloseTag(XmlOperator(op)));
    }
    ExpectFirst("<D:prop><D:", t);
    assert '/' !in column;
    ReadTextFirst(column, '/', middle, literal + close + rest);
    ReadTextFirst(literal, '<', close, rest);
  }

  lemma PropPieces(column: string, literal: string, close: string, rest: string, end: string)
    requires close == "</D:literal>\n" + end
    ensures PropText(column) + LiteralText(literal) + end + rest
         == "<D:prop><D:" + (column + "/></D:prop>\n<D:literal>" + (literal + close + rest))
  {
    assert "/></D:prop>\n" + "<D:literal>" == "/></D:prop>\n<D:literal>";
    assert PropText(column) == "<D:prop><D:" + column + "/></D:prop>\n";
    assert LiteralText(literal) + end == "<D:literal>" + literal + close;
  }

  /** The text of a condition is read as that condition, whatever follows: no two conditions have the
      same text, and none is the beginning of another. */
  lemma {:induction false} ReadUndoesXml(c: Cond, rest: string)
    requires Readable(c)
    ensures Read(Xml(c) + rest) == Parsed(c, rest)
    decreases c, 0
  {
    hide ReadComparison, ReadOpenTag, OpenTag, CloseTag, PropText, LiteralText, ReadText, Expect;
    match c
    case Or(cs) =>
      ReadOpenTagFirst("or", XmlAll(cs) + CloseTag("or") + rest);
      assert Xml(c) + rest == OpenTag("or") + (XmlAll(cs) + CloseTag("or") + rest);
      ReadAllUndoesXml(cs, "or", rest);
    case And(cs) =>
      ReadOpenTagFirst("and", XmlAll(cs) + CloseTag("and") + rest);
      assert Xml(c) + rest == OpenTag("and") + (XmlAll(cs) + CloseTag("and") + rest);
      ReadAllUndoesXml(cs, "and", rest);
    case Not(d) =>
      ReadOpenTagFirst("not", Xml(d) + (CloseTag("not") + rest));
      assert Xml(c) + rest == OpenTag("not") + (Xml(d) + (CloseTag("not") + rest));
      ReadUndoesXml(d, CloseTag("not") + rest);
      XmlIsNoProperty(d, CloseTag("not") + rest);
      ExpectFirst(CloseTag("not"), rest);
    case Compare(op, column, literal) =>
      var name := XmlOperator(op);
      var t := PropText(column) + LiteralText(literal) + CloseTag(name) + rest;
      NamesAreClean(op);
      ReadOpenTagFirst(name, t);
      assert Xml(c) + rest == OpenTag(name) + t;
      ReadComparisonFirst(op, column, literal, rest);
      PropertyStarts(column, LiteralText(literal) + CloseTag(name) + rest);
      assert t == PropText(column) + (LiteralText(literal) + CloseTag(name) + rest);
    case Contains(literal) =>
      ReadOpenTagFirst("contains", literal + CloseTag("contains") + rest);
      assert Xml(c) + rest == OpenTag("contains") + (literal + CloseTag("contains") + rest);
      CloseTagStarts("contains");
      ReadTextFirst(literal, '<', CloseTag("contains"), rest);
  }

  lemma CloseTagStarts(name: string)
    ensures |CloseTag(name)| > 2 && CloseTag(name)[0] == '<' && CloseTag(name)[1] == '/'
  {
  }

  lemma PropertyStarts(column: string, rest: string)
    ensures StartsWith(PropText(column) + rest, "<D:prop>")
  {
    assert PropText(column) == "<D:prop>" + ("<D:" + column + "/></D:prop>\n");
    assert (PropText(column) + rest)[..8] == "<D:prop>";
  }

  lemma DiffersAt(s: string, p: string, i: nat)
    requires i < |s| && i < |p| && s[i] != p[i]
    ensures !StartsWith(s, p)
  {
    assert |p| <= |s| ==> s[..|p|][i] == s[i];
  }

  lemma XmlIsNoProperty(c: Cond, rest: string)
    ensures !StartsWith(Xml(c) + rest, "<D:prop>")
  {
    XmlStarts(c);
    DiffersAt(Xml(c) + rest, "<D:prop>", 3);
  }

  lemma XmlIsNoClose(c: Cond, rest: string, name: string)
    ensures !StartsWith(Xml(c) + rest, CloseTag(name))
  {
    XmlStarts(c);
    CloseTagStarts(name);
    DiffersAt(Xml(c) + rest, CloseTag(name), 1);
  }

  lemma {:induction false} ReadAllUndoesXml(cs: seq<Cond>, name: string, rest: string)
    requires AllReadable(cs)
    ensures ReadAll(XmlAll(cs) + CloseTag(name) + rest, CloseTag(name)) == Parsed(cs, rest)
    decreases cs, 1
  {
    hide Read, CloseTag, Xml, Readable;
    if cs == [] {
      assert XmlAll(cs) + CloseTag(name) + rest == CloseTag(name) + rest;
      ExpectFirst(CloseTag(name), rest);
    } else {
      var t := XmlAll(cs[1..]) + CloseTag(name) + rest;
      assert XmlAll(cs) + CloseTag(name) + rest == Xml(cs[0]) + t;
      XmlIsNoClose(cs[0], t, name);
      ReadUndoesXml(cs[0], t);
      ReadAllUndoesXml(cs[1..], name, rest);
      assert [cs[0]] + cs[1..] == cs;
    }
  }

  lemma XmlIsUnique(c: Cond, d: Cond, restC: string, restD: string)
    requires Readable(c) && Readable(d) && Xml(c) + restC == Xml(d) + restD
    ensures c == d && restC == restD
  {
    ReadUndoesXml(c, restC);
    ReadUndoesXml(d, restD);
  }
}
