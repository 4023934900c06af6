/** getAtts, the second scanner of a start tag. It has no end check: it relies on scanLt having
    accepted the tag. Here the text of an accepted tag is described by a grammar, and getAtts is
    shown to find exactly the attributes of that grammar without leaving the tag. */
module TagAttributes {
  import opened Common
  import opened XmlTok

  /** The struct ATTRIBUTE that getAtts fills in. */
  datatype Attribute = Attribute(name: nat, valuePtr: nat, valueEnd: nat, normalized: bool)

  const BLANK := Attribute(0, 0, 0, false)

  datatype State = Outside | InName | InValue

  // ---------------------------------------------------------------- the grammar of a tag

  predicate IsQuote(t: ByteType) { t.Quot? || t.Apos? }

  /** Where the parts of one attribute are: name, `=`, opening quote and closing quote. */
  datatype AttSpan = AttSpan(name: nat, nameEnd: nat, equals: nat, quote: nat, valueEnd: nat)

  predicate White(enc: Encoding, s: seq<byte>, i: nat, j: nat) {
    i <= j <= |s| && forall k :: i <= k < j ==> IsWhite(TypeOf(enc, s[k]))
  }

  /** `s[i..j]` continues a qualified name. */
  predicate NameChars(enc: Encoding, s: seq<byte>, i: nat, j: nat, hadColon: bool)
    decreases j - i
  {
    i == j <= |s|
    || (i < j <= |s|
        && match QNameStep(enc, s, i, hadColon)
           case Advance(n) => i + n <= j && NameChars(enc, s, i + n, j, hadColon || TypeOf(enc, s[i]).Colon?)
           case _ => false)
  }

  /** `s[i..j]` is attribute-value text between quotes of type `open`. */
  predicate ValueChars(enc: Encoding, s: seq<byte>, i: nat, j: nat, open: ByteType)
    decreases j - i
  {
    i == j <= |s|
    || (i < j <= |s|
        && match ValueStep(enc, s, i, open)
           case Advance(n) => i + n <= j && ValueChars(enc, s, i + n, j, open)
           case _ => false)
  }

  /** `s[i..j]` is a qualified name. */
  predicate NameSpan(enc: Encoding, s: seq<byte>, i: nat, j: nat) {
    i < |s|
    && match NmstrtStep(enc, s, i)
       case Advance(n) => i + n <= j && NameChars(enc, s, i + n, j, false)
       case _ => false
  }

  /** The first character of the name of `a` is accepted, and the rest of `a` follows. */
  predicate IsAtt(enc: Encoding, s: seq<byte>, a: AttSpan) {
    a.name < |s|
    && match NmstrtStep(enc, s, a.name)
       case Advance(n) => AttFrom(enc, s, a.name + n, false, a)
       case _ => false
  }

  /** `i` is inside the name of `a`, and the rest of `a` follows. */
  predicate AttFrom(enc: Encoding, s: seq<byte>, i: nat, hadColon: bool, a: AttSpan) {
    i <= a.nameEnd && NameChars(enc, s, i, a.nameEnd, hadColon)
    && White(enc, s, a.nameEnd, a.equals)
    && a.equals < |s| && TypeOf(enc, s[a.equals]).Equals?
    && White(enc, s, a.equals + 1, a.quote)
    && a.quote < |s| && IsQuote(TypeOf(enc, s[a.quote]))
    && ValueChars(enc, s, a.quote + 1, a.valueEnd, TypeOf(enc, s[a.quote]))
    && a.quote < a.valueEnd < |s| && TypeOf(enc, s[a.valueEnd]) == TypeOf(enc, s[a.quote])
  }

  /** `>` or `/>` at `i`, the tag ending at `end`. */
  predicate TagClose(enc: Encoding, s: seq<byte>, i: nat, end: nat) {
    i < end <= |s|
    && ((TypeOf(enc, s[i]).Gt? && end == i + 1)
        || (TypeOf(enc, s[i]).Sol? && end == i + 2 && s[i + 1] == GT))
  }

  /** (S Attribute)* S? ('>' | '/>') */
  predicate TagTail(enc: Encoding, s: seq<byte>, i: nat, atts: seq<AttSpan>, end: nat)
    decreases |atts|
  {
    if atts == [] then
      exists k :: i <= k <= |s| && White(enc, s, i, k) && TagClose(enc, s, k, end)
    else
      var a := atts[0];
      i < a.name < |s| && White(enc, s, i, a.name) && IsAtt(enc, s, a)
      && TagTail(enc, s, a.valueEnd + 1, atts[1..], end)
  }

  /** A whole start tag or empty-element tag `s[..end]` with attributes `atts`. */
  predicate IsTag(enc: Encoding, s: seq<byte>, nameEnd: nat, atts: seq<AttSpan>, end: nat) {
    NameSpan(enc, s, 1, nameEnd) && TagTail(enc, s, nameEnd, atts, end)
  }

  // ---------------------------------------------------------------- scanLt accepts only tags

  predicate Accepts(r: Scan, end: nat) { r.Token? && !r.tok.Invalid? && r.next == end }

  /** What remains to be found from inside a start tag: possibly the rest of an attribute, then
      further attributes. */
  lemma {:induction false} AttNameShape(enc: Encoding, s: seq<byte>, i: nat, hadColon: bool, end: nat)
    returns (a: AttSpan, atts: seq<AttSpan>)
    requires i <= |s| && Accepts(AttName(enc, s, i, hadColon), end)
    ensures a.name == 0 && AttFrom(enc, s, i, hadColon, a) && TagTail(enc, s, a.valueEnd + 1, atts, end)
    decreases |s| - i, 0
  {
    hide QNameStep, AttBeforeEquals, AttAfterEquals, AttValue, TagTail, ValueChars;
    match QNameStep(enc, s, i, hadColon)
    case Return(_) =>
    case Advance(n) =>
      a, atts := AttNameShape(enc, s, i + n, hadColon || TypeOf(enc, s[i]).Colon?, end);
    case NoCase =>
      var equals := i;
      if !TypeOf(enc, s[i]).Equals? {
        equals := EqualsShape(enc, s, i + 1, end);
      }
      var quote := QuoteShape(enc, s, equals + 1, end);
      var valueEnd := ValueShape(enc, s, quote + 1, TypeOf(enc, s[quote]), end);
      atts := AfterValueShape(enc, s, valueEnd + 1, end);
      a := AttSpan(0, i, equals, quote, valueEnd);
  }

  lemma {:induction false} EqualsShape(enc: Encoding, s: seq<byte>, i: nat, end: nat) returns (equals: nat)
    requires i <= |s| && Accepts(AttBeforeEquals(enc, s, i), end)
    ensures i <= equals < |s| && White(enc, s, i, equals) && TypeOf(enc, s[equals]).Equals?
    ensures Accepts(AttAfterEquals(enc, s, equals + 1), end)
    decreases |s| - i
  {
    hide AttAfterEquals;
    equals := i;
    if !TypeOf(enc, s[i]).Equals? {
      equals := EqualsShape(enc, s, i + 1, end);
    }
  }

  lemma {:induction false} QuoteShape(enc: Encoding, s: seq<byte>, i: nat, end: nat) returns (quote: nat)
    requires i <= |s| && Accepts(AttAfterEquals(enc, s, i), end)
    ensures i <= quote < |s| && White(enc, s, i, quote) && IsQuote(TypeOf(enc, s[quote]))
    ensures Accepts(AttValue(enc, s, quote + 1, TypeOf(enc, s[quote])), end)
    decreases |s| - i
  {
    hide AttValue;
    quote := i;
    if !IsQuote(TypeOf(enc, s[i])) {
      quote := QuoteShape(enc, s, i + 1, end);
    }
  }

  lemma {:induction false} ValueShape(enc: Encoding, s: seq<byte>, i: nat, open: ByteType, end: nat)
    returns (valueEnd: nat)
    requires i <= |s| && Accepts(AttValue(enc, s, i, open), end)
    ensures i <= valueEnd < |s| && ValueChars(enc, s, i, valueEnd, open) && TypeOf(enc, s[valueEnd]) == open
    ensures Accepts(AttAfterValue(enc, s, valueEnd + 1), end)
    decreases |s| - i
  {
    hide ValueStep, AttAfterValue;
    match ValueStep(enc, s, i, open)
    case Return(_) =>
    case Advance(n) => valueEnd := ValueShape(enc, s, i + n, open, end);
    case NoCase => valueEnd := i;
  }

  lemma {:induction false} AfterValueShape(enc: Encoding, s: seq<byte>, i: nat, end: nat)
    returns (atts: seq<AttSpan>)
    requires i <= |s| && Accepts(AttAfterValue(enc, s, i), end)
    ensures TagTail(enc, s, i, atts, end)
    decreases |s| - i, 0
  {
    hide AttGap, TagGap;
    if IsWhite(TypeOf(enc, s[i])) {
      atts := GapShape(enc, s, i, i + 1, end);
    } else {
      assert White(enc, s, i, i) && TagClose(enc, s, i, end);
      atts := [];
    }
  }

  /** From a run of blanks begun at `start`. */
  lemma {:induction false} GapShape(enc: Encoding, s: seq<byte>, start: nat, i: nat, end: nat)
    returns (atts: seq<AttSpan>)
    requires start < i <= |s| && White(enc, s, start, i)
    requires Accepts(AttGap(enc, s, i), end) || Accepts(TagGap(enc, s, i), end)
    ensures TagTail(enc, s, start, atts, end)
    decreases |s| - i, 1
  {
    hide NmstrtStep, AttName, NameChars, ValueChars, QNameStep;
    match NmstrtStep(enc, s, i)
    case Return(_) =>
    case Advance(n) =>
      var a, rest := AttNameShape(enc, s, i + n, false, end);
      atts := [a.(name := i)] + rest;
      assert AttFrom(enc, s, i + n, false, atts[0]);
    case NoCase =>
      if IsWhite(TypeOf(enc, s[i])) {
        atts := GapShape(enc, s, start, i + 1, end);
      } else {
        assert TagClose(enc, s, i, end);
        atts := [];
      }
  }

  lemma {:induction false} TagNameShape(enc: Encoding, s: seq<byte>, i: nat, hadColon: bool, end: nat)
    returns (nameEnd: nat, atts: seq<AttSpan>)
    requires i <= |s| && Accepts(TagName(enc, s, i, hadColon), end)
    ensures NameChars(enc, s, i, nameEnd, hadColon) && TagTail(enc, s, nameEnd, atts, end)
    decreases |s| - i
  {
    hide QNameStep, AttName, TagGap, AttGap, AttFrom;
    match QNameStep(enc, s, i, hadColon)
    case Return(_) =>
    case Advance(n) =>
      nameEnd, atts := TagNameShape(enc, s, i + n, hadColon || TypeOf(enc, s[i]).Colon?, end);
    case NoCase =>
      nameEnd := i;
      if IsWhite(TypeOf(enc, s[i])) {
        atts := GapShape(enc, s, i, i + 1, end);
      } else {
        assert White(enc, s, i, i) && TagClose(enc, s, i, end);
        atts := [];
      }
  }

  predicate IsStartTagTok(tok: Tok) {
    tok.StartTagWithAtts? || tok.StartTagNoAtts? || tok.EmptyElementWithAtts? || tok.EmptyElementNoAtts?
  }

  // ---------------------------------------------------------------- getAtts

  /** The test of the BT_S label: a blank at `i` of a value keeps it normalized only when it is
      a single space between other characters. None when the test reads past `end`. */
  function SpaceKeeps(enc: Encoding, s: seq<byte>, end: nat, i: nat, cur: Attribute, open: ByteType): Option<bool>
    requires i < end <= |s|
  {
    if !cur.normalized || i == cur.valuePtr || s[i] != SPACE then Some(false)
    else if i + 1 >= end then None
    else Some(s[i + 1] != SPACE && TypeOf(enc, s[i + 1]) != open)
  }

  /** The loop variables of getAtts: `done` is `atts[..nAtts]` and `cur` the slot `atts[nAtts]`.
      A slot starts with whatever `slots`, the array handed in, holds there. */
  datatype Loop = Loop(state: State, open: ByteType, cur: Attribute, done: seq<Attribute>, slots: seq<Attribute>)

  function Slot(slots: seq<Attribute>, k: nat): Attribute {
    if k < |slots| then slots[k] else BLANK
  }

  /** The slot of the current attribute is complete. */
  function Complete(l: Loop, valueEnd: nat): Loop {
    l.(state := Outside, done := l.done + [l.cur.(valueEnd := valueEnd)], cur := Slot(l.slots, |l.done| + 1))
  }

  /** One pass of the loop body: leave with the attributes found, go on `n` bytes further, or
      read past the end of the text. */
  datatype Pass = Finish(atts: seq<Attribute>) | Continue(n: nat, l: Loop) | Overrun

  function GetAttsPass(enc: Encoding, s: seq<byte>, end: nat, i: nat, l: Loop): (r: Pass)
    requires i < end <= |s|
    ensures r.Continue? ==> r.n > 0
  {
    var t := TypeOf(enc, s[i]);
    var n := LeadLength(t);
    if n > 0 || t.NonAscii? || t.Nmstrt? || t.Hex? then
      Continue(if n > 0 then n else 1,
               if !l.state.Outside? then l
               else l.(state := InName, cur := l.cur.(name := i, normalized := true)))
    else if IsQuote(t) then
      if !l.state.InValue? then
        Continue(1, l.(state := InValue, open := t, cur := l.cur.(valuePtr := i + 1)))
      else if t == l.open then
        Continue(1, Complete(l, i))
      else Continue(1, l)
    else if t.Amp? then Continue(1, l.(cur := l.cur.(normalized := false)))
    else if t.Space? && l.state.InValue? then
      match SpaceKeeps(enc, s, end, i, l.cur, l.open)
      case None => Overrun
      case Some(keeps) => Continue(1, l.(cur := l.cur.(normalized := keeps)))
    else if IsWhite(t) then
      if l.state.InValue? then Continue(1, l.(cur := l.cur.(normalized := false)))
      else Continue(1, l.(state := Outside))
    else if (t.Gt? || t.Sol?) && !l.state.InValue? then Finish(l.done)
    else Continue(1, l)
  }

  /** The rest of the getAtts loop from `i`; None when it reads at or beyond `end`. */
  function GetAttsFrom(enc: Encoding, s: seq<byte>, end: nat, i: nat, l: Loop): Option<seq<Attribute>>
    requires end <= |s|
    decreases end - i
  {
    if i >= end then None else
    match GetAttsPass(enc, s, end, i, l)
    case Finish(atts) => Some(atts)
    case Continue(n, l') => GetAttsFrom(enc, s, end, i + n, l')
    case Overrun => None
  }

  /** getAtts on the tag that starts at the beginning of `s`. */
  function GetAtts(enc: Encoding, s: seq<byte>, end: nat, slots: seq<Attribute>): Option<seq<Attribute>>
    requires end <= |s|
  {
    GetAttsFrom(enc, s, end, 1, Loop(InName, Quot, Slot(slots, 0), [], slots))
  }

  /** The slots of `atts`, of which `old` was the content, agree with the loop variables. */
  predicate Stored(atts: seq<Attribute>, l: Loop) {
    |atts| == |l.slots|
    && forall k :: 0 <= k < |atts| ==>
         atts[k] == if k < |l.done| then l.done[k] else if k == |l.done| then l.cur else l.slots[k]
  }

  /** getAtts: the number of attributes, the first `attsMax` of them being stored. */
  method DoGetAtts(enc: Encoding, s: seq<byte>, end: nat, atts: array<Attribute>) returns (nAtts: nat)
    requires end <= |s| && GetAtts(enc, s, end, atts[..]).Some?
    modifies atts
    ensures var found := old(GetAtts(enc, s, end, atts[..]).value);
      nAtts == |found|
      && forall k :: 0 <= k < nAtts && k < atts.Length ==> atts[k] == found[k]
  {
    var ptr, state, open := 1, InName, Quot;
    nAtts := 0;
    ghost var l := Loop(InName, Quot, Slot(atts[..], 0), [], atts[..]);
    ghost var target := GetAttsFrom(enc, s, end, 1, l);
    while true
      invariant ptr < end && GetAttsFrom(enc, s, end, ptr, l) == target && target.Some?
      invariant state == l.state && open == l.open && nAtts == |l.done| && Stored(atts[..], l)
      decreases end - ptr
    {
      ghost var pass := GetAttsPass(enc, s, end, ptr, l);
      var t := TypeOf(enc, s[ptr]);
      var n := LeadLength(t);
      if n > 0 || t.NonAscii? || t.Nmstrt? || t.Hex? {
        if state.Outside? {
          if nAtts < atts.Length {
            atts[nAtts] := atts[nAtts].(name := ptr, normalized := true);
          }
          state := InName;
        }
        if n > 0 {
          ptr := ptr + (n - 1);
        }
      } else if IsQuote(t) {
        if !state.InValue? {
          if nAtts < atts.Length {
            atts[nAtts] := atts[nAtts].(valuePtr := ptr + 1);
          }
          state, open := InValue, t;
        } else if t == open {
          state := Outside;
          if nAtts < atts.Length {
            atts[nAtts] := atts[nAtts].(valueEnd := ptr);
          }
          nAtts := nAtts + 1;
        }
      } else if t.Amp? {
        if nAtts < atts.Length {
          atts[nAtts] := atts[nAtts].(normalized := false);
        }
      } else if t.Space? {
        if state.InName? {
          state := Outside;
        } else if state.InValue? && nAtts < atts.Length && atts[nAtts].normalized
                  && (ptr == atts[nAtts].valuePtr || s[ptr] != SPACE || s[ptr + 1] == SPACE
                      || TypeOf(enc, s[ptr + 1]) == open) {
          atts[nAtts] := atts[nAtts].(normalized := false);
        }
      } else if t.Cr? || t.Lf? {
        if state.InName? {
          state := Outside;
        } else if state.InValue? && nAtts < atts.Length {
          atts[nAtts] := atts[nAtts].(normalized := false);
        }
      } else if (t.Gt? || t.Sol?) && !state.InValue? {
        return;
      }
      ptr := ptr + 1;
      l := pass.l;
    }
  }

  // ---------------------------------------------------------------- getAtts follows the grammar

  /** The value text from `i` on needs no normalization, `start` being where the value starts:
      no reference or line end, and every blank is one space strictly between two characters
      that are not spaces. */
  predicate PlainFrom(enc: Encoding, s: seq<byte>, start: nat, i: nat, valueEnd: nat)
    requires valueEnd <= |s|
    decreases valueEnd - i
  {
    i >= valueEnd
    || (PlainAt(enc, s, start, i, valueEnd) && PlainFrom(enc, s, start, i + CharLength(enc, s[i]), valueEnd))
  }

  predicate PlainAt(enc: Encoding, s: seq<byte>, start: nat, i: nat, valueEnd: nat)
    requires i < valueEnd <= |s|
  {
    var t := TypeOf(enc, s[i]);
    !t.Amp? && !t.Cr? && !t.Lf?
    && (t.Space? ==> s[i] == SPACE && start < i && i + 1 < valueEnd && s[i + 1] != SPACE)
  }

  function CharLength(enc: Encoding, b: byte): (n: nat)
    ensures n > 0
  {
    if LeadLength(TypeOf(enc, b)) > 0 then LeadLength(TypeOf(enc, b)) else 1
  }

  function AttributeOf(enc: Encoding, s: seq<byte>, a: AttSpan): Attribute
    requires a.valueEnd <= |s|
  {
    Attribute(a.name, a.quote + 1, a.valueEnd, PlainFrom(enc, s, a.quote + 1, a.quote + 1, a.valueEnd))
  }

  predicate Located(s: seq<byte>, atts: seq<AttSpan>) { forall a | a in atts :: a.valueEnd <= |s| }

  function AttributesOf(enc: Encoding, s: seq<byte>, atts: seq<AttSpan>): seq<Attribute>
    requires Located(s, atts)
  {
    seq(|atts|, k requires 0 <= k < |atts| => assert atts[k] in atts; AttributeOf(enc, s, atts[k]))
  }

  /** The table entries for the ASCII bytes that the scanners compare directly. */
  predicate AsciiTable(enc: Encoding) {
    TypeOf(enc, LOWER_X) == Nmstrt && TypeOf(enc, SPACE) == Space && TypeOf(enc, SEMI) == Semi
  }

  lemma {:induction false} AcrossWhite(enc: Encoding, s: seq<byte>, end: nat, i: nat, j: nat, l: Loop)
    requires j <= end <= |s| && White(enc, s, i, j) && !l.state.InValue?
    ensures GetAttsFrom(enc, s, end, i, l)
         == GetAttsFrom(enc, s, end, j, if i < j then l.(state := Outside) else l)
    decreases j - i
  {
    if i < j {
      AcrossWhite(enc, s, end, i + 1, j, l.(state := Outside));
    }
  }

  lemma NameStepIsInert(enc: Encoding, s: seq<byte>, end: nat, i: nat, l: Loop)
    requires i < end <= |s| && !l.state.Outside? && NameStep(enc, s, i).Advance?
    ensures GetAttsPass(enc, s, end, i, l) == Continue(NameStep(enc, s, i).n, l)
  {
  }

  lemma NmstrtStepIsInert(enc: Encoding, s: seq<byte>, end: nat, i: nat, l: Loop)
    requires i < end <= |s| && !l.state.Outside? && NmstrtStep(enc, s, i).Advance?
    ensures GetAttsPass(enc, s, end, i, l) == Continue(NmstrtStep(enc, s, i).n, l)
  {
  }

  lemma {:induction false} AcrossName(enc: Encoding, s: seq<byte>, end: nat, i: nat, j: nat, hadColon: bool, l: Loop)
    requires j <= end <= |s| && NameChars(enc, s, i, j, hadColon) && l.state.InName?
    ensures GetAttsFrom(enc, s, end, i, l) == GetAttsFrom(enc, s, end, j, l)
    decreases j - i
  {
    hide NameStep, NmstrtStep;
    if i < j {
      var n := QNameStep(enc, s, i, hadColon).n;
      if TypeOf(enc, s[i]).Colon? {
        NmstrtStepIsInert(enc, s, end, i + 1, l);
      } else {
        NameStepIsInert(enc, s, end, i, l);
      }
      AcrossName(enc, s, end, i + n, j, hadColon || TypeOf(enc, s[i]).Colon?, l);
    }
  }

  lemma {:induction false} AcrossRefName(enc: Encoding, s: seq<byte>, end: nat, i: nat, j: nat, l: Loop)
    requires i <= j <= end <= |s| && RefName(enc, s, i) == Token(EntityRef, j) && l.state.InValue?
    ensures GetAttsFrom(enc, s, end, i, l) == GetAttsFrom(enc, s, end, j, l)
    decreases |s| - i
  {
    hide NameStep;
    var step := NameStep(enc, s, i);
    if step.Advance? {
      NameStepIsInert(enc, s, end, i, l);
      AcrossRefName(enc, s, end, i + step.n, j, l);
    }
  }

  lemma {:induction false} AcrossDigits(enc: Encoding, s: seq<byte>, end: nat, i: nat, j: nat, hex: bool, l: Loop)
    requires i <= j <= end <= |s| && RefDigits(enc, s, i, hex) == Token(CharRef, j) && l.state.InValue?
    ensures GetAttsFrom(enc, s, end, i, l) == GetAttsFrom(enc, s, end, j, l)
    decreases |s| - i
  {
    if RefDigit(hex, TypeOf(enc, s[i])) {
      AcrossDigits(enc, s, end, i + 1, j, hex, l);
    }
  }

  /** A reference does not leave the value. */
  lemma {:induction false} AcrossRef(enc: Encoding, s: seq<byte>, end: nat, i: nat, j: nat, l: Loop)
    requires AsciiTable(enc) && i <= j <= end <= |s| && l.state.InValue?
    requires Accepts(ScanRef(enc, s, i), j)
    ensures GetAttsFrom(enc, s, end, i, l) == GetAttsFrom(enc, s, end, j, l)
  {
    hide NmstrtStep, RefName, RefDigits;
    match NmstrtStep(enc, s, i)
    case Return(_) =>
    case Advance(n) =>
      NmstrtStepIsInert(enc, s, end, i, l);
      AcrossRefName(enc, s, end, i + n, j, l);
    case NoCase =>
      assert GetAttsFrom(enc, s, end, i, l) == GetAttsFrom(enc, s, end, i + 1, l);
      var hex := s[i + 1] == LOWER_X;
      var k := if hex then i + 2 else i + 1;
      assert GetAttsFrom(enc, s, end, i + 1, l) == GetAttsFrom(enc, s, end, k, l);
      AcrossDigits(enc, s, end, k + 1, j, hex, l);
  }

  /** One step of a value that is not a reference. */
  lemma ValuePass(enc: Encoding, s: seq<byte>, end: nat, i: nat, j: nat, l: Loop)
    requires AsciiTable(enc) && i < j < end <= |s| && IsQuote(l.open) && l.state.InValue?
    requires ValueChars(enc, s, i, j, l.open) && TypeOf(enc, s[j]) == l.open && l.cur.valuePtr <= i
    requires !TypeOf(enc, s[i]).Amp?
    ensures var keeps := l.cur.normalized && PlainAt(enc, s, l.cur.valuePtr, i, j);
      GetAttsPass(enc, s, end, i, l) == Continue(CharLength(enc, s[i]), l.(cur := l.cur.(normalized := keeps)))
    ensures ValueStep(enc, s, i, l.open) == Advance(CharLength(enc, s[i]))
  {
    if TypeOf(enc, s[i]).Space? {
      assert i + 1 == j || TypeOf(enc, s[i + 1]) != l.open;
    }
  }

  /** The step of a value that is a reference. */
  lemma AmpPass(enc: Encoding, s: seq<byte>, end: nat, i: nat, j: nat, l: Loop)
    requires i < j <= end <= |s| && TypeOf(enc, s[i]).Amp? && IsQuote(l.open)
    requires ValueStep(enc, s, i, l.open).Advance?
    ensures GetAttsPass(enc, s, end, i, l) == Continue(1, l.(cur := l.cur.(normalized := false)))
    ensures Accepts(ScanRef(enc, s, i + 1), i + ValueStep(enc, s, i, l.open).n)
    ensures !PlainAt(enc, s, l.cur.valuePtr, i, j)
  {
    hide ScanRef;
  }

  lemma {:induction false} AcrossValue(enc: Encoding, s: seq<byte>, end: nat, i: nat, j: nat, l: Loop)
    requires AsciiTable(enc) && j < end <= |s| && IsQuote(l.open) && l.state.InValue?
    requires ValueChars(enc, s, i, j, l.open) && TypeOf(enc, s[j]) == l.open && l.cur.valuePtr <= i
    ensures var plain := l.cur.normalized && PlainFrom(enc, s, l.cur.valuePtr, i, j);
      GetAttsFrom(enc, s, end, i, l) == GetAttsFrom(enc, s, end, j, l.(cur := l.cur.(normalized := plain)))
    decreases j - i
  {
    hide ScanRef, CharLength, GetAttsPass, PlainAt;
    if i < j {
      var n := ValueStep(enc, s, i, l.open).n;
      if TypeOf(enc, s[i]).Amp? {
        var off := l.(cur := l.cur.(normalized := false));
        AmpPass(enc, s, end, i, j, l);
        AcrossRef(enc, s, end, i + 1, i + n, off);
        AcrossValue(enc, s, end, i + n, j, off);
      } else {
        ValuePass(enc, s, end, i, j, l);
        AcrossValue(enc, s, end, i + n, j, GetAttsPass(enc, s, end, i, l).l);
      }
    }
  }

  lemma {:induction false} TailIsInside(enc: Encoding, s: seq<byte>, i: nat, atts: seq<AttSpan>, end: nat)
    requires TagTail(enc, s, i, atts, end)
    ensures i < end <= |s| && Located(s, atts)
    decreases |atts|
  {
    hide NameChars, ValueChars, NmstrtStep;
    if atts != [] {
      TailIsInside(enc, s, atts[0].valueEnd + 1, atts[1..], end);
      assert atts == [atts[0]] + atts[1..];
    }
  }

  /** From the start of an attribute to its opening quote. */
  lemma {:induction false} AcrossAttName(enc: Encoding, s: seq<byte>, end: nat, a: AttSpan, l: Loop)
    requires a.valueEnd < end <= |s| && IsAtt(enc, s, a) && l.state.Outside?
    ensures GetAttsFrom(enc, s, end, a.name, l)
         == GetAttsFrom(enc, s, end, a.quote + 1,
                        l.(state := InValue, open := TypeOf(enc, s[a.quote]),
                           cur := l.cur.(name := a.name, normalized := true, valuePtr := a.quote + 1)))
  {
    hide NameChars, ValueChars, NmstrtStep, GetAttsPass;
    var n := NmstrtStep(enc, s, a.name).n;
    var l1 := l.(state := InName, cur := l.cur.(name := a.name, normalized := true));
    NameStarts(enc, s, end, a.name, l);
    AcrossName(enc, s, end, a.name + n, a.nameEnd, false, l1);
    AcrossWhite(enc, s, end, a.nameEnd, a.equals, l1);
    AcrossEquals(enc, s, end, a.equals, a.quote, if a.nameEnd < a.equals then l1.(state := Outside) else l1);
  }

  /** From `=` into the value. */
  lemma AcrossEquals(enc: Encoding, s: seq<byte>, end: nat, i: nat, quote: nat, l: Loop)
    requires i < quote < end <= |s| && White(enc, s, i + 1, quote) && !l.state.InValue?
    requires TypeOf(enc, s[i]).Equals? && IsQuote(TypeOf(enc, s[quote]))
    ensures GetAttsFrom(enc, s, end, i, l)
         == GetAttsFrom(enc, s, end, quote + 1,
                        l.(state := InValue, open := TypeOf(enc, s[quote]), cur := l.cur.(valuePtr := quote + 1)))
  {
    assert GetAttsFrom(enc, s, end, i, l) == GetAttsFrom(enc, s, end, i + 1, l);
    AcrossWhite(enc, s, end, i + 1, quote, l);
  }

  /** The first character of a name, after blanks. */
  lemma NameStarts(enc: Encoding, s: seq<byte>, end: nat, i: nat, l: Loop)
    requires i < end <= |s| && l.state.Outside? && NmstrtStep(enc, s, i).Advance?
    ensures GetAttsPass(enc, s, end, i, l)
         == Continue(NmstrtStep(enc, s, i).n, l.(state := InName, cur := l.cur.(name := i, normalized := true)))
  {
  }

  function AfterAttribute(enc: Encoding, s: seq<byte>, a: AttSpan, l: Loop): Loop
    requires a.quote < |s| && a.valueEnd <= |s|
  {
    l.(open := TypeOf(enc, s[a.quote]), done := l.done + [AttributeOf(enc, s, a)],
       cur := Slot(l.slots, |l.done| + 1))
  }

  lemma {:induction false} AcrossAttribute(enc: Encoding, s: seq<byte>, end: nat, a: AttSpan, l: Loop)
    requires AsciiTable(enc) && a.valueEnd < end <= |s| && IsAtt(enc, s, a)
    requires l.state.Outside?
    ensures GetAttsFrom(enc, s, end, a.name, l)
         == GetAttsFrom(enc, s, end, a.valueEnd + 1, AfterAttribute(enc, s, a, l))
  {
    hide NameChars, ValueChars, PlainFrom, NmstrtStep;
    AcrossAttName(enc, s, end, a, l);
    var quote := TypeOf(enc, s[a.quote]);
    var cur := l.cur.(name := a.name, normalized := true, valuePtr := a.quote + 1);
    AcrossValue(enc, s, end, a.quote + 1, a.valueEnd, l.(state := InValue, open := quote, cur := cur));
  }

  lemma {:induction false} AcrossClose(enc: Encoding, s: seq<byte>, i: nat, end: nat, l: Loop)
    requires TagTail(enc, s, i, [], end) && !l.state.InValue?
    ensures GetAttsFrom(enc, s, end, i, l) == Some(l.done)
  {
    var k :| i <= k <= |s| && White(enc, s, i, k) && TagClose(enc, s, k, end);
    AcrossWhite(enc, s, end, i, k, l);
  }

  /** The first attribute of a tail, and the tail behind it. */
  lemma TailHead(enc: Encoding, s: seq<byte>, i: nat, atts: seq<AttSpan>, end: nat)
    requires TagTail(enc, s, i, atts, end) && atts != []
    ensures var a := atts[0];
      && i < a.name < |s| && White(enc, s, i, a.name) && IsAtt(enc, s, a) && a.quote < a.valueEnd < |s|
      && TagTail(enc, s, a.valueEnd + 1, atts[1..], end)
  {
    hide NameChars, ValueChars, NmstrtStep, White, TagClose;
  }

  lemma AttributesOfCons(enc: Encoding, s: seq<byte>, atts: seq<AttSpan>, done: seq<Attribute>)
    requires atts != [] && Located(s, atts)
    ensures Located(s, atts[1..])
    ensures done + AttributesOf(enc, s, atts) == done + [AttributeOf(enc, s, atts[0])] + AttributesOf(enc, s, atts[1..])
  {
    hide AttributeOf;
  }

  /** Across one attribute and the blanks before it. */
  lemma AcrossHead(enc: Encoding, s: seq<byte>, i: nat, a: AttSpan, end: nat, l: Loop)
    requires AsciiTable(enc) && !l.state.InValue? && a.valueEnd < end <= |s|
    requires i < a.name < a.valueEnd && White(enc, s, i, a.name) && IsAtt(enc, s, a) && a.quote < |s|
    ensures var l2 := AfterAttribute(enc, s, a, l.(state := Outside));
      GetAttsFrom(enc, s, end, i, l) == GetAttsFrom(enc, s, end, a.valueEnd + 1, l2)
  {
    hide IsAtt, White, AttributeOf, GetAttsFrom;
    AcrossWhite(enc, s, end, i, a.name, l);
    AcrossAttribute(enc, s, end, a, l.(state := Outside));
  }

  lemma {:induction false} AcrossTail(enc: Encoding, s: seq<byte>, i: nat, atts: seq<AttSpan>, end: nat, l: Loop)
    requires AsciiTable(enc) && TagTail(enc, s, i, atts, end) && end <= |s| && Located(s, atts)
    requires !l.state.InValue?
    ensures GetAttsFrom(enc, s, end, i, l) == Some(l.done + AttributesOf(enc, s, atts))
    decreases |atts|
  {
    hide AttributeOf, AttributesOf, GetAttsFrom, TagTail, IsAtt, White, Located;
    if atts == [] {
      AcrossClose(enc, s, i, end, l);
      NoAttributes(enc, s, l.done);
    } else {
      var a := atts[0];
      TailHead(enc, s, i, atts, end);
      AttNameBeforeQuote(enc, s, a);
      TailIsInside(enc, s, a.valueEnd + 1, atts[1..], end);
      AcrossHead(enc, s, i, a, end, l);
      AttributesOfCons(enc, s, atts, l.done);
      AcrossTail(enc, s, a.valueEnd + 1, atts[1..], end, AfterAttribute(enc, s, a, l.(state := Outside)));
    }
  }

  lemma NoAttributes(enc: Encoding, s: seq<byte>, done: seq<Attribute>)
    ensures Located(s, []) && done + AttributesOf(enc, s, []) == done
  {
  }

  lemma AttNameBeforeQuote(enc: Encoding, s: seq<byte>, a: AttSpan)
    requires IsAtt(enc, s, a)
    ensures a.name < a.quote < a.valueEnd < |s|
  {
    hide NameChars, ValueChars;
  }

  // ---------------------------------------------------------------- scanLt accepts every tag

  /** What the byte behind a name or a value has to be. */
  predicate EndsName(t: ByteType) { IsWhite(t) || t.Equals? || t.Gt? || t.Sol? }

  lemma NoNameCase(enc: Encoding, s: seq<byte>, i: nat, hadColon: bool)
    requires i < |s| && EndsName(TypeOf(enc, s[i]))
    ensures NmstrtStep(enc, s, i).NoCase? && QNameStep(enc, s, i, hadColon).NoCase?
  {
  }

  /** The scanners of names run to the end of the name. */
  lemma {:induction false} TagNameRuns(enc: Encoding, s: seq<byte>, i: nat, j: nat, hadColon: bool)
    returns (colon: bool)
    requires NameChars(enc, s, i, j, hadColon) && j < |s| && EndsName(TypeOf(enc, s[j]))
    ensures TagName(enc, s, i, hadColon) == TagName(enc, s, j, colon)
    decreases j - i
  {
    hide QNameStep;
    colon := hadColon;
    if i < j {
      colon := TagNameRuns(enc, s, i + QNameStep(enc, s, i, hadColon).n, j, hadColon || TypeOf(enc, s[i]).Colon?);
    }
  }

  lemma {:induction false} AttNameRuns(enc: Encoding, s: seq<byte>, i: nat, j: nat, hadColon: bool)
    returns (colon: bool)
    requires NameChars(enc, s, i, j, hadColon) && j < |s| && EndsName(TypeOf(enc, s[j]))
    ensures AttName(enc, s, i, hadColon) == AttName(enc, s, j, colon)
    decreases j - i
  {
    hide QNameStep;
    colon := hadColon;
    if i < j {
      colon := AttNameRuns(enc, s, i + QNameStep(enc, s, i, hadColon).n, j, hadColon || TypeOf(enc, s[i]).Colon?);
    }
  }

  lemma {:induction false} AttValueRuns(enc: Encoding, s: seq<byte>, i: nat, j: nat, open: ByteType)
    requires ValueChars(enc, s, i, j, open) && j < |s| && TypeOf(enc, s[j]) == open
    ensures AttValue(enc, s, i, open) == AttAfterValue(enc, s, j + 1)
    decreases j - i
  {
    hide InvalidStep, AttAfterValue, ScanRef;
    if i < j {
      AttValueRuns(enc, s, i + ValueStep(enc, s, i, open).n, j, open);
    }
  }

  /** Blanks are passed in all four places. */
  lemma {:induction false} BlanksRun(enc: Encoding, s: seq<byte>, i: nat, j: nat)
    requires White(enc, s, i, j)
    ensures TagGap(enc, s, i) == TagGap(enc, s, j) && AttGap(enc, s, i) == AttGap(enc, s, j)
    ensures AttBeforeEquals(enc, s, i) == AttBeforeEquals(enc, s, j)
    ensures AttAfterEquals(enc, s, i) == AttAfterEquals(enc, s, j)
    decreases j - i
  {
    if i < j {
      NoNameCase(enc, s, i, false);
      hide NmstrtStep, AttName, AttValue;
      BlanksRun(enc, s, i + 1, j);
    }
  }

  function Kind(empty: bool, withAtts: bool): Tok {
    if empty then (if withAtts then EmptyElementWithAtts else EmptyElementNoAtts)
    else if withAtts then StartTagWithAtts
    else StartTagNoAtts
  }

  /** Behind a name, from its first blank or its closing. */
  lemma CloseAccepted(enc: Encoding, s: seq<byte>, i: nat, k: nat, end: nat, colon: bool)
    requires White(enc, s, i, k) && TagClose(enc, s, k, end)
    ensures TagName(enc, s, i, colon) == Token(Kind(TypeOf(enc, s[k]).Sol?, false), end)
    ensures AttAfterValue(enc, s, i) == Token(Kind(TypeOf(enc, s[k]).Sol?, true), end)
  {
    NoNameCase(enc, s, i, colon);
    NoNameCase(enc, s, k, colon);
    hide NmstrtStep, QNameStep, AttName;
    if i < k {
      BlanksRun(enc, s, i + 1, k);
    }
  }

  /** From inside the name of an attribute to behind its `=`. */
  lemma AttToEquals(enc: Encoding, s: seq<byte>, i: nat, hadColon: bool, a: AttSpan)
    requires AttFrom(enc, s, i, hadColon, a)
    ensures AttName(enc, s, i, hadColon) == AttAfterEquals(enc, s, a.equals + 1)
  {
    var colon := AttNameRuns(enc, s, i, a.nameEnd, hadColon);
    NoNameCase(enc, s, a.nameEnd, colon);
    hide NameChars, ValueChars, QNameStep, AttAfterEquals;
    if a.nameEnd < a.equals {
      BlanksRun(enc, s, a.nameEnd + 1, a.equals);
      assert IsWhite(TypeOf(enc, s[a.nameEnd]));
    }
  }

  /** The rest of an attribute, from inside its name. */
  lemma AttAccepted(enc: Encoding, s: seq<byte>, i: nat, hadColon: bool, a: AttSpan)
    requires AttFrom(enc, s, i, hadColon, a)
    ensures AttName(enc, s, i, hadColon) == AttAfterValue(enc, s, a.valueEnd + 1)
  {
    hide NameChars, ValueChars, AttName, AttValue, AttAfterValue;
    AttToEquals(enc, s, i, hadColon, a);
    BlanksRun(enc, s, a.equals + 1, a.quote);
    AttValueRuns(enc, s, a.quote + 1, a.valueEnd, TypeOf(enc, s[a.quote]));
  }

  /** Blanks and an attribute, behind a name or a value. */
  lemma AttributeAccepted(enc: Encoding, s: seq<byte>, i: nat, a: AttSpan, colon: bool)
    requires i < a.name < |s| && White(enc, s, i, a.name) && IsAtt(enc, s, a)
    ensures TagName(enc, s, i, colon) == AttAfterValue(enc, s, a.valueEnd + 1)
    ensures AttAfterValue(enc, s, i) == AttAfterValue(enc, s, a.valueEnd + 1)
  {
    NoNameCase(enc, s, i, colon);
    var n := NmstrtStep(enc, s, a.name).n;
    AttAccepted(enc, s, a.name + n, false, a);
    BlanksRun(enc, s, i + 1, a.name);
    hide NmstrtStep, QNameStep, AttName, AttFrom;
    assert IsWhite(TypeOf(enc, s[i]));
    assert TagGap(enc, s, a.name) == AttName(enc, s, a.name + n, false) == AttGap(enc, s, a.name);
  }

  lemma {:induction false} TailAccepted(
      enc: Encoding, s: seq<byte>, i: nat, atts: seq<AttSpan>, end: nat, colon: bool)
    returns (k: nat)
    requires TagTail(enc, s, i, atts, end)
    ensures k < |s| && TagClose(enc, s, k, end)
    ensures i < |s| && EndsName(TypeOf(enc, s[i]))
    ensures TagName(enc, s, i, colon) == Token(Kind(TypeOf(enc, s[k]).Sol?, atts != []), end)
    ensures AttAfterValue(enc, s, i) == Token(Kind(TypeOf(enc, s[k]).Sol?, true), end)
    decreases |atts|
  {
    hide TagName, AttAfterValue, IsAtt;
    if atts == [] {
      k :| i <= k <= |s| && White(enc, s, i, k) && TagClose(enc, s, k, end);
      CloseAccepted(enc, s, i, k, end, colon);
    } else {
      TailHead(enc, s, i, atts, end);
      k := TailAccepted(enc, s, atts[0].valueEnd + 1, atts[1..], end, colon);
      AttributeAccepted(enc, s, i, atts[0], colon);
    }
  }

  /** Every tag of the grammar is accepted by scanLt, with its end, and as the kind of token that its
      closing and its attributes make it. */
  lemma TagIsAccepted(enc: Encoding, s: seq<byte>, nameEnd: nat, atts: seq<AttSpan>, end: nat) returns (k: nat)
    requires IsTag(enc, s, nameEnd, atts, end)
    ensures k < |s| && TagClose(enc, s, k, end)
    ensures ScanLt(enc, s, 1) == Token(Kind(TypeOf(enc, s[k]).Sol?, atts != []), end)
  {
    hide NameChars, TagTail, NmstrtStep, TagName;
    var n := NmstrtStep(enc, s, 1).n;
    k := TailAccepted(enc, s, nameEnd, atts, end, false);
    var colon := TagNameRuns(enc, s, 1 + n, nameEnd, false);
    k := TailAccepted(enc, s, nameEnd, atts, end, colon);
  }

  /** scanLt gives a start-tag token only after a name start. */
  lemma StartTagBegins(enc: Encoding, s: seq<byte>)
    requires |s| > 0 && ScanLt(enc, s, 1).Token? && IsStartTagTok(ScanLt(enc, s, 1).tok)
    ensures |s| > 1 && NmstrtStep(enc, s, 1).Advance?
    ensures ScanLt(enc, s, 1) == TagName(enc, s, 1 + NmstrtStep(enc, s, 1).n, false)
  {
    hide NmstrtStep, TagName, ScanComment, ScanCdataSection, ScanPi, ScanEndTag;
  }

  /** Every tag that scanLt accepts at the start of `s` is a tag of the grammar, and getAtts finds
      exactly the attributes of that reading, with their spans, looking at no byte beyond it. */
  lemma {:induction false} GetAttsFindsScannedAttributes(enc: Encoding, s: seq<byte>, slots: seq<Attribute>)
    returns (nameEnd: nat, atts: seq<AttSpan>)
    requires AsciiTable(enc) && |s| > 0
    requires var r := ScanLt(enc, s, 1); r.Token? && IsStartTagTok(r.tok)
    ensures var end := ScanLt(enc, s, 1).next;
      && IsTag(enc, s, nameEnd, atts, end) && end <= |s| && Located(s, atts)
      && GetAtts(enc, s, end, slots) == Some(AttributesOf(enc, s, atts))
    ensures var tok := ScanLt(enc, s, 1).tok; tok.StartTagWithAtts? || tok.EmptyElementWithAtts? <==> atts != []
  {
    hide ScanLt, NmstrtStep, TagName, TagTail, GetAttsPass;
    var end := ScanLt(enc, s, 1).next;
    StartTagBegins(enc, s);
    var step := NmstrtStep(enc, s, 1);
    nameEnd, atts := TagNameShape(enc, s, 1 + step.n, false, end);
    TailIsInside(enc, s, nameEnd, atts, end);
    var l := Loop(InName, Quot, Slot(slots, 0), [], slots);
    NmstrtStepIsInert(enc, s, end, 1, l);
    AcrossName(enc, s, end, 1 + step.n, nameEnd, false, l);
    AcrossTail(enc, s, nameEnd, atts, end, l);
    var k := TagIsAccepted(enc, s, nameEnd, atts, end);
    assert [] + AttributesOf(enc, s, atts) == AttributesOf(enc, s, atts);
  }
}
