/** The one-byte-minimum instance of expat's tokenizer: the `normal_` functions of
    xmltok_impl.c over any encoding table.

    A buffer `s` stands for the bytes between `ptr` and `end`; positions are offsets into it.
    Each scanner is given twice: as a function that returns what the C function returns, and
    (in module TokLoops) as the method with the original loops, proved equal to the function. */
module XmlTok {
  import opened Common

  datatype ByteType =
    | NonXml | Malform | Lt | Amp | Rsqb | Lead2 | Lead3 | Lead4 | Trail | Cr | Lf | Gt | Quot | Apos
    | Equals | Quest | Excl | Sol | Semi | Num | Lsqb | Space | Nmstrt | Colon | Hex | Digit | Name
    | Minus | Other | NonAscii | Percnt | Lpar | Rpar | Ast | Plus | Comma | Verbar

  /** A predicate on multi-byte characters, as the table of those it holds of: the `isName2`,
      `isName3` and `isName4` members of an encoding, and likewise isNmstrt and isInvalid. */
  datatype CharTable = CharTable(
    two: set<(byte, byte)>,
    three: set<(byte, byte, byte)>,
    four: set<(byte, byte, byte, byte)>)

  predicate Holds(table: CharTable, s: seq<byte>, i: nat, n: nat)
    requires i + n <= |s|
  {
    match n
    case 2 => (s[i], s[i + 1]) in table.two
    case 3 => (s[i], s[i + 1], s[i + 2]) in table.three
    case 4 => (s[i], s[i + 1], s[i + 2], s[i + 3]) in table.four
    case _ => false
  }

  /** `struct normal_encoding`. */
  datatype EncodingTables = EncodingTables(
    types: seq<ByteType>,
    name: CharTable,
    nmstrt: CharTable,
    invalid: CharTable)

  const NONE := CharTable({}, {}, {})

  type Encoding = e: EncodingTables | |e.types| == 256
    witness EncodingTables(seq(256, _ => NonXml), NONE, NONE, NONE)

  /** BYTE_TYPE. */
  function TypeOf(enc: Encoding, b: byte): ByteType { enc.types[b as int] }

  datatype Tok =
    | Invalid | StartTagWithAtts | StartTagNoAtts | EmptyElementWithAtts | EmptyElementNoAtts | EndTag
    | DataChars | DataNewline | CdataSectOpen | EntityRef | CharRef | Pi | XmlDecl | Comment
    | AttributeValueS

  /** What a scanner returns. Only `Token` stores to `*nextTokPtr`. */
  datatype Scan =
    | NoInput | TrailingCr | TrailingRsqb | PartialChar | Partial
    | Token(tok: Tok, next: nat)

  const MINUS: byte := 0x2D
  const RSQB: byte := 0x5D
  const GT: byte := 0x3E
  const LOWER_X: byte := 0x78
  const SPACE: byte := 0x20
  const SEMI: byte := 0x3B

  function CdataOpen(): seq<byte> { [0x43, 0x44, 0x41, 0x54, 0x41, 0x5B] }

  predicate IsWhite(t: ByteType) { t.Space? || t.Cr? || t.Lf? }

  /** Length of the character introduced by a byte of type `t`, when `t` is a lead type. */
  function LeadLength(t: ByteType): nat {
    match t
    case Lead2 => 2
    case Lead3 => 3
    case Lead4 => 4
    case _ => 0
  }

  /** One pass through a group of `case` labels: advance, return, or fall to other labels. */
  datatype Step = Advance(n: nat) | Return(r: Scan) | NoCase

  function InvalidAt(i: nat): Scan { Token(Invalid, i) }

  predicate Only(r: Scan, tok: Tok) { r.Token? ==> r.tok.Invalid? || r.tok == tok }

  /** A token ends behind `i`, and inside the text. */
  predicate Within(r: Scan, i: nat, s: seq<byte>) { r.Token? && !r.tok.Invalid? ==> i < r.next <= |s| }

  /** So it does, and it is no data. */
  predicate MarkupWithin(r: Scan, i: nat, s: seq<byte>) { Within(r, i, s) && (r.Token? ==> !r.tok.DataChars?) }

  /** A scan of a reference asks for input, refuses, or accepts a text that ends at `least` or
      later. */
  predicate RefAnswer(r: Scan, least: nat, end: nat) {
    match r
    case Token(tok, next) => tok.Invalid? || ((tok.EntityRef? || tok.CharRef?) && least <= next <= end)
    case _ => r.Partial? || r.PartialChar?
  }

  /** CHECK_NAME_CASES. */
  function NameStep(enc: Encoding, s: seq<byte>, i: nat): (r: Step)
    requires i < |s|
    ensures r.Advance? ==> 0 < r.n && i + r.n <= |s|
    ensures r.Return? ==> r.r == PartialChar || r.r == InvalidAt(i)
  {
    var t := TypeOf(enc, s[i]);
    var n := LeadLength(t);
    if t.NonAscii? then Return(InvalidAt(i))
    else if t.Nmstrt? || t.Hex? || t.Digit? || t.Name? || t.Minus? then Advance(1)
    else if n == 0 then NoCase
    else if i + n > |s| then Return(PartialChar)
    else if Holds(enc.name, s, i, n) then Advance(n)
    else Return(InvalidAt(i))
  }

  /** CHECK_NMSTRT_CASES. */
  function NmstrtStep(enc: Encoding, s: seq<byte>, i: nat): (r: Step)
    requires i < |s|
    ensures r.Advance? ==> 0 < r.n && i + r.n <= |s|
    ensures r.Return? ==> r.r == PartialChar || r.r == InvalidAt(i)
  {
    var t := TypeOf(enc, s[i]);
    var n := LeadLength(t);
    if t.NonAscii? then Return(InvalidAt(i))
    else if t.Nmstrt? || t.Hex? then Advance(1)
    else if n == 0 then NoCase
    else if i + n > |s| then Return(PartialChar)
    else if Holds(enc.nmstrt, s, i, n) then Advance(n)
    else Return(InvalidAt(i))
  }

  /** INVALID_CASES. */
  function InvalidStep(enc: Encoding, s: seq<byte>, i: nat): (r: Step)
    requires i < |s|
    ensures r.Advance? ==> 0 < r.n && i + r.n <= |s|
    ensures r.Return? ==> r.r == PartialChar || r.r == InvalidAt(i)
  {
    var t := TypeOf(enc, s[i]);
    var n := LeadLength(t);
    if t.NonXml? || t.Malform? || t.Trail? then Return(InvalidAt(i))
    else if n == 0 then NoCase
    else if i + n > |s| then Return(PartialChar)
    else if Holds(enc.invalid, s, i, n) then Return(InvalidAt(i))
    else Advance(n)
  }

  /** The body of a comment: `i` follows `<!--`. */
  function CommentBody(enc: Encoding, s: seq<byte>, i: nat): (r: Scan)
    requires i <= |s|
    ensures Only(r, Comment)
    ensures Within(r, i, s)
    decreases |s| - i
  {
    if i == |s| then Partial else
    match InvalidStep(enc, s, i)
    case Return(r) => r
    case Advance(n) => CommentBody(enc, s, i + n)
    case NoCase =>
      if !TypeOf(enc, s[i]).Minus? then CommentBody(enc, s, i + 1)
      else if i + 1 == |s| then Partial
      else if s[i + 1] != MINUS then CommentBody(enc, s, i + 1)
      else if i + 2 == |s| then Partial
      else if s[i + 2] != GT then InvalidAt(i + 2)
      else Token(Comment, i + 3)
  }

  /** scanComment: `i` follows `<!-`. */
  function ScanComment(enc: Encoding, s: seq<byte>, i: nat): (r: Scan)
    requires i <= |s|
    ensures Only(r, Comment)
    ensures Within(r, i, s)
  {
    if i == |s| then Partial
    else if s[i] != MINUS then InvalidAt(i)
    else CommentBody(enc, s, i + 1)
  }

  /** checkPiTarget: the target `xml` in lower case is an XML declaration, any other
      capitalisation of it is refused. */
  function CheckPiTarget(target: seq<byte>): (r: (bool, Tok))
    ensures r.1 in {Pi, XmlDecl}
  {
    if |target| == 3
       && (target[0] == 0x78 || target[0] == 0x58)
       && (target[1] == 0x6D || target[1] == 0x4D)
       && (target[2] == 0x6C || target[2] == 0x4C)
    then
      if target == [0x78, 0x6D, 0x6C] then (true, XmlDecl) else (false, Pi)
    else (true, Pi)
  }

  function PiBody(enc: Encoding, s: seq<byte>, i: nat, tok: Tok): (r: Scan)
    requires i <= |s|
    ensures Only(r, tok)
    ensures Within(r, i, s)
    decreases |s| - i
  {
    if i == |s| then Partial else
    match InvalidStep(enc, s, i)
    case Return(r) => r
    case Advance(n) => PiBody(enc, s, i + n, tok)
    case NoCase =>
      if !TypeOf(enc, s[i]).Quest? then PiBody(enc, s, i + 1, tok)
      else if i + 1 == |s| then Partial
      else if s[i + 1] == GT then Token(tok, i + 2)
      else PiBody(enc, s, i + 1, tok)
  }

  function PiName(enc: Encoding, s: seq<byte>, target: nat, i: nat): (r: Scan)
    requires target <= i <= |s|
    ensures Only(r, Pi) || Only(r, XmlDecl)
    ensures Within(r, i, s)
    decreases |s| - i
  {
    if i == |s| then Partial else
    match NameStep(enc, s, i)
    case Return(r) => r
    case Advance(n) => PiName(enc, s, target, i + n)
    case NoCase =>
      var t := TypeOf(enc, s[i]);
      var (ok, tok) := CheckPiTarget(s[target..i]);
      if IsWhite(t) then
        if ok then PiBody(enc, s, i + 1, tok) else InvalidAt(i)
      else if t.Quest? then
        if !ok then InvalidAt(i)
        else if i + 1 == |s| then Partial
        else if s[i + 1] == GT then Token(tok, i + 2)
        else InvalidAt(i + 1)
      else InvalidAt(i)
  }

  /** scanPi: `i` follows `<?`. */
  function ScanPi(enc: Encoding, s: seq<byte>, i: nat): (r: Scan)
    requires i <= |s|
    ensures Only(r, Pi) || Only(r, XmlDecl)
    ensures Within(r, i, s)
  {
    if i == |s| then Partial else
    match NmstrtStep(enc, s, i)
    case Return(r) => r
    case Advance(n) => PiName(enc, s, i, i + n)
    case NoCase => InvalidAt(i)
  }

  function CdataOpenFrom(s: seq<byte>, i: nat, k: nat): (r: Scan)
    requires k <= 6 && i + 6 <= |s|
    ensures Only(r, CdataSectOpen) && Within(r, i, s)
    decreases 6 - k
  {
    if k == 6 then Token(CdataSectOpen, i + 6)
    else if s[i + k] != CdataOpen()[k] then InvalidAt(i + k)
    else CdataOpenFrom(s, i, k + 1)
  }

  /** scanCdataSection: `i` follows `<![`. */
  function ScanCdataSection(s: seq<byte>, i: nat): (r: Scan)
    requires i <= |s|
    ensures Only(r, CdataSectOpen)
    ensures Within(r, i, s)
  {
    if |s| - i < 6 then Partial else CdataOpenFrom(s, i, 0)
  }

  function EndTagSpace(enc: Encoding, s: seq<byte>, i: nat): (r: Scan)
    requires i <= |s|
    ensures Only(r, EndTag)
    ensures Within(r, i, s)
    decreases |s| - i
  {
    if i == |s| then Partial
    else if IsWhite(TypeOf(enc, s[i])) then EndTagSpace(enc, s, i + 1)
    else if TypeOf(enc, s[i]).Gt? then Token(EndTag, i + 1)
    else InvalidAt(i)
  }

  function EndTagName(enc: Encoding, s: seq<byte>, i: nat): (r: Scan)
    requires i <= |s|
    ensures Only(r, EndTag)
    ensures Within(r, i, s)
    decreases |s| - i
  {
    if i == |s| then Partial else
    match NameStep(enc, s, i)
    case Return(r) => r
    case Advance(n) => EndTagName(enc, s, i + n)
    case NoCase =>
      var t := TypeOf(enc, s[i]);
      if IsWhite(t) then EndTagSpace(enc, s, i + 1)
      else if t.Colon? then EndTagName(enc, s, i + 1)
      else if t.Gt? then Token(EndTag, i + 1)
      else InvalidAt(i)
  }

  /** scanEndTag: `i` follows `</`. */
  function ScanEndTag(enc: Encoding, s: seq<byte>, i: nat): (r: Scan)
    requires i <= |s|
    ensures Only(r, EndTag)
    ensures Within(r, i, s)
  {
    if i == |s| then Partial else
    match NmstrtStep(enc, s, i)
    case Return(r) => r
    case Advance(n) => EndTagName(enc, s, i + n)
    case NoCase => InvalidAt(i)
  }

  predicate RefDigit(hex: bool, t: ByteType) { t.Digit? || (hex && t.Hex?) }

  function RefDigits(enc: Encoding, s: seq<byte>, i: nat, hex: bool): (r: Scan)
    requires i <= |s|
    ensures RefAnswer(r, i + 1, |s|) && !r.PartialChar? && (r.Token? ==> !r.tok.EntityRef?)
    decreases |s| - i
  {
    if i == |s| then Partial
    else if RefDigit(hex, TypeOf(enc, s[i])) then RefDigits(enc, s, i + 1, hex)
    else if TypeOf(enc, s[i]).Semi? then Token(CharRef, i + 1)
    else InvalidAt(i)
  }

  /** scanHexCharRef (`hex`, `i` follows `&#x`) and the decimal part of scanCharRef. */
  function ScanDigits(enc: Encoding, s: seq<byte>, i: nat, hex: bool): (r: Scan)
    requires i <= |s|
    ensures RefAnswer(r, i + 2, |s|) && !r.PartialChar? && (r.Token? ==> !r.tok.EntityRef?)
  {
    if i == |s| then Partial
    else if RefDigit(hex, TypeOf(enc, s[i])) then RefDigits(enc, s, i + 1, hex)
    else InvalidAt(i)
  }

  /** scanCharRef: `i` follows `&#`. */
  function ScanCharRef(enc: Encoding, s: seq<byte>, i: nat): (r: Scan)
    requires i <= |s|
    ensures RefAnswer(r, i + 2, |s|) && !r.PartialChar? && (r.Token? ==> !r.tok.EntityRef?)
  {
    if i < |s| && s[i] == LOWER_X then ScanDigits(enc, s, i + 1, true)
    else ScanDigits(enc, s, i, false)
  }

  function RefName(enc: Encoding, s: seq<byte>, i: nat): (r: Scan)
    requires i <= |s|
    ensures RefAnswer(r, i + 1, |s|) && (r.Token? ==> !r.tok.CharRef?)
    decreases |s| - i
  {
    if i == |s| then Partial else
    match NameStep(enc, s, i)
    case Return(r) => r
    case Advance(n) => RefName(enc, s, i + n)
    case NoCase => if TypeOf(enc, s[i]).Semi? then Token(EntityRef, i + 1) else InvalidAt(i)
  }

  /** scanRef: `i` follows `&`. */
  function ScanRef(enc: Encoding, s: seq<byte>, i: nat): (r: Scan)
    requires i <= |s|
    ensures RefAnswer(r, i + 2, |s|)
    ensures r.Token? && r.tok.CharRef? ==> i + 3 <= r.next
  {
    if i == |s| then Partial else
    match NmstrtStep(enc, s, i)
    case Return(r) => r
    case Advance(n) => RefName(enc, s, i + n)
    case NoCase =>
      if TypeOf(enc, s[i]).Num? then ScanCharRef(enc, s, i + 1)
      else InvalidAt(i)
  }

  // ---------------------------------------------------------------- start tags

  /** `sol:` with `i` after the slash. */
  function AfterSlash(s: seq<byte>, i: nat, tok: Tok): Scan
    requires i <= |s|
  {
    if i == |s| then Partial
    else if s[i] != GT then InvalidAt(i)
    else Token(tok, i + 1)
  }

  /** The labels of a qualified-name loop: name characters, and one colon that a name start
      must follow. */
  function QNameStep(enc: Encoding, s: seq<byte>, i: nat, hadColon: bool): (r: Step)
    requires i < |s|
    ensures r.Advance? ==> 0 < r.n && i + r.n <= |s|
    ensures r.Return? ==> r.r.Partial? || r.r.PartialChar? || (r.r.Token? && r.r.tok.Invalid?)
  {
    if !TypeOf(enc, s[i]).Colon? then NameStep(enc, s, i)
    else if hadColon then Return(InvalidAt(i))
    else if i + 1 == |s| then Return(Partial)
    else match NmstrtStep(enc, s, i + 1)
      case Return(r) => Return(r)
      case Advance(n) => Advance(n + 1)
      case NoCase => Return(InvalidAt(i + 1))
  }

  /** One step through an attribute value; NoCase at the closing quote. */
  function ValueStep(enc: Encoding, s: seq<byte>, i: nat, open: ByteType): (r: Step)
    requires i < |s|
    ensures r.Advance? ==> 0 < r.n && i + r.n <= |s|
    ensures r.Return? ==> r.r.Partial? || r.r.PartialChar? || (r.r.Token? && r.r.tok.Invalid?)
    ensures r.NoCase? <==> TypeOf(enc, s[i]) == open
  {
    var t := TypeOf(enc, s[i]);
    if t == open then NoCase
    else match InvalidStep(enc, s, i)
      case Return(r) => Return(r)
      case Advance(n) => Advance(n)
      case NoCase =>
        if t.Amp? then
          var r := ScanRef(enc, s, i + 1);
          if r.Token? && !r.tok.Invalid? then Advance(r.next - i) else Return(r)
        else if t.Lt? then Return(InvalidAt(i))
        else Advance(1)
  }

  /** The name loop of scanAtts; `i` is inside an attribute name. */
  function AttName(enc: Encoding, s: seq<byte>, i: nat, hadColon: bool): (r: Scan)
    requires i <= |s|
    ensures MarkupWithin(r, i, s)
    decreases |s| - i, 0
  {
    if i == |s| then Partial else
    var t := TypeOf(enc, s[i]);
    match QNameStep(enc, s, i, hadColon)
    case Return(r) => r
    case Advance(n) => AttName(enc, s, i + n, hadColon || t.Colon?)
    case NoCase =>
      if IsWhite(t) then AttBeforeEquals(enc, s, i + 1)
      else if t.Equals? then AttAfterEquals(enc, s, i + 1)
      else InvalidAt(i)
  }

  /** Blanks between an attribute name and its `=`. */
  function AttBeforeEquals(enc: Encoding, s: seq<byte>, i: nat): (r: Scan)
    requires i <= |s|
    ensures MarkupWithin(r, i, s)
    decreases |s| - i, 0
  {
    if i == |s| then Partial
    else
      var t := TypeOf(enc, s[i]);
      if t.Equals? then AttAfterEquals(enc, s, i + 1)
      else if IsWhite(t) then AttBeforeEquals(enc, s, i + 1)
      else InvalidAt(i)
  }

  /** Blanks between `=` and the opening quote. */
  function AttAfterEquals(enc: Encoding, s: seq<byte>, i: nat): (r: Scan)
    requires i <= |s|
    ensures MarkupWithin(r, i, s)
    decreases |s| - i, 0
  {
    if i == |s| then Partial
    else
      var t := TypeOf(enc, s[i]);
      if t.Quot? || t.Apos? then AttValue(enc, s, i + 1, t)
      else if IsWhite(t) then AttAfterEquals(enc, s, i + 1)
      else InvalidAt(i)
  }

  function AttValue(enc: Encoding, s: seq<byte>, i: nat, open: ByteType): (r: Scan)
    requires i <= |s|
    ensures MarkupWithin(r, i, s)
    decreases |s| - i, 0
  {
    if i == |s| then Partial else
    match ValueStep(enc, s, i, open)
    case Return(r) => r
    case Advance(n) => AttValue(enc, s, i + n, open)
    case NoCase => AttAfterValue(enc, s, i + 1)
  }

  /** The byte after a closing quote. */
  function AttAfterValue(enc: Encoding, s: seq<byte>, i: nat): (r: Scan)
    requires i <= |s|
    ensures MarkupWithin(r, i, s)
    decreases |s| - i, 0
  {
    if i == |s| then Partial
    else
      var t := TypeOf(enc, s[i]);
      if IsWhite(t) then AttGap(enc, s, i + 1)
      else if t.Sol? then AfterSlash(s, i + 1, EmptyElementWithAtts)
      else if t.Gt? then Token(StartTagWithAtts, i + 1)
      else InvalidAt(i)
  }

  /** Blanks after an attribute. */
  function AttGap(enc: Encoding, s: seq<byte>, i: nat): (r: Scan)
    requires i <= |s|
    ensures MarkupWithin(r, i, s)
    decreases |s| - i, 0
  {
    if i == |s| then Partial
    else match NmstrtStep(enc, s, i)
      case Return(r) => r
      case Advance(n) => AttName(enc, s, i + n, false)
      case NoCase =>
        var t := TypeOf(enc, s[i]);
        if IsWhite(t) then AttGap(enc, s, i + 1)
        else if t.Gt? then Token(StartTagWithAtts, i + 1)
        else if t.Sol? then AfterSlash(s, i + 1, EmptyElementWithAtts)
        else InvalidAt(i)
  }

  /** Blanks after an element name, before any attribute. */
  function TagGap(enc: Encoding, s: seq<byte>, i: nat): (r: Scan)
    requires i <= |s|
    ensures MarkupWithin(r, i, s)
    decreases |s| - i
  {
    if i == |s| then Partial
    else match NmstrtStep(enc, s, i)
      case Return(r) => r
      case Advance(n) => AttName(enc, s, i + n, false)
      case NoCase =>
        var t := TypeOf(enc, s[i]);
        if t.Gt? then Token(StartTagNoAtts, i + 1)
        else if t.Sol? then AfterSlash(s, i + 1, EmptyElementNoAtts)
        else if IsWhite(t) then TagGap(enc, s, i + 1)
        else InvalidAt(i)
  }

  function TagName(enc: Encoding, s: seq<byte>, i: nat, hadColon: bool): (r: Scan)
    requires i <= |s|
    ensures MarkupWithin(r, i, s)
    decreases |s| - i
  {
    if i == |s| then Partial else
    var t := TypeOf(enc, s[i]);
    match QNameStep(enc, s, i, hadColon)
    case Return(r) => r
    case Advance(n) => TagName(enc, s, i + n, hadColon || t.Colon?)
    case NoCase =>
      if IsWhite(t) then TagGap(enc, s, i + 1)
      else if t.Gt? then Token(StartTagNoAtts, i + 1)
      else if t.Sol? then AfterSlash(s, i + 1, EmptyElementNoAtts)
      else InvalidAt(i)
  }

  /** scanLt: `i` follows `<`. */
  function ScanLt(enc: Encoding, s: seq<byte>, i: nat): (r: Scan)
    requires i <= |s|
    ensures MarkupWithin(r, i, s)
  {
    if i == |s| then Partial else
    match NmstrtStep(enc, s, i)
    case Return(r) => r
    case Advance(n) => TagName(enc, s, i + n, false)
    case NoCase =>
      var t := TypeOf(enc, s[i]);
      if t.Excl? then
        if i + 1 == |s| then Partial
        else if TypeOf(enc, s[i + 1]).Minus? then ScanComment(enc, s, i + 2)
        else if TypeOf(enc, s[i + 1]).Lsqb? then ScanCdataSection(s, i + 2)
        else InvalidAt(i + 1)
      else if t.Quest? then ScanPi(enc, s, i + 1)
      else if t.Sol? then ScanEndTag(enc, s, i + 1)
      else InvalidAt(i)
  }

  // ---------------------------------------------------------------- content

  /** The data loop of contentTok, entered with `i > 0`. */
  function DataRun(enc: Encoding, s: seq<byte>, i: nat): (r: Scan)
    requires i <= |s|
    ensures r.Token? && (r.tok.DataChars? || r.tok.Invalid?) && i <= r.next && (r.tok.DataChars? ==> r.next <= |s|)
    decreases |s| - i
  {
    if i == |s| then Token(DataChars, i) else
    var t := TypeOf(enc, s[i]);
    var n := LeadLength(t);
    if n > 0 then
      if i + n > |s| || Holds(enc.invalid, s, i, n) then Token(DataChars, i) else DataRun(enc, s, i + n)
    else if t.Rsqb? then
      if i + 1 == |s| then Token(DataChars, i)
      else if s[i + 1] != RSQB then DataRun(enc, s, i + 1)
      else if i + 2 == |s| then Token(DataChars, i)
      else if s[i + 2] != GT then DataRun(enc, s, i + 1)
      else InvalidAt(i + 2)
    else if t.Amp? || t.Lt? || t.NonXml? || t.Malform? || t.Trail? || t.Cr? || t.Lf? then
      Token(DataChars, i)
    else DataRun(enc, s, i + 1)
  }

  /** contentTok on the whole of `s`. */
  function ContentTok(enc: Encoding, s: seq<byte>): (r: Scan)
    ensures Within(r, 0, s)
  {
    if |s| == 0 then NoInput else
    match InvalidStep(enc, s, 0)
    case Return(r) => r
    case Advance(n) => DataRun(enc, s, n)
    case NoCase =>
      var t := TypeOf(enc, s[0]);
      if t.Lt? then ScanLt(enc, s, 1)
      else if t.Amp? then ScanRef(enc, s, 1)
      else if t.Cr? then
        if |s| == 1 then TrailingCr
        else Token(DataNewline, if TypeOf(enc, s[1]).Lf? then 2 else 1)
      else if t.Lf? then Token(DataNewline, 1)
      else if t.Rsqb? then
        if |s| == 1 then TrailingRsqb
        else if s[1] != RSQB then DataRun(enc, s, 1)
        else if |s| == 2 then TrailingRsqb
        else if s[2] != GT then DataRun(enc, s, 1)
        else InvalidAt(2)
      else DataRun(enc, s, 1)
  }

  /** The data part of attributeValueTok, with `i > start`. A character cut short by the end of
      the text ends at the end of the text. */
  function ValueRun(enc: Encoding, s: seq<byte>, start: nat, i: nat): (r: Scan)
    requires start < i <= |s|
    ensures r.Token? && (r.tok.DataChars? ==> start < r.next <= |s|)
    ensures r.tok.DataChars? || r.tok.Invalid?
    decreases |s| - i
  {
    if i == |s| then Token(DataChars, i) else
    var t := TypeOf(enc, s[i]);
    var n := LeadLength(t);
    if n > 0 then ValueRun(enc, s, start, if i + n > |s| then |s| else i + n)
    else if t.Lt? then InvalidAt(i)
    else if t.Amp? || t.Lf? || t.Cr? || t.Space? then Token(DataChars, i)
    else ValueRun(enc, s, start, i + 1)
  }

  predicate IsValueTok(tok: Tok) {
    tok.Invalid? || tok.EntityRef? || tok.CharRef? || tok.DataChars? || tok.DataNewline?
    || tok.AttributeValueS?
  }

  /** attributeValueTok on the text from `start`. */
  function AttributeValueTok(enc: Encoding, s: seq<byte>, start: nat): (r: Scan)
    requires start <= |s|
    ensures r.Token? && !r.tok.Invalid? ==> start < r.next <= |s|
    ensures start < |s| ==> !r.NoInput?
    ensures !r.TrailingRsqb? && (r.TrailingCr? ==> start + 1 == |s|)
    ensures r.Token? && r.tok.EntityRef? ==> start + 3 <= r.next
    ensures r.Token? && r.tok.CharRef? ==> start + 4 <= r.next
    ensures r.Token? ==> IsValueTok(r.tok)
  {
    if start == |s| then NoInput else
    var t := TypeOf(enc, s[start]);
    var n := LeadLength(t);
    if n > 0 then ValueRun(enc, s, start, if start + n > |s| then |s| else start + n)
    else if t.Amp? then ScanRef(enc, s, start + 1)
    else if t.Lt? then InvalidAt(start)
    else if t.Lf? then Token(DataNewline, start + 1)
    else if t.Cr? then
      if start + 1 == |s| then TrailingCr
      else Token(DataNewline, if TypeOf(enc, s[start + 1]).Lf? then start + 2 else start + 1)
    else if t.Space? then Token(AttributeValueS, start + 1)
    else ValueRun(enc, s, start, start + 1)
  }
}
