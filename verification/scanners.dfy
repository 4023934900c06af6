/** The scanners of xmltok_impl.c with their loops: each moves `ptr` as the C code does and is
    proved to return what the function of module XmlTok returns. */
module Scanners {
  import opened Common
  import opened XmlTok

  method DoScanComment(enc: Encoding, s: seq<byte>, start: nat) returns (r: Scan)
    requires start <= |s|
    ensures r == ScanComment(enc, s, start)
  {
    var ptr := start;
    if ptr < |s| {
      if s[ptr] != MINUS {
        return InvalidAt(ptr);
      }
      ptr := ptr + 1;
      while ptr < |s|
        invariant start < ptr <= |s|
        invariant CommentBody(enc, s, ptr) == CommentBody(enc, s, start + 1)
      {
        match InvalidStep(enc, s, ptr)
        case Return(scan) => return scan;
        case Advance(n) => ptr := ptr + n;
        case NoCase =>
          var minus := TypeOf(enc, s[ptr]).Minus?;
          ptr := ptr + 1;
          if minus {
            if ptr == |s| {
              return Partial;
            }
            if s[ptr] == MINUS {
              ptr := ptr + 1;
              if ptr == |s| {
                return Partial;
              }
              if s[ptr] != GT {
                return InvalidAt(ptr);
              }
              return Token(Comment, ptr + 1);
            }
          }
      }
    }
    return Partial;
  }

  method DoScanPi(enc: Encoding, s: seq<byte>, target: nat) returns (r: Scan)
    requires target <= |s|
    ensures r == ScanPi(enc, s, target)
  {
    hide NmstrtStep, NameStep, InvalidStep, CheckPiTarget;
    var ptr := target;
    if ptr == |s| {
      return Partial;
    }
    match NmstrtStep(enc, s, ptr) {
      case Return(scan) => return scan;
      case Advance(n) => ptr := ptr + n;
      case NoCase => return InvalidAt(ptr);
    }
    while ptr < |s|
      invariant target < ptr <= |s|
      invariant PiName(enc, s, target, ptr) == ScanPi(enc, s, target)
    {
      match NameStep(enc, s, ptr)
      case Return(scan) => return scan;
      case Advance(n) => ptr := ptr + n;
      case NoCase =>
        var (ok, tok) := CheckPiTarget(s[target..ptr]);
        if IsWhite(TypeOf(enc, s[ptr])) {
          if !ok {
            return InvalidAt(ptr);
          }
          ptr := ptr + 1;
          ghost var body := ptr;
          while ptr < |s|
            invariant body <= ptr <= |s|
            invariant PiBody(enc, s, ptr, tok) == PiBody(enc, s, body, tok)
          {
            match InvalidStep(enc, s, ptr)
            case Return(scan) => return scan;
            case Advance(n) => ptr := ptr + n;
            case NoCase =>
              var quest := TypeOf(enc, s[ptr]).Quest?;
              ptr := ptr + 1;
              if quest {
                if ptr == |s| {
                  return Partial;
                }
                if s[ptr] == GT {
                  return Token(tok, ptr + 1);
                }
              }
          }
          return Partial;
        } else if TypeOf(enc, s[ptr]).Quest? {
          if !ok {
            return InvalidAt(ptr);
          }
          ptr := ptr + 1;
          if ptr == |s| {
            return Partial;
          }
          if s[ptr] == GT {
            return Token(tok, ptr + 1);
          }
          return InvalidAt(ptr);
        } else {
          return InvalidAt(ptr);
        }
    }
    return Partial;
  }

  method DoScanCdataSection(s: seq<byte>, start: nat) returns (r: Scan)
    requires start <= |s|
    ensures r == ScanCdataSection(s, start)
  {
    if |s| - start < 6 {
      return Partial;
    }
    for i := 0 to 6
      invariant CdataOpenFrom(s, start, i) == CdataOpenFrom(s, start, 0)
    {
      if s[start + i] != CdataOpen()[i] {
        return InvalidAt(start + i);
      }
    }
    return Token(CdataSectOpen, start + 6);
  }

  method DoScanEndTag(enc: Encoding, s: seq<byte>, start: nat) returns (r: Scan)
    requires start <= |s|
    ensures r == ScanEndTag(enc, s, start)
  {
    hide NmstrtStep, NameStep;
    var ptr := start;
    if ptr == |s| {
      return Partial;
    }
    match NmstrtStep(enc, s, ptr) {
      case Return(scan) => return scan;
      case Advance(n) => ptr := ptr + n;
      case NoCase => return InvalidAt(ptr);
    }
    while ptr < |s|
      invariant start < ptr <= |s|
      invariant EndTagName(enc, s, ptr) == ScanEndTag(enc, s, start)
    {
      match NameStep(enc, s, ptr)
      case Return(scan) => return scan;
      case Advance(n) => ptr := ptr + n;
      case NoCase =>
        var t := TypeOf(enc, s[ptr]);
        if IsWhite(t) {
          ptr := ptr + 1;
          while ptr < |s|
            invariant start < ptr <= |s|
            invariant EndTagSpace(enc, s, ptr) == ScanEndTag(enc, s, start)
          {
            if TypeOf(enc, s[ptr]).Gt? {
              return Token(EndTag, ptr + 1);
            }
            if !IsWhite(TypeOf(enc, s[ptr])) {
              return InvalidAt(ptr);
            }
            ptr := ptr + 1;
          }
          return Partial;
        } else if t.Colon? {
          ptr := ptr + 1;
        } else if t.Gt? {
          return Token(EndTag, ptr + 1);
        } else {
          return InvalidAt(ptr);
        }
    }
    return Partial;
  }

  method DoScanCharRef(enc: Encoding, s: seq<byte>, start: nat) returns (r: Scan)
    requires start <= |s|
    ensures r == ScanCharRef(enc, s, start)
  {
    var ptr := start;
    var hex := ptr < |s| && s[ptr] == LOWER_X;
    if hex {
      ptr := ptr + 1;
    }
    if ptr < |s| {
      if !RefDigit(hex, TypeOf(enc, s[ptr])) {
        return InvalidAt(ptr);
      }
      ptr := ptr + 1;
      while ptr < |s|
        invariant start < ptr <= |s|
        invariant RefDigits(enc, s, ptr, hex) == ScanCharRef(enc, s, start)
      {
        if !RefDigit(hex, TypeOf(enc, s[ptr])) {
          if TypeOf(enc, s[ptr]).Semi? {
            return Token(CharRef, ptr + 1);
          }
          return InvalidAt(ptr);
        }
        ptr := ptr + 1;
      }
    }
    return Partial;
  }

  method DoScanRef(enc: Encoding, s: seq<byte>, start: nat) returns (r: Scan)
    requires start <= |s|
    ensures r == ScanRef(enc, s, start)
  {
    hide NmstrtStep, NameStep, ScanCharRef;
    var ptr := start;
    if ptr == |s| {
      return Partial;
    }
    match NmstrtStep(enc, s, ptr) {
      case Return(scan) => return scan;
      case Advance(n) => ptr := ptr + n;
      case NoCase =>
        if TypeOf(enc, s[ptr]).Num? {
          r := DoScanCharRef(enc, s, ptr + 1);
          return;
        }
        return InvalidAt(ptr);
    }
    while ptr < |s|
      invariant start < ptr <= |s|
      invariant RefName(enc, s, ptr) == ScanRef(enc, s, start)
    {
      match NameStep(enc, s, ptr)
      case Return(scan) => return scan;
      case Advance(n) => ptr := ptr + n;
      case NoCase =>
        if TypeOf(enc, s[ptr]).Semi? {
          return Token(EntityRef, ptr + 1);
        }
        return InvalidAt(ptr);
    }
    return Partial;
  }

  /** scanAtts; `start` is inside the first attribute's name. Each turn of the loop is one of the
      original's: a name step, or everything from the end of a name to the next name. */
  method DoScanAtts(enc: Encoding, s: seq<byte>, start: nat) returns (r: Scan)
    requires start <= |s|
    ensures r == AttName(enc, s, start, false)
  {
    hide QNameStep, NmstrtStep, ValueStep;
    var ptr, hadColon := start, false;
    while ptr < |s|
      invariant start <= ptr <= |s|
      invariant AttName(enc, s, ptr, hadColon) == AttName(enc, s, start, false)
    {
      var t := TypeOf(enc, s[ptr]);
      match QNameStep(enc, s, ptr, hadColon)
      case Return(scan) => return scan;
      case Advance(n) => ptr, hadColon := ptr + n, hadColon || t.Colon?;
      case NoCase =>
        if !IsWhite(t) && !t.Equals? {
          return InvalidAt(ptr);
        }
        var gap, stop;
        if IsWhite(t) {
          ptr := ptr + 1;
          while ptr < |s| && IsWhite(TypeOf(enc, s[ptr]))
            invariant start <= ptr <= |s|
            invariant AttBeforeEquals(enc, s, ptr) == AttName(enc, s, start, false)
          {
            ptr := ptr + 1;
          }
          if ptr == |s| {
            return Partial;
          }
          if !TypeOf(enc, s[ptr]).Equals? {
            return InvalidAt(ptr);
          }
        }
        ptr, stop := DoScanValue(enc, s, ptr + 1);
        match stop {
          case Some(scan) => return scan;
          case None =>
        }
        ptr, gap := DoScanGap(enc, s, ptr);
        match gap {
          case Some(scan) => return scan;
          case None => hadColon := false;
        }
    }
    return Partial;
  }

  /** From after `=` to after the closing quote. */
  method DoScanValue(enc: Encoding, s: seq<byte>, start: nat) returns (ptr: nat, stop: Option<Scan>)
    requires start <= |s|
    ensures stop.Some? ==> stop.value == AttAfterEquals(enc, s, start)
    ensures stop.None? ==> start < ptr <= |s| && AttAfterValue(enc, s, ptr) == AttAfterEquals(enc, s, start)
  {
    hide ValueStep, AttAfterValue;
    ptr, stop := start, None;
    while ptr < |s| && IsWhite(TypeOf(enc, s[ptr]))
      invariant start <= ptr <= |s|
      invariant AttAfterEquals(enc, s, ptr) == AttAfterEquals(enc, s, start)
    {
      ptr := ptr + 1;
    }
    if ptr == |s| {
      return ptr, Some(Partial);
    }
    var open := TypeOf(enc, s[ptr]);
    if !open.Quot? && !open.Apos? {
      return ptr, Some(InvalidAt(ptr));
    }
    ptr := ptr + 1;
    while true
      invariant start < ptr <= |s|
      invariant AttValue(enc, s, ptr, open) == AttAfterEquals(enc, s, start)
      decreases |s| - ptr
    {
      if ptr == |s| {
        return ptr, Some(Partial);
      }
      match ValueStep(enc, s, ptr, open)
      case Return(scan) => return ptr, Some(scan);
      case Advance(n) => ptr := ptr + n;
      case NoCase => return ptr + 1, None;
    }
  }

  /** From after a closing quote to after the first character of the next name. */
  method DoScanGap(enc: Encoding, s: seq<byte>, start: nat) returns (ptr: nat, stop: Option<Scan>)
    requires start <= |s|
    ensures stop.Some? ==> stop.value == AttAfterValue(enc, s, start)
    ensures stop.None? ==> start < ptr <= |s| && AttName(enc, s, ptr, false) == AttAfterValue(enc, s, start)
  {
    hide NmstrtStep, AttName;
    ptr, stop := start, None;
    if ptr == |s| {
      return ptr, Some(Partial);
    }
    if IsWhite(TypeOf(enc, s[ptr])) {
      ptr := ptr + 1;
      while true
        invariant start < ptr <= |s|
        invariant AttGap(enc, s, ptr) == AttAfterValue(enc, s, start)
        decreases |s| - ptr
      {
        if ptr == |s| {
          return ptr, Some(Partial);
        }
        match NmstrtStep(enc, s, ptr)
        case Return(scan) => return ptr, Some(scan);
        case Advance(n) => return ptr + n, None;
        case NoCase =>
          if !IsWhite(TypeOf(enc, s[ptr])) {
            break;
          }
          ptr := ptr + 1;
      }
    }
    if TypeOf(enc, s[ptr]).Gt? {
      return ptr, Some(Token(StartTagWithAtts, ptr + 1));
    }
    if TypeOf(enc, s[ptr]).Sol? {
      return ptr, Some(AfterSlash(s, ptr + 1, EmptyElementWithAtts));
    }
    return ptr, Some(InvalidAt(ptr));
  }

  method DoScanLt(enc: Encoding, s: seq<byte>, start: nat) returns (r: Scan)
    requires start <= |s|
    ensures r == ScanLt(enc, s, start)
  {
    hide NmstrtStep, QNameStep, AttName, ScanComment, ScanCdataSection, ScanPi, ScanEndTag;
    var ptr := start;
    if ptr == |s| {
      return Partial;
    }
    match NmstrtStep(enc, s, ptr) {
      case Return(scan) => return scan;
      case Advance(n) => ptr := ptr + n;
      case NoCase =>
        var t := TypeOf(enc, s[ptr]);
        if t.Excl? {
          ptr := ptr + 1;
          if ptr == |s| {
            return Partial;
          }
          if TypeOf(enc, s[ptr]).Minus? {
            r := DoScanComment(enc, s, ptr + 1);
            return;
          }
          if TypeOf(enc, s[ptr]).Lsqb? {
            r := DoScanCdataSection(s, ptr + 1);
            return;
          }
          return InvalidAt(ptr);
        }
        if t.Quest? {
          r := DoScanPi(enc, s, ptr + 1);
          return;
        }
        if t.Sol? {
          r := DoScanEndTag(enc, s, ptr + 1);
          return;
        }
        return InvalidAt(ptr);
    }
    var hadColon := false;
    while ptr < |s|
      invariant start < ptr <= |s|
      invariant TagName(enc, s, ptr, hadColon) == ScanLt(enc, s, start)
    {
      var t := TypeOf(enc, s[ptr]);
      match QNameStep(enc, s, ptr, hadColon)
      case Return(scan) => return scan;
      case Advance(n) => ptr, hadColon := ptr + n, hadColon || t.Colon?;
      case NoCase =>
        if IsWhite(t) {
          ptr := ptr + 1;
          while ptr < |s|
            invariant start < ptr <= |s|
            invariant TagGap(enc, s, ptr) == ScanLt(enc, s, start)
          {
            match NmstrtStep(enc, s, ptr)
            case Return(scan) => return scan;
            case Advance(n) =>
              r := DoScanAtts(enc, s, ptr + n);
              return;
            case NoCase =>
              t := TypeOf(enc, s[ptr]);
              if !IsWhite(t) {
                break;
              }
              ptr := ptr + 1;
          }
          if ptr == |s| {
            return Partial;
          }
        }
        if t.Gt? {
          return Token(StartTagNoAtts, ptr + 1);
        }
        if t.Sol? {
          return AfterSlash(s, ptr + 1, EmptyElementNoAtts);
        }
        return InvalidAt(ptr);
    }
    return Partial;
  }

  method DoContentTok(enc: Encoding, s: seq<byte>) returns (r: Scan)
    ensures r == ContentTok(enc, s)
  {
    hide InvalidStep, ScanLt, ScanRef;
    var ptr := 0;
    if ptr == |s| {
      return NoInput;
    }
    var t := TypeOf(enc, s[ptr]);
    match InvalidStep(enc, s, ptr) {
      case Return(scan) => return scan;
      case Advance(n) => ptr := ptr + n;
      case NoCase =>
        if t.Lt? {
          r := DoScanLt(enc, s, ptr + 1);
          return;
        } else if t.Amp? {
          r := DoScanRef(enc, s, ptr + 1);
          return;
        } else if t.Lf? {
          return Token(DataNewline, ptr + 1);
        }
        ptr := ptr + 1;
        if t.Cr? {
          if ptr == |s| {
            return TrailingCr;
          }
          if TypeOf(enc, s[ptr]).Lf? {
            ptr := ptr + 1;
          }
          return Token(DataNewline, ptr);
        } else if t.Rsqb? {
          if ptr == |s| {
            return TrailingRsqb;
          }
          if s[ptr] == RSQB {
            ptr := ptr + 1;
            if ptr == |s| {
              return TrailingRsqb;
            }
            if s[ptr] == GT {
              return InvalidAt(ptr);
            }
            ptr := ptr - 1;
          }
        }
    }
    while ptr < |s|
      invariant 0 < ptr <= |s|
      invariant DataRun(enc, s, ptr) == ContentTok(enc, s)
    {
      t := TypeOf(enc, s[ptr]);
      var n := LeadLength(t);
      if n > 0 {
        if |s| - ptr < n || Holds(enc.invalid, s, ptr, n) {
          return Token(DataChars, ptr);
        }
        ptr := ptr + n;
      } else if t.Rsqb? {
        if ptr + 1 == |s| {
          return Token(DataChars, ptr);
        }
        if s[ptr + 1] == RSQB {
          if ptr + 2 == |s| {
            return Token(DataChars, ptr);
          }
          if s[ptr + 2] == GT {
            return InvalidAt(ptr + 2);
          }
        }
        ptr := ptr + 1;
      } else if t.Amp? || t.Lt? || t.NonXml? || t.Malform? || t.Trail? || t.Cr? || t.Lf? {
        return Token(DataChars, ptr);
      } else {
        ptr := ptr + 1;
      }
    }
    return Token(DataChars, ptr);
  }

  method DoAttributeValueTok(enc: Encoding, s: seq<byte>, start: nat) returns (r: Scan)
    requires start <= |s|
    ensures r == AttributeValueTok(enc, s, start)
  {
    hide ScanRef;
    var ptr := start;
    if ptr == |s| {
      return NoInput;
    }
    while ptr < |s|
      invariant start <= ptr <= |s|
      invariant start < ptr ==> ValueRun(enc, s, start, ptr) == AttributeValueTok(enc, s, start)
    {
      var t := TypeOf(enc, s[ptr]);
      var n := LeadLength(t);
      if n > 0 {
        ptr := if ptr + n > |s| then |s| else ptr + n;
      } else if t.Lt? {
        return InvalidAt(ptr);
      } else if t.Amp? {
        if ptr == start {
          r := DoScanRef(enc, s, ptr + 1);
          return;
        }
        return Token(DataChars, ptr);
      } else if t.Lf? {
        return if ptr == start then Token(DataNewline, ptr + 1) else Token(DataChars, ptr);
      } else if t.Cr? {
        if ptr == start {
          ptr := ptr + 1;
          if ptr == |s| {
            return TrailingCr;
          }
          if TypeOf(enc, s[ptr]).Lf? {
            ptr := ptr + 1;
          }
          return Token(DataNewline, ptr);
        }
        return Token(DataChars, ptr);
      } else if t.Space? {
        return if ptr == start then Token(AttributeValueS, ptr + 1) else Token(DataChars, ptr);
      } else {
        ptr := ptr + 1;
      }
    }
    return Token(DataChars, ptr);
  }
}
