/** Chunk independence: what a scanner decides on a prefix of the input it decides on every
    extension of that prefix, unless it asked for more input. */
module ChunkIndependence {
  import opened Common
  import opened XmlTok

  /** The answers that mean "call again with more input". */
  predicate Undecided(r: Scan) { r.Partial? || r.PartialChar? }

  lemma SameCharacter(p: seq<byte>, q: seq<byte>, i: nat, n: nat)
    requires p <= q && i + n <= |p|
    ensures p[i..i + n] == q[i..i + n]
  {
  }

  lemma StepExtends(enc: Encoding, p: seq<byte>, q: seq<byte>, i: nat)
    requires p <= q && i < |p|
    ensures NameStep(enc, p, i) != Return(PartialChar) ==> NameStep(enc, q, i) == NameStep(enc, p, i)
    ensures NmstrtStep(enc, p, i) != Return(PartialChar) ==> NmstrtStep(enc, q, i) == NmstrtStep(enc, p, i)
    ensures InvalidStep(enc, p, i) != Return(PartialChar) ==> InvalidStep(enc, q, i) == InvalidStep(enc, p, i)
  {
    var n := LeadLength(TypeOf(enc, p[i]));
    if i + n <= |p| {
      SameCharacter(p, q, i, n);
    }
  }

  lemma QNameStepExtends(enc: Encoding, p: seq<byte>, q: seq<byte>, i: nat, hadColon: bool)
    requires p <= q && i < |p|
    ensures var step := QNameStep(enc, p, i, hadColon);
      !(step.Return? && Undecided(step.r)) ==> QNameStep(enc, q, i, hadColon) == step
  {
    hide NameStep, NmstrtStep;
    StepExtends(enc, p, q, i);
    if i + 1 < |p| {
      StepExtends(enc, p, q, i + 1);
    }
  }

  lemma {:induction false} CommentBodyExtends(enc: Encoding, p: seq<byte>, q: seq<byte>, i: nat)
    requires p <= q && i <= |p| && !Undecided(CommentBody(enc, p, i))
    ensures CommentBody(enc, q, i) == CommentBody(enc, p, i)
    decreases |p| - i
  {
    hide InvalidStep;
    StepExtends(enc, p, q, i);
    match InvalidStep(enc, p, i)
    case Return(_) =>
    case Advance(n) => CommentBodyExtends(enc, p, q, i + n);
    case NoCase =>
      if !TypeOf(enc, p[i]).Minus? || p[i + 1] != MINUS {
        CommentBodyExtends(enc, p, q, i + 1);
      }
  }

  lemma {:induction false} PiBodyExtends(enc: Encoding, p: seq<byte>, q: seq<byte>, i: nat, tok: Tok)
    requires p <= q && i <= |p| && !Undecided(PiBody(enc, p, i, tok))
    ensures PiBody(enc, q, i, tok) == PiBody(enc, p, i, tok)
    decreases |p| - i
  {
    hide InvalidStep;
    StepExtends(enc, p, q, i);
    match InvalidStep(enc, p, i)
    case Return(_) =>
    case Advance(n) => PiBodyExtends(enc, p, q, i + n, tok);
    case NoCase =>
      if !TypeOf(enc, p[i]).Quest? || p[i + 1] != GT {
        PiBodyExtends(enc, p, q, i + 1, tok);
      }
  }

  lemma {:induction false} PiNameExtends(enc: Encoding, p: seq<byte>, q: seq<byte>, target: nat, i: nat)
    requires p <= q && target <= i <= |p| && !Undecided(PiName(enc, p, target, i))
    ensures PiName(enc, q, target, i) == PiName(enc, p, target, i)
    decreases |p| - i
  {
    hide NameStep, CheckPiTarget, PiBody;
    StepExtends(enc, p, q, i);
    SameCharacter(p, q, target, i - target);
    match NameStep(enc, p, i)
    case Return(_) =>
    case Advance(n) => PiNameExtends(enc, p, q, target, i + n);
    case NoCase =>
      var (ok, tok) := CheckPiTarget(p[target..i]);
      if IsWhite(TypeOf(enc, p[i])) && ok {
        PiBodyExtends(enc, p, q, i + 1, tok);
      }
  }

  lemma CdataOpenExtends(p: seq<byte>, q: seq<byte>, i: nat, k: nat)
    requires p <= q && k <= 6 && i + 6 <= |p|
    ensures CdataOpenFrom(q, i, k) == CdataOpenFrom(p, i, k)
    decreases 6 - k
  {
  }

  lemma EndTagSpaceExtends(enc: Encoding, p: seq<byte>, q: seq<byte>, i: nat)
    requires p <= q && i <= |p| && !Undecided(EndTagSpace(enc, p, i))
    ensures EndTagSpace(enc, q, i) == EndTagSpace(enc, p, i)
    decreases |p| - i
  {
  }

  lemma {:induction false} EndTagNameExtends(enc: Encoding, p: seq<byte>, q: seq<byte>, i: nat)
    requires p <= q && i <= |p| && !Undecided(EndTagName(enc, p, i))
    ensures EndTagName(enc, q, i) == EndTagName(enc, p, i)
    decreases |p| - i
  {
    hide NameStep, EndTagSpace;
    StepExtends(enc, p, q, i);
    match NameStep(enc, p, i)
    case Return(_) =>
    case Advance(n) => EndTagNameExtends(enc, p, q, i + n);
    case NoCase =>
      var t := TypeOf(enc, p[i]);
      if IsWhite(t) {
        EndTagSpaceExtends(enc, p, q, i + 1);
      } else if t.Colon? {
        EndTagNameExtends(enc, p, q, i + 1);
      }
  }

  lemma RefDigitsExtends(enc: Encoding, p: seq<byte>, q: seq<byte>, i: nat, hex: bool)
    requires p <= q && i <= |p| && !Undecided(RefDigits(enc, p, i, hex))
    ensures RefDigits(enc, q, i, hex) == RefDigits(enc, p, i, hex)
    decreases |p| - i
  {
  }

  lemma {:induction false} RefNameExtends(enc: Encoding, p: seq<byte>, q: seq<byte>, i: nat)
    requires p <= q && i <= |p| && !Undecided(RefName(enc, p, i))
    ensures RefName(enc, q, i) == RefName(enc, p, i)
    decreases |p| - i
  {
    hide NameStep;
    StepExtends(enc, p, q, i);
    var step := NameStep(enc, p, i);
    if step.Advance? {
      RefNameExtends(enc, p, q, i + step.n);
    }
  }

  lemma {:induction false} ScanRefExtends(enc: Encoding, p: seq<byte>, q: seq<byte>, i: nat)
    requires p <= q && i <= |p| && !Undecided(ScanRef(enc, p, i))
    ensures ScanRef(enc, q, i) == ScanRef(enc, p, i)
  {
    hide NmstrtStep, RefName, RefDigits;
    StepExtends(enc, p, q, i);
    match NmstrtStep(enc, p, i)
    case Return(_) =>
    case Advance(n) => RefNameExtends(enc, p, q, i + n);
    case NoCase =>
      if TypeOf(enc, p[i]).Num? && i + 1 < |p| {
        var hex := p[i + 1] == LOWER_X;
        var j := if hex then i + 2 else i + 1;
        if j < |p| && RefDigit(hex, TypeOf(enc, p[j])) {
          RefDigitsExtends(enc, p, q, j + 1, hex);
        }
      }
  }

  lemma {:induction false} AttNameExtends(enc: Encoding, p: seq<byte>, q: seq<byte>, i: nat, hadColon: bool)
    requires p <= q && i <= |p| && !Undecided(AttName(enc, p, i, hadColon))
    ensures AttName(enc, q, i, hadColon) == AttName(enc, p, i, hadColon)
    decreases |p| - i, 0
  {
    hide QNameStep, AttBeforeEquals, AttAfterEquals;
    QNameStepExtends(enc, p, q, i, hadColon);
    var t := TypeOf(enc, p[i]);
    match QNameStep(enc, p, i, hadColon)
    case Return(_) =>
    case Advance(n) => AttNameExtends(enc, p, q, i + n, hadColon || t.Colon?);
    case NoCase =>
      if IsWhite(t) {
        AttBeforeEqualsExtends(enc, p, q, i + 1);
      } else if t.Equals? {
        AttAfterEqualsExtends(enc, p, q, i + 1);
      }
  }

  lemma {:induction false} AttBeforeEqualsExtends(enc: Encoding, p: seq<byte>, q: seq<byte>, i: nat)
    requires p <= q && i <= |p| && !Undecided(AttBeforeEquals(enc, p, i))
    ensures AttBeforeEquals(enc, q, i) == AttBeforeEquals(enc, p, i)
    decreases |p| - i, 0
  {
    hide AttAfterEquals;
    var t := TypeOf(enc, p[i]);
    if t.Equals? {
      AttAfterEqualsExtends(enc, p, q, i + 1);
    } else if IsWhite(t) {
      AttBeforeEqualsExtends(enc, p, q, i + 1);
    }
  }

  lemma {:induction false} AttAfterEqualsExtends(enc: Encoding, p: seq<byte>, q: seq<byte>, i: nat)
    requires p <= q && i <= |p| && !Undecided(AttAfterEquals(enc, p, i))
    ensures AttAfterEquals(enc, q, i) == AttAfterEquals(enc, p, i)
    decreases |p| - i, 0
  {
    hide AttValue;
    var t := TypeOf(enc, p[i]);
    if t.Quot? || t.Apos? {
      AttValueExtends(enc, p, q, i + 1, t);
    } else if IsWhite(t) {
      AttAfterEqualsExtends(enc, p, q, i + 1);
    }
  }

  lemma {:induction false} ValueStepExtends(enc: Encoding, p: seq<byte>, q: seq<byte>, i: nat, open: ByteType)
    requires p <= q && i < |p|
    ensures var step := ValueStep(enc, p, i, open);
      !(step.Return? && Undecided(step.r)) ==> ValueStep(enc, q, i, open) == step
  {
    hide InvalidStep, ScanRef;
    StepExtends(enc, p, q, i);
    if !Undecided(ScanRef(enc, p, i + 1)) {
      ScanRefExtends(enc, p, q, i + 1);
    }
  }

  lemma {:induction false} AttValueExtends(enc: Encoding, p: seq<byte>, q: seq<byte>, i: nat, open: ByteType)
    requires p <= q && i <= |p| && !Undecided(AttValue(enc, p, i, open))
    ensures AttValue(enc, q, i, open) == AttValue(enc, p, i, open)
    decreases |p| - i, 0
  {
    hide ValueStep, AttAfterValue, MarkupWithin;
    ValueStepExtends(enc, p, q, i, open);
    match ValueStep(enc, p, i, open)
    case Return(_) =>
    case Advance(n) => AttValueExtends(enc, p, q, i + n, open);
    case NoCase => AttAfterValueExtends(enc, p, q, i + 1);
  }

  lemma {:induction false} AttAfterValueExtends(enc: Encoding, p: seq<byte>, q: seq<byte>, i: nat)
    requires p <= q && i <= |p| && !Undecided(AttAfterValue(enc, p, i))
    ensures AttAfterValue(enc, q, i) == AttAfterValue(enc, p, i)
    decreases |p| - i, 0
  {
    hide AttGap;
    if IsWhite(TypeOf(enc, p[i])) {
      AttGapExtends(enc, p, q, i + 1);
    }
  }

  lemma {:induction false} AttGapExtends(enc: Encoding, p: seq<byte>, q: seq<byte>, i: nat)
    requires p <= q && i <= |p| && !Undecided(AttGap(enc, p, i))
    ensures AttGap(enc, q, i) == AttGap(enc, p, i)
    decreases |p| - i, 0
  {
    hide NmstrtStep, AttName;
    StepExtends(enc, p, q, i);
    match NmstrtStep(enc, p, i)
    case Return(_) =>
    case Advance(n) => AttNameExtends(enc, p, q, i + n, false);
    case NoCase =>
      if IsWhite(TypeOf(enc, p[i])) {
        AttGapExtends(enc, p, q, i + 1);
      }
  }

  lemma {:induction false} TagGapExtends(enc: Encoding, p: seq<byte>, q: seq<byte>, i: nat)
    requires p <= q && i <= |p| && !Undecided(TagGap(enc, p, i))
    ensures TagGap(enc, q, i) == TagGap(enc, p, i)
    decreases |p| - i
  {
    hide NmstrtStep, AttName;
    StepExtends(enc, p, q, i);
    match NmstrtStep(enc, p, i)
    case Return(_) =>
    case Advance(n) => AttNameExtends(enc, p, q, i + n, false);
    case NoCase =>
      if IsWhite(TypeOf(enc, p[i])) {
        TagGapExtends(enc, p, q, i + 1);
      }
  }

  lemma {:induction false} TagNameExtends(enc: Encoding, p: seq<byte>, q: seq<byte>, i: nat, hadColon: bool)
    requires p <= q && i <= |p| && !Undecided(TagName(enc, p, i, hadColon))
    ensures TagName(enc, q, i, hadColon) == TagName(enc, p, i, hadColon)
    decreases |p| - i
  {
    hide QNameStep, TagGap;
    QNameStepExtends(enc, p, q, i, hadColon);
    var t := TypeOf(enc, p[i]);
    match QNameStep(enc, p, i, hadColon)
    case Return(_) =>
    case Advance(n) => TagNameExtends(enc, p, q, i + n, hadColon || t.Colon?);
    case NoCase =>
      if IsWhite(t) {
        TagGapExtends(enc, p, q, i + 1);
      }
  }

  lemma {:induction false} ScanLtExtends(enc: Encoding, p: seq<byte>, q: seq<byte>, i: nat)
    requires p <= q && i <= |p| && !Undecided(ScanLt(enc, p, i))
    ensures ScanLt(enc, q, i) == ScanLt(enc, p, i)
  {
    hide NmstrtStep, TagName, CommentBody, CdataOpenFrom, PiName, EndTagName;
    StepExtends(enc, p, q, i);
    match NmstrtStep(enc, p, i)
    case Return(_) =>
    case Advance(n) => TagNameExtends(enc, p, q, i + n, false);
    case NoCase =>
      var t := TypeOf(enc, p[i]);
      if t.Excl? {
        if TypeOf(enc, p[i + 1]).Minus? {
          if p[i + 2] == MINUS {
            CommentBodyExtends(enc, p, q, i + 3);
          }
        } else if TypeOf(enc, p[i + 1]).Lsqb? {
          CdataOpenExtends(p, q, i + 2, 0);
        }
      } else if t.Quest? {
        StepExtends(enc, p, q, i + 1);
        var step := NmstrtStep(enc, p, i + 1);
        if step.Advance? {
          PiNameExtends(enc, p, q, i + 1, i + 1 + step.n);
        }
      } else if t.Sol? {
        StepExtends(enc, p, q, i + 1);
        var step := NmstrtStep(enc, p, i + 1);
        if step.Advance? {
          EndTagNameExtends(enc, p, q, i + 1 + step.n);
        }
      }
  }

  /** A data run can only end early, so the one firm answer it gives is the refusal of `]]>`. */
  lemma {:induction false} DataRunExtends(enc: Encoding, p: seq<byte>, q: seq<byte>, i: nat)
    requires p <= q && i <= |p| && !Revisable(DataRun(enc, p, i))
    ensures DataRun(enc, q, i) == DataRun(enc, p, i)
    decreases |p| - i
  {
    var n := LeadLength(TypeOf(enc, p[i]));
    if n > 0 {
      SameCharacter(p, q, i, n);
      DataRunExtends(enc, p, q, i + n);
    } else if !TypeOf(enc, p[i]).Rsqb? || p[i + 1] != RSQB || p[i + 2] != GT {
      DataRunExtends(enc, p, q, i + 1);
    }
  }

  /** The answers of contentTok that a later chunk may revise. */
  predicate Revisable(r: Scan) {
    !r.Token? || r.tok.DataChars?
  }

  lemma {:induction false} ContentTokChunkIndependent(enc: Encoding, p: seq<byte>, q: seq<byte>)
    requires p <= q && !Revisable(ContentTok(enc, p))
    ensures ContentTok(enc, q) == ContentTok(enc, p)
  {
    hide InvalidStep, DataRun, ScanLt, ScanRef;
    StepExtends(enc, p, q, 0);
    match InvalidStep(enc, p, 0)
    case Return(_) =>
    case Advance(n) => DataRunExtends(enc, p, q, n);
    case NoCase =>
      var t := TypeOf(enc, p[0]);
      if t.Lt? {
        ScanLtExtends(enc, p, q, 1);
      } else if t.Amp? {
        ScanRefExtends(enc, p, q, 1);
      } else if t.Cr? || t.Lf? {
      } else if !t.Rsqb? || p[1] != RSQB || p[2] != GT {
        DataRunExtends(enc, p, q, 1);
      }
  }
}
