/** Chunk independence of whole texts: for content brought in any chunks, the content loop reports
    what it reports for the text in one piece, once adjacent data is put together. */
module ChunkSequences {
  import opened Common
  import opened XmlTok
  import opened ChunkIndependence
  import Scanners
  import PushParser

  /** What the loop of doContent gets from the tokenizer: a run of character data, or another token. */
  datatype Event = Data(text: seq<byte>) | Markup(tok: Tok, text: seq<byte>)

  /** Why the loop stops: it holds back what is left for the next chunk, there is an invalid token,
      or the CDATA section that is opened has a loop of its own. */
  datatype Ending = Held | Refused | CdataOpened

  datatype Reading = Reading(events: seq<Event>, at: nat, ending: Ending)

  function EventOf(tok: Tok, text: seq<byte>): (e: Event)
    ensures e.text == text
  {
    if tok.DataChars? then Data(text) else Markup(tok, text)
  }

  function Prepend(e: Event, r: Reading): Reading {
    Reading([e] + r.events, |e.text| + r.at, r.ending)
  }

  /** The loop of doContent on a chunk that is not the last: its tokens, and where and why it stops. */
  function Read(enc: Encoding, s: seq<byte>): (r: Reading)
    ensures !r.ending.Refused? ==> r.at <= |s|
    decreases |s|
  {
    var r := ContentTok(enc, s);
    if !r.Token? then Reading([], 0, Held)
    else if r.tok.Invalid? then Reading([], r.next, Refused)
    else if r.tok.CdataSectOpen? then Reading([], r.next, CdataOpened)
    else Prepend(EventOf(r.tok, s[..r.next]), Read(enc, s[r.next..]))
  }

  // ---------------------------------------------------------------- adjacent data put together

  datatype Atom = Char(b: byte) | Mark(tok: Tok, text: seq<byte>)

  function Chars(text: seq<byte>): (r: seq<Atom>)
    ensures |r| == |text| && forall k :: 0 <= k < |r| ==> r[k] == Char(text[k])
  {
    seq(|text|, k requires 0 <= k < |text| => Char(text[k]))
  }

  function AtomsOf(e: Event): seq<Atom> {
    match e
    case Data(text) => Chars(text)
    case Markup(tok, text) => [Mark(tok, text)]
  }

  /** The events, data byte by byte: equal for two sequences that differ in how data is cut. */
  function Flat(events: seq<Event>): seq<Atom> {
    if events == [] then [] else AtomsOf(events[0]) + Flat(events[1..])
  }

  /** The length of the text that the events stand for. */
  function Covered(events: seq<Event>): nat {
    if events == [] then 0 else |events[0].text| + Covered(events[1..])
  }

  lemma {:induction false} FlatConcat(a: seq<Event>, b: seq<Event>)
    ensures Flat(a + b) == Flat(a) + Flat(b) && Covered(a + b) == Covered(a) + Covered(b)
  {
    if a == [] {
      assert a + b == b;
    } else {
      assert (a + b)[0] == a[0] && (a + b)[1..] == a[1..] + b;
      FlatConcat(a[1..], b);
    }
  }

  lemma FlatCons(e: Event, events: seq<Event>)
    ensures Flat([e] + events) == AtomsOf(e) + Flat(events) && Covered([e] + events) == |e.text| + Covered(events)
  {
    assert ([e] + events)[1..] == events;
  }

  /** The same, but that the one may lack data in front of a refusal. */
  ghost predicate Agrees(whole: Reading, pieces: Reading) {
    && whole.ending == pieces.ending && whole.at == pieces.at
    && AgreeFlat(Flat(whole.events), Flat(pieces.events), whole.ending.Refused?)
  }

  ghost predicate AgreeFlat(whole: seq<Atom>, pieces: seq<Atom>, refused: bool) {
    && |whole| <= |pieces| && pieces[..|whole|] == whole
    && (!refused ==> whole == pieces)
    && forall k :: |whole| <= k < |pieces| ==> pieces[k].Char?
  }

  // ---------------------------------------------------------------- data runs

  function Shifted(r: Scan, n: nat): Scan {
    if r.Token? && n <= r.next then Token(r.tok, r.next - n) else r
  }

  lemma SameInside(table: CharTable, s: seq<byte>, j: nat, k: nat, n: nat)
    requires j + k + n <= |s|
    ensures Holds(table, s[j..], k, n) == Holds(table, s, j + k, n)
  {
  }

  lemma {:induction false} RunShift(enc: Encoding, s: seq<byte>, j: nat, k: nat)
    requires j + k <= |s|
    ensures DataRun(enc, s[j..], k) == Shifted(DataRun(enc, s, j + k), j)
    decreases |s| - j - k
  {
    hide Holds, LeadLength;
    if j + k < |s| {
      var n := LeadLength(TypeOf(enc, s[j + k]));
      assert s[j..][k] == s[j + k];
      if n > 0 && j + k + n <= |s| {
        SameInside(enc.invalid, s, j, k, n);
        RunShift(enc, s, j, k + n);
      } else if n == 0 {
        RunShift(enc, s, j, k + 1);
      }
    }
  }

  lemma LeadStartsRun(enc: Encoding, s: seq<byte>)
    requires s != []
    requires var n := LeadLength(TypeOf(enc, s[0])); 0 < n <= |s| && !Holds(enc.invalid, s, 0, n)
    ensures ContentTok(enc, s) == DataRun(enc, s, LeadLength(TypeOf(enc, s[0])))
  {
    hide DataRun, ScanLt, ScanRef;
  }

  lemma PlainStartsRun(enc: Encoding, s: seq<byte>)
    requires s != [] && LeadLength(TypeOf(enc, s[0])) == 0
    requires var t := TypeOf(enc, s[0]);
      && !t.Amp? && !t.Lt? && !t.NonXml? && !t.Malform? && !t.Trail? && !t.Cr? && !t.Lf?
      && (t.Rsqb? ==> |s| > 1 && (s[1] == RSQB ==> |s| > 2))
    ensures ContentTok(enc, s) ==
      if TypeOf(enc, s[0]).Rsqb? && s[1] == RSQB && s[2] == GT then InvalidAt(2) else DataRun(enc, s, 1)
  {
    hide DataRun, ScanLt, ScanRef;
  }

  /** A data run that gets past `j` is what contentTok finds at `j`. */
  lemma RunFromHere(enc: Encoding, s: seq<byte>, j: nat)
    requires j <= |s| && DataRun(enc, s, j) != Token(DataChars, j)
    ensures j < |s| && ContentTok(enc, s[j..]) == Shifted(DataRun(enc, s, j), j)
  {
    hide DataRun, ContentTok, LeadLength;
    RunUnfolds(enc, s, j);
    var u := s[j..];
    assert u[0] == s[j];
    var n := LeadLength(TypeOf(enc, s[j]));
    if n > 0 {
      assert u[..n] == s[j..j + n];
      LeadStartsRun(enc, u);
      RunShift(enc, s, j, n);
    } else {
      PlainStartsRun(enc, u);
      RunShift(enc, s, j, 1);
    }
  }

  lemma RunUnfolds(enc: Encoding, s: seq<byte>, j: nat)
    requires j <= |s| && DataRun(enc, s, j) != Token(DataChars, j)
    ensures j < |s|
    ensures var t, r := TypeOf(enc, s[j]), DataRun(enc, s, j);
      var n := LeadLength(t);
      if n > 0 then j + n <= |s| && !Holds(enc.invalid, s, j, n) && r == DataRun(enc, s, j + n)
      else
        && !t.Amp? && !t.Lt? && !t.NonXml? && !t.Malform? && !t.Trail? && !t.Cr? && !t.Lf?
        && (t.Rsqb? ==>
              && j + 1 < |s|
              && (s[j + 1] == RSQB ==> j + 2 < |s|))
        && if t.Rsqb? && s[j + 1] == RSQB && s[j + 2] == GT then r == InvalidAt(j + 2)
           else r == DataRun(enc, s, j + 1)
  {
  }

  /** A data run on a prefix ends as on the whole, or the run goes on where the prefix holds back. */
  ghost predicate Continues(enc: Encoding, p: seq<byte>, q: seq<byte>, i: nat, whole: Scan)
    requires i <= |p| && i <= |q|
  {
    || whole == Token(DataChars, i)
    || (&& !ContentTok(enc, p[i..]).Token? && whole.Token? && (whole.tok.DataChars? || whole.tok.Invalid?)
        && i < whole.next && ContentTok(enc, q[i..]) == Token(whole.tok, whole.next - i))
  }

  lemma {:induction false} RunContinues(enc: Encoding, p: seq<byte>, q: seq<byte>, j: nat)
    requires p <= q && j <= |p| && DataRun(enc, p, j).tok.DataChars?
    ensures Continues(enc, p, q, DataRun(enc, p, j).next, DataRun(enc, q, j))
    decreases |p| - j
  {
    hide Continues;
    if DataRun(enc, p, j) == Token(DataChars, j) {
      RunStopped(enc, p, q, j);
    } else {
      RunUnfolds(enc, p, j);
      var n := LeadLength(TypeOf(enc, p[j]));
      if n > 0 {
        SameCharacter(p, q, j, n);
        RunContinues(enc, p, q, j + n);
        assert DataRun(enc, q, j) == DataRun(enc, q, j + n);
      } else {
        RunContinues(enc, p, q, j + 1);
        assert DataRun(enc, q, j) == DataRun(enc, q, j + 1);
      }
    }
  }

  lemma RunStopped(enc: Encoding, p: seq<byte>, q: seq<byte>, j: nat)
    requires p <= q && j <= |p| && DataRun(enc, p, j) == Token(DataChars, j)
    ensures Continues(enc, p, q, j, DataRun(enc, q, j))
  {
    if DataRun(enc, q, j) != Token(DataChars, j) {
      RunFromHere(enc, q, j);
      RunGetsPast(enc, q, j);
      StopHoldsBack(enc, p, q, j);
    }
  }

  lemma RunGetsPast(enc: Encoding, s: seq<byte>, j: nat)
    requires j <= |s| && DataRun(enc, s, j) != Token(DataChars, j)
    ensures DataRun(enc, s, j).next > j
  {
    hide DataRun;
    RunUnfolds(enc, s, j);
  }

  lemma StopHoldsBack(enc: Encoding, p: seq<byte>, q: seq<byte>, j: nat)
    requires p <= q && j <= |p| && DataRun(enc, p, j) == Token(DataChars, j)
    requires DataRun(enc, q, j) != Token(DataChars, j)
    ensures !ContentTok(enc, p[j..]).Token?
  {
    if j < |p| {
      assert p[j..][0] == p[j] == q[j];
      RunUnfolds(enc, q, j);
      var n := LeadLength(TypeOf(enc, p[j]));
      if j + n <= |p| {
        SameCharacter(p, q, j, n);
      }
    }
  }

  lemma DataContinues(enc: Encoding, p: seq<byte>, q: seq<byte>)
    requires p <= q
    requires var r := ContentTok(enc, p); r.Token? && r.tok.DataChars?
    ensures var i := ContentTok(enc, p).next; i <= |p| && Continues(enc, p, q, i, ContentTok(enc, q))
  {
    hide DataRun, InvalidStep, ScanLt, ScanRef, Continues;
    StepExtends(enc, p, q, 0);
    match InvalidStep(enc, p, 0)
    case Return(_) =>
    case Advance(n) => RunContinues(enc, p, q, n);
    case NoCase => RunContinues(enc, p, q, 1);
  }

  // ---------------------------------------------------------------- two pieces

  /** The reading goes on where it held back, with more text behind. */
  function Onward(enc: Encoding, q: seq<byte>, a: Reading): Reading
    requires a.ending.Held? ==> a.at <= |q|
  {
    if !a.ending.Held? then a
    else
      var b := Read(enc, q[a.at..]);
      Reading(a.events + b.events, a.at + b.at, b.ending)
  }

  /** The whole is refused in a data run that the first piece has reported the beginning of. */
  predicate CutOff(a: Reading, whole: Reading) {
    a.ending.Held? && whole.ending.Refused? && Covered(whole.events) < a.at
  }

  ghost predicate SplitFits(enc: Encoding, q: seq<byte>, a: Reading, whole: Reading)
    requires a.ending.Held? ==> a.at <= |q|
  {
    var x := Onward(enc, q, a);
    Agrees(whole, x) && (Flat(whole.events) == Flat(x.events) <==> !CutOff(a, whole))
  }

  lemma PrependAgrees(e: Event, whole: Reading, pieces: Reading)
    requires Agrees(whole, pieces)
    ensures Agrees(Prepend(e, whole), Prepend(e, pieces))
    ensures Flat(Prepend(e, whole).events) == Flat(Prepend(e, pieces).events) <==> Flat(whole.events) == Flat(pieces.events)
    ensures Covered(Prepend(e, whole).events) == |e.text| + Covered(whole.events)
  {
    hide Flat, Covered;
    FlatCons(e, whole.events);
    FlatCons(e, pieces.events);
    AtomsInFront(AtomsOf(e), Flat(whole.events), Flat(pieces.events), whole.ending.Refused?);
  }

  lemma AtomsInFront(a: seq<Atom>, whole: seq<Atom>, pieces: seq<Atom>, refused: bool)
    requires AgreeFlat(whole, pieces, refused)
    ensures AgreeFlat(a + whole, a + pieces, refused)
    ensures a + whole == a + pieces <==> whole == pieces
  {
    assert (a + pieces)[|a|..] == pieces && (a + whole)[|a|..] == whole;
    assert (a + pieces)[..|a + whole|] == a + pieces[..|whole|];
  }

  lemma SameAgrees(r: Reading)
    ensures Agrees(r, r)
  {
  }

  /** One token that both readings begin with. */
  lemma SplitBehind(enc: Encoding, q: seq<byte>, e: Event, a: Reading, whole: Reading)
    requires |e.text| <= |q| && (a.ending.Held? ==> a.at <= |q| - |e.text|)
    requires SplitFits(enc, q[|e.text|..], a, whole)
    ensures SplitFits(enc, q, Prepend(e, a), Prepend(e, whole))
  {
    hide Read, Agrees, Flat, Covered;
    var n := |e.text|;
    PrependAgrees(e, whole, Onward(enc, q[n..], a));
    if a.ending.Held? {
      assert q[n..][a.at..] == q[n + a.at..];
      var b := Read(enc, q[n + a.at..]);
      assert [e] + (a.events + b.events) == ([e] + a.events) + b.events;
    }
  }

  lemma ReadsOneRun(enc: Encoding, p: seq<byte>, i: nat)
    requires i <= |p| && ContentTok(enc, p) == Token(DataChars, i) && !ContentTok(enc, p[i..]).Token?
    ensures Read(enc, p) == Reading([Data(p[..i])], i, Held)
  {
    hide ContentTok;
    assert [Data(p[..i])] + [] == [Data(p[..i])];
  }

  lemma ReadsRefusal(enc: Encoding, s: seq<byte>)
    requires var r := ContentTok(enc, s); r.Token? && r.tok.Invalid?
    ensures Read(enc, s) == Reading([], ContentTok(enc, s).next, Refused)
  {
    hide ContentTok;
  }

  /** The first piece ends in a data run that goes on. */
  lemma SplitInRun(enc: Encoding, p: seq<byte>, q: seq<byte>)
    requires p <= q
    requires var r := ContentTok(enc, p); r.Token? && r.tok.DataChars?
    requires var i := ContentTok(enc, p).next;
      i <= |p| && ContentTok(enc, q) != Token(DataChars, i) && Continues(enc, p, q, i, ContentTok(enc, q))
    ensures SplitFits(enc, q, Read(enc, p), Read(enc, q))
  {
    hide ContentTok, Read, Flat, Covered, Agrees;
    var i, r := ContentTok(enc, p).next, ContentTok(enc, q);
    ReadsOneRun(enc, p, i);
    assert p[..i] == q[..i];
    if r.tok.DataChars? {
      RunIsJoined(enc, q, i, r.next);
    } else {
      ReadsRefusal(enc, q);
      ReadsRefusal(enc, q[i..]);
      RunIsLost(p[..i], r.next);
    }
  }

  lemma RunIsJoined(enc: Encoding, q: seq<byte>, i: nat, m: nat)
    requires 0 < i < m <= |q|
    requires ContentTok(enc, q) == Token(DataChars, m) && ContentTok(enc, q[i..]) == Token(DataChars, m - i)
    ensures SplitFits(enc, q, Reading([Data(q[..i])], i, Held), Read(enc, q))
  {
    hide ContentTok, Flat, Covered;
    var rest := Read(enc, q[m..]);
    assert q[i..][m - i..] == q[m..] && q[i..][..m - i] == q[i..m];
    assert Read(enc, q) == Prepend(Data(q[..m]), rest);
    assert Read(enc, q[i..]) == Prepend(Data(q[i..m]), rest);
    FlatCons(Data(q[..m]), rest.events);
    FlatCons(Data(q[i..m]), rest.events);
    FlatCons(Data(q[..i]), Read(enc, q[i..]).events);
    assert Chars(q[..m]) == Chars(q[..i]) + Chars(q[i..m]);
    assert Flat(Read(enc, q).events) == Flat(Onward(enc, q, Reading([Data(q[..i])], i, Held)).events);
  }

  lemma RunIsLost(text: seq<byte>, at: nat)
    requires text != []
    ensures Agrees(Reading([], at, Refused), Reading([Data(text)] + [], at, Refused))
    ensures Flat([Data(text)] + []) != Flat([]) && Covered([]) == 0
  {
    FlatCons(Data(text), []);
  }

  /** A text in two pieces: the readings of the pieces report what the reading of the whole reports, and
      stop where and as it does, but that a whole that is refused in a data run lacks the data of that
      run. It does so exactly when the cut leaves a beginning of that run to the first piece. */
  lemma {:induction false} SplitAgrees(enc: Encoding, p: seq<byte>, q: seq<byte>)
    requires p <= q
    ensures SplitFits(enc, q, Read(enc, p), Read(enc, q))
    decreases |p|
  {
    hide ContentTok, SplitFits, Continues, Revisable;
    var r := ContentTok(enc, p);
    if !r.Token? {
      NothingYet(enc, q);
    } else if r.tok.DataChars? {
      DataContinues(enc, p, q);
      var i := r.next;
      if ContentTok(enc, q) == Token(DataChars, i) {
        SplitAgrees(enc, p[i..], q[i..]);
        assert p[..i] == q[..i];
        SplitBehind(enc, q, Data(q[..i]), Read(enc, p[i..]), Read(enc, q[i..]));
      } else {
        SplitInRun(enc, p, q);
      }
    } else {
      assert !Revisable(r) by { FirmIsNotRevisable(r); }
      ContentTokChunkIndependent(enc, p, q);
      if r.tok.Invalid? || r.tok.CdataSectOpen? {
        AllDecided(enc, q, Read(enc, p));
      } else {
        var n := r.next;
        SplitAgrees(enc, p[n..], q[n..]);
        assert p[..n] == q[..n];
        SplitBehind(enc, q, EventOf(r.tok, q[..n]), Read(enc, p[n..]), Read(enc, q[n..]));
      }
    }
  }

  lemma FirmIsNotRevisable(r: Scan)
    requires r.Token? && !r.tok.DataChars?
    ensures !Revisable(r)
  {
  }

  lemma NothingYet(enc: Encoding, q: seq<byte>)
    ensures SplitFits(enc, q, Reading([], 0, Held), Read(enc, q))
  {
    hide Read, Flat, Covered;
    assert q[0..] == q && [] + Read(enc, q).events == Read(enc, q).events;
    SameAgrees(Read(enc, q));
  }

  lemma AllDecided(enc: Encoding, q: seq<byte>, a: Reading)
    requires !a.ending.Held?
    ensures SplitFits(enc, q, a, a)
  {
    SameAgrees(a);
  }

  /** The text `a]]>` in one piece, and with a cut behind its first character. */
  lemma DataBeforeRefusalIsLost(enc: Encoding)
    requires TypeOf(enc, 0x61).Hex? && TypeOf(enc, RSQB).Rsqb?
    ensures var s: seq<byte> := [0x61, RSQB, RSQB, GT];
      && Read(enc, s) == Reading([], 3, Refused)
      && Read(enc, s[..1]) == Reading([Data(s[..1])], 1, Held)
      && Onward(enc, s, Read(enc, s[..1])) == Reading([Data(s[..1])], 3, Refused)
  {
    var s: seq<byte> := [0x61, RSQB, RSQB, GT];
    PlainStartsRun(enc, s);
    assert DataRun(enc, s, 1) == InvalidAt(3);
    PlainStartsRun(enc, s[..1]);
    assert s[..1][..1] == s[..1] && s[..1][1..] == [];
    PlainStartsRun(enc, s[1..]);
    assert [Data(s[..1])] + [] == [Data(s[..1])];
  }

  lemma ReadToken(enc: Encoding, s: seq<byte>, at: nat)
    requires at <= |s|
    ensures var r := ContentTok(enc, s[at..]);
      if !r.Token? then Read(enc, s[at..]) == Reading([], 0, Held)
      else if r.tok.Invalid? then Read(enc, s[at..]) == Reading([], r.next, Refused)
      else if r.tok.CdataSectOpen? then Read(enc, s[at..]) == Reading([], r.next, CdataOpened)
      else
        && r.next > 0 && at + r.next <= |s|
        && Read(enc, s[at..]) == Prepend(EventOf(r.tok, s[at..][..r.next]), Read(enc, s[at + r.next..]))
  {
    hide ContentTok;
    var r := ContentTok(enc, s[at..]);
    if r.Token? && !r.tok.Invalid? {
      assert s[at..][r.next..] == s[at + r.next..];
    }
  }

  /** The tokens from `at` on, behind those before it. */
  ghost predicate ReadSoFar(enc: Encoding, s: seq<byte>, events: seq<Event>, at: nat)
    requires at <= |s|
  {
    var whole, rest := Read(enc, s), Read(enc, s[at..]);
    whole == Reading(events + rest.events, at + rest.at, rest.ending)
  }

  lemma ReadOneMore(enc: Encoding, s: seq<byte>, events: seq<Event>, at: nat)
    requires at <= |s| && ReadSoFar(enc, s, events, at)
    ensures var r := ContentTok(enc, s[at..]);
      if !r.Token? then Read(enc, s) == Reading(events, at, Held)
      else if r.tok.Invalid? then Read(enc, s) == Reading(events, at + r.next, Refused)
      else if r.tok.CdataSectOpen? then Read(enc, s) == Reading(events, at + r.next, CdataOpened)
      else
        && r.next > 0 && at + r.next <= |s|
        && ReadSoFar(enc, s, events + [EventOf(r.tok, s[at..][..r.next])], at + r.next)
  {
    hide ContentTok, Read, EventOf;
    ReadToken(enc, s, at);
    var r := ContentTok(enc, s[at..]);
    assert events + [] == events;
    if r.Token? && !r.tok.Invalid? && !r.tok.CdataSectOpen? {
      var e, rest := EventOf(r.tok, s[at..][..r.next]), Read(enc, s[at + r.next..]);
      assert events + ([e] + rest.events) == (events + [e]) + rest.events;
    }
  }

  /** The loop of doContent. */
  method ReadContent(enc: Encoding, s: seq<byte>) returns (r: Reading)
    ensures r == Read(enc, s)
  {
    hide ContentTok, Read, ReadSoFar, EventOf;
    var events, at := [], 0;
    NothingRead(enc, s);
    while true
      invariant at <= |s| && ReadSoFar(enc, s, events, at)
      decreases |s| - at
    {
      ReadOneMore(enc, s, events, at);
      var tok := Scanners.DoContentTok(enc, s[at..]);
      if !tok.Token? {
        return Reading(events, at, Held);
      }
      if tok.tok.Invalid? {
        return Reading(events, at + tok.next, Refused);
      }
      if tok.tok.CdataSectOpen? {
        return Reading(events, at + tok.next, CdataOpened);
      }
      events, at := events + [EventOf(tok.tok, s[at..][..tok.next])], at + tok.next;
    }
  }

  lemma NothingRead(enc: Encoding, s: seq<byte>)
    ensures ReadSoFar(enc, s, [], 0)
  {
    hide Read;
    assert s[0..] == s && [] + Read(enc, s).events == Read(enc, s).events;
  }

  // ---------------------------------------------------------------- any number of chunks

  /** The content loop as the processor of a parser: an error for an invalid token, and otherwise the
      region is consumed up to where the loop stops. */
  function ContentProcessor(enc: Encoding): PushParser.Processor {
    region =>
      var r := Read(enc, region);
      PushParser.Outcome(r.ending.Refused?, if r.ending.Refused? then 0 else r.at, None)
  }

  function Processors(enc: Encoding, n: nat): (r: seq<PushParser.Processor>)
    ensures |r| == n && forall i :: 0 <= i < n ==> r[i] == ContentProcessor(enc)
  {
    seq(n, _ => ContentProcessor(enc))
  }

  lemma ContentStaysInside(enc: Encoding, n: nat)
    ensures PushParser.StaysInside(ContentProcessor(enc)) && PushParser.AllInside(Processors(enc, n))
  {
  }

  /** What the calls report one after the other, and where the last one stops. */
  ghost function Together(enc: Encoding, calls: seq<PushParser.Handed>): Reading {
    if calls == [] then Reading([], 0, Held)
    else
      var n := |calls| - 1;
      var b := Read(enc, calls[n].region);
      Reading(Together(enc, calls[..n]).events + b.events, calls[n].at + b.at, b.ending)
  }

  /** Each call but the last one holds something or nothing back, and waits for the next chunk. */
  ghost predicate AllWait(enc: Encoding, calls: seq<PushParser.Handed>) {
    forall j :: 0 <= j < |calls| - 1 ==> Read(enc, calls[j].region).ending.Held?
  }

  /** The whole is refused in a data run that calls before the last one have reported the beginning of. */
  ghost predicate LosesData(whole: Reading, calls: seq<PushParser.Handed>) {
    whole.ending.Refused? && calls != [] && Covered(whole.events) < calls[|calls| - 1].at
  }

  ghost predicate ChunksFit(whole: Reading, pieces: Reading, calls: seq<PushParser.Handed>, next: nat) {
    && Agrees(whole, pieces)
    && (Flat(whole.events) == Flat(pieces.events) <==> !LosesData(whole, calls))
    && (pieces.ending.Held? ==> pieces.at == next)
  }

  lemma TogetherSnoc(enc: Encoding, calls: seq<PushParser.Handed>, call: PushParser.Handed)
    ensures var b := Read(enc, call.region);
      Together(enc, calls + [call]) == Reading(Together(enc, calls).events + b.events, call.at + b.at, b.ending)
  {
    assert (calls + [call])[..|calls|] == calls;
  }

  /** One more call. */
  lemma ChunkFits(
      enc: Encoding, p: seq<byte>, q: seq<byte>, calls: seq<PushParser.Handed>, next: nat, call: PushParser.Handed)
    requires p <= q && next <= |p|
    requires ChunksFit(Read(enc, p), Together(enc, calls), calls, next) && Together(enc, calls).ending.Held?
    requires call == PushParser.CallOn(q, next, ContentProcessor(enc))
    ensures ChunksFit(Read(enc, q), Together(enc, calls + [call]), calls + [call], next + call.outcome.consumed)
  {
    hide Read, Flat, Covered, Together;
    var a, before := Read(enc, p), Together(enc, calls);
    var b := Read(enc, call.region);
    SplitAgrees(enc, p, q);
    TogetherSnoc(enc, calls, call);
    FlatConcat(a.events, b.events);
    FlatConcat(before.events, b.events);
  }

  lemma NoChunks(enc: Encoding)
    ensures PushParser.AllInside([]) && PushParser.Expected([], []) == PushParser.Script([], 0)
    ensures ChunksFit(Read(enc, PushParser.Stream([])), Together(enc, []), [], 0)
  {
    SameAgrees(Reading([], 0, Held));
  }

  lemma EmptyChunk(c: PushParser.Chunk)
    requires !PushParser.MakesCall(c)
    ensures forall s: seq<byte> :: s + c.bytes == s
  {
  }

  lemma EarlierWait(enc: Encoding, calls: seq<PushParser.Handed>, call: PushParser.Handed)
    requires AllWait(enc, calls + [call])
    ensures AllWait(enc, calls) && Together(enc, calls).ending.Held?
  {
    hide Read;
    forall j | 0 <= j < |calls|
      ensures Read(enc, calls[j].region).ending.Held?
    {
      assert (calls + [call])[j] == calls[j];
    }
  }

  /** Content brought to the parser in any chunks: the calls of the processor report what one call on the
      whole stream would report, and stop where and as it would, but that a whole that is refused in a
      data run lacks the data of that run when a chunk ends in it. */
  lemma {:induction false} ChunksAgree(enc: Encoding, chunks: seq<PushParser.Chunk>)
    requires PushParser.GoesOn(chunks)
    requires PushParser.AllInside(Processors(enc, |chunks|))
    requires AllWait(enc, PushParser.Expected(chunks, Processors(enc, |chunks|)).calls)
    ensures var run := PushParser.Expected(chunks, Processors(enc, |chunks|));
      ChunksFit(Read(enc, PushParser.Stream(chunks)), Together(enc, run.calls), run.calls, run.next)
    decreases |chunks|
  {
    hide PushParser.Expected, PushParser.Stream, PushParser.MakesCall, PushParser.CallOn, ChunksFit, Together, Read;
    hide PushParser.StaysInside;
    if chunks == [] {
      assert Processors(enc, 0) == [];
      NoChunks(enc);
    } else {
      var n := |chunks| - 1;
      var ps := Processors(enc, |chunks|);
      ContentStaysInside(enc, n);
      assert ps[..n] == Processors(enc, n);
      assert chunks[..n + 1] == chunks && ps[..n + 1] == ps;
      PushParser.ExpectedSnoc(chunks, ps, n);
      var before := PushParser.Expected(chunks[..n], ps[..n]);
      if PushParser.MakesCall(chunks[n]) {
        var call := PushParser.CallOn(PushParser.Stream(chunks), before.next, ContentProcessor(enc));
        EarlierWait(enc, before.calls, call);
        ChunksAgree(enc, chunks[..n]);
        ChunkFits(enc, PushParser.Stream(chunks[..n]), PushParser.Stream(chunks), before.calls, before.next, call);
      } else {
        EmptyChunk(chunks[n]);
        ChunksAgree(enc, chunks[..n]);
      }
    }
  }
}
