/** Tokenized against CDATA attribute values (section 3.3.3 of XML 1.0), and the shortcut that
    copies a value marked as normalized. */
module AttributeValueModes {
  import opened Common
  import opened XmlTok
  import opened Transcode
  import opened AttributeValues
  import opened TagAttributes

  // ---------------------------------------------------------------- white-space normalization

  /** No leading space and every run of spaces made one, byte by byte. */
  function Collapse(s: Text): Text {
    if s == [] then []
    else if s[|s| - 1] == SPACE then AddSpace(false, Collapse(s[..|s| - 1]))
    else Collapse(s[..|s| - 1]) + [s[|s| - 1]]
  }

  /** The section 3.3.3 rule: drop leading and trailing spaces, collapse runs. */
  function Tokenized(s: Text): Text { Chopped(Collapse(s)) }

  /** The maximal pieces of `s` without spaces, the last of them (possibly empty) still open. */
  function Pieces(s: Text): (r: seq<Text>)
    ensures |r| > 0
  {
    if s == [] then [[]]
    else
      PiecesThen(Pieces(s[..|s| - 1]), s[|s| - 1])
  }

  function Words(s: Text): seq<Text> {
    var r := Pieces(s);
    if r[|r| - 1] == [] then r[..|r| - 1] else r
  }

  predicate SingleSpaced(s: Text) {
    (s != [] ==> s[0] != SPACE)
    && forall k :: 0 < k < |s| && s[k] == SPACE ==> s[k - 1] != SPACE
  }

  /** Reading one more byte. */
  function PiecesThen(r: seq<Text>, b: byte): seq<Text>
    requires |r| > 0
  {
    if b == SPACE then (if r[|r| - 1] == [] then r else r + [[]])
    else r[..|r| - 1] + [r[|r| - 1] + [b]]
  }

  lemma PiecesOfAppend(s: Text, b: byte)
    ensures Pieces(s + [b]) == PiecesThen(Pieces(s), b)
  {
    assert (s + [b])[..|s|] == s;
  }

  predicate EndsOpen(s: Text) { s == [] || s[|s| - 1] == SPACE }

  lemma {:induction false} CollapseKeepsPieces(s: Text)
    ensures SingleSpaced(Collapse(s)) && Pieces(Collapse(s)) == Pieces(s)
    ensures EndsOpen(Collapse(s)) <==> Pieces(s)[|Pieces(s)| - 1] == []
  {
    if s != [] {
      hide Pieces, Collapse;
      var s', b := s[..|s| - 1], s[|s| - 1];
      CollapseKeepsPieces(s');
      assert s == s' + [b];
      PiecesOfAppend(s', b);
      CollapseStep(s', b);
      if b != SPACE || !EndsOpen(Collapse(s')) {
        PiecesOfAppend(Collapse(s'), b);
        SingleSpacedThen(Collapse(s'), b);
      }
    } else {
      assert Pieces(s) == [[]];
    }
  }

  lemma CollapseStep(s: Text, b: byte)
    ensures Collapse(s + [b]) == if b == SPACE && EndsOpen(Collapse(s)) then Collapse(s) else Collapse(s) + [b]
  {
    assert (s + [b])[..|s|] == s;
  }

  lemma SingleSpacedThen(s: Text, b: byte)
    requires SingleSpaced(s) && (b == SPACE ==> !EndsOpen(s))
    ensures SingleSpaced(s + [b])
  {}

  /** The normal form has the words of the original, in order, one space between two of them and
      none at either end. */
  lemma {:induction false} TokenizedIsNormalForm(s: Text)
    ensures var t := Tokenized(s);
      && Words(t) == Words(s) && SingleSpaced(t) && (t != [] ==> t[|t| - 1] != SPACE)
  {
    hide Collapse, Pieces;
    CollapseKeepsPieces(s);
    var c, t := Collapse(s), Tokenized(s);
    if t != c {
      assert c == t + [SPACE];
      PiecesOfAppend(t, SPACE);
    }
  }

  // ---------------------------------------------------------------- the two modes

  /** The error code depends neither on the mode nor on what is in the pool. */
  lemma {:induction false} ModesGiveSameError(
      dtd: Dtd, open: set<Text>, enc: Encoding, text: Text, i: nat, pool: Text, pool': Text)
    requires i <= |text|
    ensures Append(dtd, open, true, enc, text, i, pool).err == Append(dtd, open, false, enc, text, i, pool').err
    decreases |dtd.entities.Keys - open|, |text| - i
  {
    hide NextAction, AddSpace;
    var (action, next) := NextAction(enc, text, i);
    match action
    case Stop(_) =>
    case Put(bytes) => ModesGiveSameError(dtd, open, enc, text, next, pool + bytes, pool' + bytes);
    case PutSpace =>
      ModesGiveSameError(dtd, open, enc, text, next, AddSpace(true, pool), AddSpace(false, pool'));
    case Reference(name) =>
      if Refusal(dtd, open, name).NoError? {
        if name !in dtd.entities {
          ModesGiveSameError(dtd, open, enc, text, next, pool, pool');
        } else {
          FewerClosed(dtd, open, name);
          var inner := dtd.entities[name].text.value;
          ModesGiveSameError(dtd, open + {name}, dtd.internal, inner, 0, pool, pool');
          var c := Append(dtd, open + {name}, true, dtd.internal, inner, 0, pool);
          var t := Append(dtd, open + {name}, false, dtd.internal, inner, 0, pool');
          if c.err.NoError? {
            ModesGiveSameError(dtd, open, enc, text, next, c.pool, t.pool);
          }
        }
      }
  }

  predicate DoubledAt(s: Text, k: nat) {
    k + 1 < |s| && s[k] == SPACE && s[k + 1] == SPACE
  }

  /** Two adjacent space bytes. */
  predicate HasDoubledSpace(s: Text) {
    exists k | 0 <= k < |s| :: DoubledAt(s, k)
  }

  /** No data run that is reached, in the value or in the entities that it expands to, holds two
      adjacent space bytes. A space byte of a data run is one inside a multi-byte character. */
  predicate RunsAreSingle(dtd: Dtd, open: set<Text>, enc: Encoding, text: Text, i: nat)
    requires i <= |text|
    decreases |dtd.entities.Keys - open|, |text| - i
  {
    var (action, next) := NextAction(enc, text, i);
    match action
    case Stop(_) => true
    case Put(bytes) => !HasDoubledSpace(bytes) && RunsAreSingle(dtd, open, enc, text, next)
    case PutSpace => RunsAreSingle(dtd, open, enc, text, next)
    case Reference(name) =>
      if !Refusal(dtd, open, name).NoError? then true
      else if name !in dtd.entities then RunsAreSingle(dtd, open, enc, text, next)
      else
        FewerClosed(dtd, open, name);
        RunsAreSingle(dtd, open + {name}, dtd.internal, dtd.entities[name].text.value, 0)
        && RunsAreSingle(dtd, open, enc, text, next)
  }

  /** What is copied into the pool unchanged does not start with a space. */
  lemma PutStartsUnspaced(enc: Encoding, text: Text, i: nat)
    requires i <= |text| && TypeOf(enc, SPACE).Space?
    ensures var a := NextAction(enc, text, i).0; a.Put? ==> a.bytes != [] && a.bytes[0] != SPACE
  {
    hide ScanRef, CharRefNumber, Predefined, Utf8Encode, ValueRun;
    forall c: bv32 | c < 0x110000 && c != 0x20
      ensures SPACE !in Utf8Encode(c)
    {
      EncodedIsNotSpace(c);
    }
  }

  lemma {:induction false} CollapseOfSingle(s: Text, bytes: Text)
    requires bytes != [] && bytes[0] != SPACE && !HasDoubledSpace(bytes)
    ensures Collapse(s + bytes) == Collapse(s) + bytes
    decreases |bytes|
  {
    hide Collapse, HasDoubledSpace;
    var n := |bytes| - 1;
    var front := bytes[..n];
    assert s + bytes == (s + front) + [bytes[n]] && bytes == front + [bytes[n]];
    CollapseStep(s + front, bytes[n]);
    if n == 0 {
      assert s + front == s;
    } else {
      FrontIsSingle(bytes);
      CollapseOfSingle(s, front);
      assert (Collapse(s) + front)[|Collapse(s) + front| - 1] == bytes[n - 1];
    }
  }

  lemma FrontIsSingle(bytes: Text)
    requires |bytes| > 1 && !HasDoubledSpace(bytes)
    ensures !HasDoubledSpace(bytes[..|bytes| - 1])
    ensures bytes[|bytes| - 2] != SPACE || bytes[|bytes| - 1] != SPACE
  {
    var n := |bytes| - 1;
    forall k | 0 <= k < n
      ensures !DoubledAt(bytes[..n], k)
    {
      assert !DoubledAt(bytes, k);
    }
    assert !DoubledAt(bytes, n - 1);
  }

  /** While runs are single the two modes run in step: the tokenized pool is at every moment the CDATA
      pool with its spaces collapsed, across entity boundaries. */
  lemma {:induction false} ModesInStep(
      dtd: Dtd, open: set<Text>, enc: Encoding, text: Text, i: nat, pool: Text)
    requires i <= |text| && TypeOf(enc, SPACE).Space? && TypeOf(dtd.internal, SPACE).Space?
    requires RunsAreSingle(dtd, open, enc, text, i)
    ensures var c := Append(dtd, open, true, enc, text, i, pool);
      Append(dtd, open, false, enc, text, i, Collapse(pool)) == Outcome(c.err, Collapse(c.pool))
    decreases |dtd.entities.Keys - open|, |text| - i
  {
    hide NextAction, Collapse, HasDoubledSpace;
    var (action, next) := NextAction(enc, text, i);
    match action
    case Stop(_) =>
    case Put(bytes) =>
      PutStartsUnspaced(enc, text, i);
      CollapseOfSingle(pool, bytes);
      ModesInStep(dtd, open, enc, text, next, pool + bytes);
    case PutSpace =>
      CollapseStep(pool, SPACE);
      ModesInStep(dtd, open, enc, text, next, pool + [SPACE]);
    case Reference(name) =>
      if Refusal(dtd, open, name).NoError? {
        if name !in dtd.entities {
          ModesInStep(dtd, open, enc, text, next, pool);
        } else {
          FewerClosed(dtd, open, name);
          var inner := dtd.entities[name].text.value;
          ModesInStep(dtd, open + {name}, dtd.internal, inner, 0, pool);
          var c := Append(dtd, open + {name}, true, dtd.internal, inner, 0, pool);
          if c.err.NoError? {
            ModesInStep(dtd, open, enc, text, next, c.pool);
          }
        }
      }
  }

  /** The pool only grows. */
  lemma {:induction false} PoolGrows(
      dtd: Dtd, open: set<Text>, cdata: bool, enc: Encoding, text: Text, i: nat, pool: Text)
    requires i <= |text|
    ensures pool <= Append(dtd, open, cdata, enc, text, i, pool).pool
    decreases |dtd.entities.Keys - open|, |text| - i
  {
    hide NextAction;
    var (action, next) := NextAction(enc, text, i);
    match action
    case Stop(_) =>
    case Put(bytes) => PoolGrows(dtd, open, cdata, enc, text, next, pool + bytes);
    case PutSpace => PoolGrows(dtd, open, cdata, enc, text, next, AddSpace(cdata, pool));
    case Reference(name) =>
      if Refusal(dtd, open, name).NoError? {
        if name !in dtd.entities {
          PoolGrows(dtd, open, cdata, enc, text, next, pool);
        } else {
          FewerClosed(dtd, open, name);
          var inner := dtd.entities[name].text.value;
          PoolGrows(dtd, open + {name}, cdata, dtd.internal, inner, 0, pool);
          PoolGrows(dtd, open, cdata, enc, text, next,
            Append(dtd, open + {name}, cdata, dtd.internal, inner, 0, pool).pool);
        }
      }
  }

  lemma DoubledStays(a: Text, b: Text, c: Text)
    requires HasDoubledSpace(b) && a + b <= c
    ensures HasDoubledSpace(c)
  {
    var k :| 0 <= k < |b| && DoubledAt(b, k);
    assert (a + b)[|a| + k] == b[k] && (a + b)[|a| + k + 1] == b[k + 1];
    assert DoubledAt(c, |a| + k);
  }

  /** A doubled space in a run that is reached stays in the pool of an accepted value. */
  lemma {:induction false} DoubledRunStays(
      dtd: Dtd, open: set<Text>, enc: Encoding, text: Text, i: nat, pool: Text)
    requires i <= |text| && !RunsAreSingle(dtd, open, enc, text, i)
    requires Append(dtd, open, false, enc, text, i, pool).err.NoError?
    ensures HasDoubledSpace(Append(dtd, open, false, enc, text, i, pool).pool)
    decreases |dtd.entities.Keys - open|, |text| - i
  {
    hide NextAction, HasDoubledSpace, AddSpace;
    var (action, next) := NextAction(enc, text, i);
    match action
    case Put(bytes) =>
      if HasDoubledSpace(bytes) {
        PoolGrows(dtd, open, false, enc, text, next, pool + bytes);
        DoubledStays(pool, bytes, Append(dtd, open, false, enc, text, i, pool).pool);
      } else {
        DoubledRunStays(dtd, open, enc, text, next, pool + bytes);
      }
    case PutSpace => DoubledRunStays(dtd, open, enc, text, next, AddSpace(false, pool));
    case Reference(name) =>
      if name !in dtd.entities {
        DoubledRunStays(dtd, open, enc, text, next, pool);
      } else {
        FewerClosed(dtd, open, name);
        var inner := dtd.entities[name].text.value;
        var r := Append(dtd, open + {name}, false, dtd.internal, inner, 0, pool);
        if RunsAreSingle(dtd, open + {name}, dtd.internal, inner, 0) {
          DoubledRunStays(dtd, open, enc, text, next, r.pool);
        } else {
          DoubledRunStays(dtd, open + {name}, dtd.internal, inner, 0, pool);
          PoolGrows(dtd, open, false, enc, text, next, r.pool);
          assert [] + r.pool == r.pool;
          DoubledStays([], r.pool, Append(dtd, open, false, enc, text, i, pool).pool);
        }
      }
  }

  /** For every value and entity table both modes end with the same error code. An accepted tokenized
      value is the CDATA value in normal form (each with its terminating NUL) exactly when no data run
      that is reached holds two adjacent space bytes. */
  lemma TokenizedIsNormalizedCdata(dtd: Dtd, open: set<Text>, enc: Encoding, text: Text)
    ensures Store(dtd, open, false, enc, text).err == Store(dtd, open, true, enc, text).err
    ensures TypeOf(enc, SPACE).Space? && TypeOf(dtd.internal, SPACE).Space? ==>
      var c, t := Store(dtd, open, true, enc, text), Store(dtd, open, false, enc, text);
      c.err.NoError? ==>
        && c.pool != []
        && (t.pool == Tokenized(c.pool[..|c.pool| - 1]) + [0] <==> RunsAreSingle(dtd, open, enc, text, 0))
  {
    hide Append, Tokenized, RunsAreSingle, Chopped;
    ModesGiveSameError(dtd, open, enc, text, 0, [], []);
    var c := Append(dtd, open, true, enc, text, 0, []);
    if TypeOf(enc, SPACE).Space? && TypeOf(dtd.internal, SPACE).Space? && c.err.NoError? {
      assert (c.pool + [0])[..|c.pool|] == c.pool;
      var t := Append(dtd, open, false, enc, text, 0, []);
      if RunsAreSingle(dtd, open, enc, text, 0) {
        ModesInStep(dtd, open, enc, text, 0, []);
        CollapsedIsTokenized(c.pool);
      } else {
        DoubledRunStays(dtd, open, enc, text, 0, []);
        TokenizedIsNormalForm(c.pool);
        DoubledIsNotNormal(t.pool, Tokenized(c.pool));
        SameBeforeNul(Chopped(t.pool), Tokenized(c.pool));
      }
    }
  }

  lemma CollapsedIsTokenized(s: Text)
    ensures Collapse([]) == [] && Chopped(Collapse(s)) == Tokenized(s)
  {}

  lemma SameBeforeNul(a: Text, b: Text)
    requires a != b
    ensures a + [0] != b + [0]
  {
    assert (a + [0])[..|a|] == a && (b + [0])[..|b|] == b;
  }

  lemma DoubledIsNotNormal(t: Text, n: Text)
    requires HasDoubledSpace(t) && SingleSpaced(n) && (n != [] ==> n[|n| - 1] != SPACE)
    ensures Chopped(t) != n
  {
    var k :| 0 <= k < |t| && DoubledAt(t, k);
    if k + 2 < |t| {
      assert Chopped(t)[k] == SPACE && Chopped(t)[k + 1] == SPACE;
    } else {
      assert Chopped(t)[|t| - 2] == SPACE;
    }
  }

  // ---------------------------------------------------------------- valid texts

  /** No space byte lies inside a multi-byte character, as in every text of valid UTF-8. */
  predicate SpacesStandAlone(enc: Encoding, text: Text) {
    TypeOf(enc, SPACE).Space?
    && forall j, k :: 0 <= j < k < |text| && k < j + LeadLength(TypeOf(enc, text[j])) ==> text[k] != SPACE
  }

  predicate CleanTexts(dtd: Dtd) {
    forall n :: n in dtd.entities && dtd.entities[n].text.Some?
      ==> SpacesStandAlone(dtd.internal, dtd.entities[n].text.value)
  }

  predicate NoSpace(text: Text, i: nat, j: nat)
    requires j <= |text|
  {
    forall k :: i <= k < j ==> text[k] != SPACE
  }

  /** The end of the character at `i`, or of the text. */
  function CharEnd(enc: Encoding, text: Text, i: nat): nat
    requires i < |text|
  {
    var n := CharLength(enc, text[i]);
    if i + n > |text| then |text| else i + n
  }

  lemma {:induction false} RunHasNoSpace(enc: Encoding, text: Text, start: nat, i: nat)
    requires SpacesStandAlone(enc, text) && start < i <= |text| && NoSpace(text, start, i)
    ensures var r := ValueRun(enc, text, start, i); r.tok.DataChars? ==> NoSpace(text, start, r.next)
    decreases |text| - i
  {
    if i < |text| && !ValueRun(enc, text, start, i).tok.Invalid? {
      var t := TypeOf(enc, text[i]);
      if LeadLength(t) > 0 || !(t.Lt? || t.Amp? || t.Lf? || t.Cr? || t.Space?) {
        RunHasNoSpace(enc, text, start, CharEnd(enc, text, i));
      }
    }
  }

  lemma EncodedIsNotSpace(c: bv32)
    requires c < 0x110000 && c != 0x20
    ensures SPACE !in Utf8Encode(c)
  {}

  /** Whatever is copied into the pool unchanged holds no space. */
  lemma PutHasNoSpace(enc: Encoding, text: Text, i: nat)
    requires i <= |text| && SpacesStandAlone(enc, text)
    ensures var a := NextAction(enc, text, i).0; a.Put? ==> NoSpace(a.bytes, 0, |a.bytes|)
  {
    hide ScanRef, CharRefNumber, Predefined, Utf8Encode, ValueRun;
    var a := NextAction(enc, text, i).0;
    if i < |text| {
      if LeadLength(TypeOf(enc, text[i])) > 0 || !TypeOf(enc, text[i]).Space? {
        RunHasNoSpace(enc, text, i, CharEnd(enc, text, i));
      }
      forall c: bv32 | c < 0x110000 && c != 0x20
        ensures SPACE !in Utf8Encode(c)
      {
        EncodedIsNotSpace(c);
      }
    }
  }

  /** In valid UTF-8 no space byte lies inside a multi-byte character, so all runs are single. */
  lemma {:induction false} ValidRunsAreSingle(dtd: Dtd, open: set<Text>, enc: Encoding, text: Text, i: nat)
    requires i <= |text| && SpacesStandAlone(enc, text) && CleanTexts(dtd)
    ensures RunsAreSingle(dtd, open, enc, text, i)
    decreases |dtd.entities.Keys - open|, |text| - i
  {
    hide NextAction, SpacesStandAlone;
    var (action, next) := NextAction(enc, text, i);
    match action
    case Stop(_) =>
    case Put(bytes) =>
      PutHasNoSpace(enc, text, i);
      ValidRunsAreSingle(dtd, open, enc, text, next);
    case PutSpace => ValidRunsAreSingle(dtd, open, enc, text, next);
    case Reference(name) =>
      if Refusal(dtd, open, name).NoError? {
        if name in dtd.entities {
          FewerClosed(dtd, open, name);
          ValidRunsAreSingle(dtd, open + {name}, dtd.internal, dtd.entities[name].text.value, 0);
        }
        ValidRunsAreSingle(dtd, open, enc, text, next);
      }
  }

  const BROKEN: Text := [0xE3, SPACE, SPACE]

  lemma BrokenAction(enc: Encoding)
    requires TypeOf(enc, 0xE3).Lead3?
    ensures NextAction(enc, BROKEN, 0) == (Put(BROKEN), 3)
  {
    assert AttributeValueTok(enc, BROKEN, 0) == Token(DataChars, 3);
    assert BROKEN[0..3] == BROKEN;
  }

  lemma BrokenIsCopied(enc: Encoding, dtd: Dtd, cdata: bool)
    requires TypeOf(enc, 0xE3).Lead3?
    ensures Append(dtd, {}, cdata, enc, BROKEN, 0, []) == Outcome(NoError, BROKEN)
  {
    assert AttributeValueTok(enc, BROKEN, 0) == Token(DataChars, 3);
    assert BROKEN[0..3] == BROKEN && [] + BROKEN == BROKEN;
    BrokenAction(enc);
    assert NextAction(enc, BROKEN, 3) == (Stop(NoError), 3);
  }

  lemma BrokenNormalForm()
    ensures Tokenized(BROKEN) == [0xE3]
  {
    var one: Text := [0xE3];
    assert Collapse([]) == [] && [] + one == one;
    CollapseStep([], 0xE3);
    CollapseStep(one, SPACE);
    assert BROKEN == (one + [SPACE]) + [SPACE];
    CollapseStep(one + [SPACE], SPACE);
  }

  /** Where the condition fails: when spaces follow a lead byte the bytes of the cut-short character are
      copied with them, and the tokenized value is not in normal form. */
  lemma MalformedTextIsNotNormalized(enc: Encoding, dtd: Dtd)
    requires TypeOf(enc, 0xE3).Lead3?
    ensures !RunsAreSingle(dtd, {}, enc, BROKEN, 0)
    ensures var c, t := Store(dtd, {}, true, enc, BROKEN), Store(dtd, {}, false, enc, BROKEN);
      c.err.NoError? && t.err.NoError? && t.pool != Tokenized(c.pool[..|c.pool| - 1]) + [0]
  {
    hide Append;
    BrokenIsCopied(enc, dtd, true);
    BrokenIsCopied(enc, dtd, false);
    BrokenNormalForm();
    assert (BROKEN + [0])[..3] == BROKEN;
    BrokenAction(enc);
    assert DoubledAt(BROKEN, 1);
  }

  // ---------------------------------------------------------------- values marked as normalized

  /** A value without references or line ends in which every blank is one space between two
      characters that are not spaces, read character by character from `i`. */
  predicate PlainText(enc: Encoding, text: Text, i: nat)
    decreases |text| - i
  {
    i == |text|
    || (i < |text| && PlainChar(enc, text, i) && PlainText(enc, text, i + CharLength(enc, text[i])))
  }

  predicate PlainChar(enc: Encoding, text: Text, i: nat)
    requires i < |text|
  {
    var t := TypeOf(enc, text[i]);
    !t.Amp? && !t.Lt? && !t.Cr? && !t.Lf?
    && (t.Space? ==> text[i] == SPACE && 0 < i && i + 1 < |text| && text[i + 1] != SPACE)
  }

  lemma {:induction false} RunStaysPlain(enc: Encoding, text: Text, start: nat, i: nat)
    requires start < i <= |text| && PlainText(enc, text, i)
    ensures var r := ValueRun(enc, text, start, i); r.tok.DataChars? && PlainText(enc, text, r.next)
    decreases |text| - i
  {
    if i < |text| && !TypeOf(enc, text[i]).Space? {
      RunStaysPlain(enc, text, start, i + CharLength(enc, text[i]));
    }
  }

  /** From `i` on, no white-space token follows a space byte. */
  predicate TokensApart(enc: Encoding, text: Text, i: nat)
    decreases |text| - i
  {
    i >= |text|
    || ((TypeOf(enc, text[i]).Space? && i > 0 ==> text[i - 1] != SPACE)
        && TokensApart(enc, text, i + CharLength(enc, text[i])))
  }

  /** A value that tokenized normalization leaves alone: no white-space token follows a space byte,
      and the last byte is no space. */
  predicate SpacesApart(enc: Encoding, text: Text) {
    TokensApart(enc, text, 0) && (text != [] ==> text[|text| - 1] != SPACE)
  }

  lemma {:induction false} RunStaysApart(enc: Encoding, text: Text, start: nat, i: nat)
    requires start < i <= |text| && PlainText(enc, text, i)
    ensures var r := ValueRun(enc, text, start, i); TokensApart(enc, text, r.next) <==> TokensApart(enc, text, i)
    decreases |text| - i
  {
    if i < |text| && !TypeOf(enc, text[i]).Space? {
      RunStaysApart(enc, text, start, i + CharLength(enc, text[i]));
    }
  }

  lemma PlainToken(enc: Encoding, text: Text, i: nat)
    requires i < |text| && PlainChar(enc, text, i) && i + CharLength(enc, text[i]) <= |text|
    requires var r := ValueRun(enc, text, i, i + CharLength(enc, text[i])); r.tok.DataChars?
    ensures NextAction(enc, text, i) ==
      if TypeOf(enc, text[i]).Space? then (PutSpace, i + 1)
      else var next := ValueRun(enc, text, i, i + CharLength(enc, text[i])).next; (Put(text[i..next]), next)
  {
    hide ScanRef, CharRefNumber, ValueRun, Predefined;
  }

  /** The token at a place of a plain text: one space, or a run up to the next space or the end. */
  lemma PlainAction(enc: Encoding, text: Text, i: nat)
    requires i < |text| && PlainText(enc, text, i)
    ensures var (action, next) := NextAction(enc, text, i);
      && i < next <= |text| && PlainText(enc, text, next)
      && (if TypeOf(enc, text[i]).Space? then action == PutSpace && next == i + 1 && text[i] == SPACE
          else action == Put(text[i..next]) && (TokensApart(enc, text, i) <==> TokensApart(enc, text, next)))
  {
    hide NextAction, ValueRun, TokensApart;
    var end := i + CharLength(enc, text[i]);
    PlainTextAfterChar(enc, text, i);
    RunStaysPlain(enc, text, i, end);
    PlainToken(enc, text, i);
    if !TypeOf(enc, text[i]).Space? {
      RunStaysApart(enc, text, i, end);
      TokensApartAfterChar(enc, text, i);
    }
  }

  lemma PlainTextAfterChar(enc: Encoding, text: Text, i: nat)
    requires i < |text| && PlainText(enc, text, i)
    ensures i + CharLength(enc, text[i]) <= |text| && PlainText(enc, text, i + CharLength(enc, text[i]))
  {}

  lemma TokensApartAfterChar(enc: Encoding, text: Text, i: nat)
    requires i < |text| && !TypeOf(enc, text[i]).Space?
    ensures TokensApart(enc, text, i) <==> TokensApart(enc, text, i + CharLength(enc, text[i]))
  {}

  /** In CDATA mode the slow path on a plain text appends the text itself. */
  lemma {:induction false} PlainIsCopied(dtd: Dtd, open: set<Text>, enc: Encoding, text: Text, i: nat)
    requires i <= |text| && PlainText(enc, text, i)
    ensures Append(dtd, open, true, enc, text, i, text[..i]) == Outcome(NoError, text)
    decreases |text| - i
  {
    hide NextAction, PlainText;
    if i == |text| {
      EndOfText(enc, text);
      assert text[..i] == text;
    } else {
      PlainAction(enc, text, i);
      var (action, next) := NextAction(enc, text, i);
      assert text[..i] + text[i..next] == text[..next];
      if action.PutSpace? {
        assert text[..i] + [SPACE] == text[..next];
      }
      PlainIsCopied(dtd, open, enc, text, next);
    }
  }

  lemma EndOfText(enc: Encoding, text: Text)
    ensures NextAction(enc, text, |text|) == (Stop(NoError), |text|)
  {}

  /** Once a space has been dropped the tokenized result stays short. */
  lemma {:induction false} PlainStaysShort(dtd: Dtd, open: set<Text>, enc: Encoding, text: Text, i: nat, pool: Text)
    requires i <= |text| && PlainText(enc, text, i)
    ensures var r := Append(dtd, open, false, enc, text, i, pool);
      r.err.NoError? && |r.pool| <= |pool| + |text| - i
    decreases |text| - i
  {
    hide NextAction, PlainText;
    if i == |text| {
      EndOfText(enc, text);
    } else {
      PlainAction(enc, text, i);
      var (action, next) := NextAction(enc, text, i);
      PlainStaysShort(dtd, open, enc, text, next, if action.Put? then pool + action.bytes else AddSpace(false, pool));
    }
  }

  /** In tokenized mode it does so exactly when no white-space token follows a space byte. */
  lemma {:induction false} PlainIsKeptIfApart(dtd: Dtd, open: set<Text>, enc: Encoding, text: Text, i: nat)
    requires i <= |text| && PlainText(enc, text, i)
    requires i == 0 && text != [] ==> !TypeOf(enc, text[0]).Space?
    ensures var r := Append(dtd, open, false, enc, text, i, text[..i]);
      r.err.NoError? && if TokensApart(enc, text, i) then r.pool == text else |r.pool| < |text|
    decreases |text| - i
  {
    hide NextAction, PlainText;
    if i == |text| {
      EndOfText(enc, text);
      assert text[..i] == text;
    } else {
      PlainAction(enc, text, i);
      var (action, next) := NextAction(enc, text, i);
      if action.PutSpace? {
        if text[i - 1] == SPACE {
          assert AddSpace(false, text[..i]) == text[..i];
          PlainStaysShort(dtd, open, enc, text, next, text[..i]);
        } else {
          assert AddSpace(false, text[..i]) == text[..next];
          assert CharLength(enc, text[i]) == 1;
          PlainIsKeptIfApart(dtd, open, enc, text, next);
        }
      } else {
        assert text[..i] + text[i..next] == text[..next];
        PlainIsKeptIfApart(dtd, open, enc, text, next);
      }
    }
  }

  lemma PlainStored(dtd: Dtd, open: set<Text>, enc: Encoding, text: Text)
    requires PlainText(enc, text, 0)
    ensures Store(dtd, open, true, enc, text) == Outcome(NoError, text + [0])
    ensures Store(dtd, open, false, enc, text) == Outcome(NoError, text + [0]) <==> SpacesApart(enc, text)
  {
    hide Append, TokensApart;
    assert text[..0] == [];
    PlainIsCopied(dtd, open, enc, text, 0);
    PlainIsKeptIfApart(dtd, open, enc, text, 0);
    var r := Append(dtd, open, false, enc, text, 0, []);
    if Chopped(r.pool) != text {
      SameBeforeNul(Chopped(r.pool), text);
    }
  }

  /** The value of an attribute, seen as a text of its own, is plain when getAtts says so. */
  lemma {:induction false} ValueIsPlain(enc: Encoding, s: seq<byte>, start: nat, i: nat, valueEnd: nat, quote: ByteType)
    requires start <= i <= valueEnd <= |s|
    requires ValueChars(enc, s, i, valueEnd, quote) && PlainFrom(enc, s, start, i, valueEnd)
    ensures PlainText(enc, s[start..valueEnd], i - start)
    decreases valueEnd - i
  {
    hide ScanRef;
    if i < valueEnd {
      var n := CharLength(enc, s[i]);
      assert ValueStep(enc, s, i, quote) == Advance(n);
      ValueIsPlain(enc, s, start, i + n, valueEnd, quote);
      assert PlainChar(enc, s[start..valueEnd], i - start);
    }
  }

  lemma {:induction false} EveryAttIsAtt(enc: Encoding, s: seq<byte>, i: nat, atts: seq<AttSpan>, end: nat, k: nat)
    requires TagTail(enc, s, i, atts, end) && k < |atts|
    ensures IsAtt(enc, s, atts[k])
    decreases k
  {
    if k > 0 {
      EveryAttIsAtt(enc, s, atts[0].valueEnd + 1, atts[1..], end, k - 1);
    }
  }

  lemma {:induction false} ValidValueIsApart(enc: Encoding, text: Text, i: nat)
    requires i <= |text| && PlainText(enc, text, i) && SpacesStandAlone(enc, text)
    requires 0 < i < |text| && text[i - 1] == SPACE ==> !TypeOf(enc, text[i]).Space?
    requires i == |text| > 0 ==> text[i - 1] != SPACE
    ensures TokensApart(enc, text, i) && (text != [] ==> text[|text| - 1] != SPACE)
    decreases |text| - i
  {
    if i < |text| {
      ValidValueIsApart(enc, text, i + CharLength(enc, text[i]));
    }
  }

  /** In a value of valid UTF-8 that getAtts marks as normalized the spaces stand apart. */
  lemma ValidIsApart(enc: Encoding, text: Text)
    requires PlainText(enc, text, 0) && SpacesStandAlone(enc, text)
    ensures SpacesApart(enc, text)
  {
    hide PlainText, SpacesStandAlone, TokensApart;
    ValidValueIsApart(enc, text, 0);
  }

  /** Whenever getAtts marks the value of an accepted tag as normalized, the raw copy that storeAtts
      makes is what storeAttributeValue would have stored as CDATA; it is what would have been stored
      in tokenized mode exactly when the spaces of the value stand apart, and so for every value of valid UTF-8. */
  lemma {:induction false} NormalizedCopyIsExact(
      enc: Encoding, s: seq<byte>, slots: seq<Attribute>, k: nat, dtd: Dtd, open: set<Text>)
    requires AsciiTable(enc) && |s| > 0
    requires var r := ScanLt(enc, s, 1);
      && r.Token? && IsStartTagTok(r.tok) && r.next <= |s|
      && var found := GetAtts(enc, s, r.next, slots);
         found.Some? && k < |found.value| && found.value[k].normalized
    ensures var a := GetAtts(enc, s, ScanLt(enc, s, 1).next, slots).value[k];
      && a.valuePtr <= a.valueEnd <= |s|
      && var raw := s[a.valuePtr..a.valueEnd];
         && Store(dtd, open, true, enc, raw) == Outcome(NoError, raw + [0])
         && (Store(dtd, open, false, enc, raw) == Outcome(NoError, raw + [0]) <==> SpacesApart(enc, raw))
         && (SpacesStandAlone(enc, raw) ==>
               forall cdata: bool :: Store(dtd, open, cdata, enc, raw) == Outcome(NoError, raw + [0]))
  {
    hide ScanLt, TagTail, GetAttsFrom, Append, ValueChars, NameChars, PlainFrom, PlainText, NmstrtStep, SpacesApart;
    var nameEnd, atts := GetAttsFindsScannedAttributes(enc, s, slots);
    EveryAttIsAtt(enc, s, nameEnd, atts, ScanLt(enc, s, 1).next, k);
    var a := atts[k];
    var raw := s[a.quote + 1..a.valueEnd];
    ValueIsPlain(enc, s, a.quote + 1, a.quote + 1, a.valueEnd, TypeOf(enc, s[a.quote]));
    PlainStored(dtd, open, enc, raw);
    if SpacesStandAlone(enc, raw) {
      ValidIsApart(enc, raw);
    }
  }

  /** The tag `<a b="...">` whose value is BROKEN. */
  const BROKEN_TAG: seq<byte> := [0x3C, 0x61, SPACE, 0x62, 0x3D, 0x22, 0xE3, SPACE, SPACE, 0x22, 0x3E]

  /** The types of its bytes, and a table that accepts the broken character, as the one of UTF-8 does. */
  predicate ReadsBrokenTag(enc: Encoding) {
    && TypeOf(enc, 0x61).Hex? && TypeOf(enc, 0x62).Hex? && TypeOf(enc, SPACE).Space? && TypeOf(enc, 0x3D).Equals?
    && TypeOf(enc, 0x22).Quot? && TypeOf(enc, 0xE3).Lead3? && TypeOf(enc, 0x3E).Gt?
    && (0xE3, SPACE, SPACE) !in enc.invalid.three
  }

  lemma BrokenTagIsAccepted(enc: Encoding)
    requires ReadsBrokenTag(enc)
    ensures ScanLt(enc, BROKEN_TAG, 1) == Token(StartTagWithAtts, 11)
  {
    var s := BROKEN_TAG;
    assert AttAfterValue(enc, s, 10) == Token(StartTagWithAtts, 11);
    assert ValueStep(enc, s, 9, Quot).NoCase?;
    assert AttValue(enc, s, 9, Quot) == AttAfterValue(enc, s, 10);
    assert ValueStep(enc, s, 6, Quot) == Advance(3);
    assert AttValue(enc, s, 6, Quot) == AttValue(enc, s, 9, Quot);
    assert AttAfterEquals(enc, s, 5) == AttValue(enc, s, 6, Quot);
    assert AttName(enc, s, 4, false) == AttAfterEquals(enc, s, 5);
    assert TagGap(enc, s, 3) == AttName(enc, s, 4, false);
    assert TagName(enc, s, 2, false) == TagGap(enc, s, 3);
  }

  lemma BrokenTagPasses(enc: Encoding, l0: Loop)
    requires ReadsBrokenTag(enc) && l0.state.InName? && l0.open.Quot?
    ensures var l1 := l0.(state := Outside);
      var l2 := l1.(state := InName, cur := l1.cur.(name := 3, normalized := true));
      var l3 := l2.(state := InValue, cur := l2.cur.(valuePtr := 6));
      && GetAttsPass(enc, BROKEN_TAG, 11, 1, l0) == Continue(1, l0)
      && GetAttsPass(enc, BROKEN_TAG, 11, 2, l0) == Continue(1, l1)
      && GetAttsPass(enc, BROKEN_TAG, 11, 3, l1) == Continue(1, l2)
      && GetAttsPass(enc, BROKEN_TAG, 11, 4, l2) == Continue(1, l2)
      && GetAttsPass(enc, BROKEN_TAG, 11, 5, l2) == Continue(1, l3)
      && GetAttsPass(enc, BROKEN_TAG, 11, 6, l3) == Continue(3, l3)
      && GetAttsPass(enc, BROKEN_TAG, 11, 9, l3) == Continue(1, Complete(l3, 9))
      && GetAttsPass(enc, BROKEN_TAG, 11, 10, Complete(l3, 9)) == Finish(Complete(l3, 9).done)
  {}

  lemma BrokenTagIsMarked(enc: Encoding, slots: seq<Attribute>)
    requires ReadsBrokenTag(enc)
    ensures GetAtts(enc, BROKEN_TAG, 11, slots) == Some([Attribute(3, 6, 9, true)])
  {
    var s := BROKEN_TAG;
    var l0 := Loop(InName, Quot, Slot(slots, 0), [], slots);
    var l1 := l0.(state := Outside);
    var l2 := l1.(state := InName, cur := l1.cur.(name := 3, normalized := true));
    var l3 := l2.(state := InValue, cur := l2.cur.(valuePtr := 6));
    var l4 := Complete(l3, 9);
    BrokenTagPasses(enc, l0);
    hide GetAttsPass;
    assert GetAttsFrom(enc, s, 11, 9, l3) == GetAttsFrom(enc, s, 11, 10, l4) == Some(l4.done);
    assert GetAttsFrom(enc, s, 11, 6, l3) == GetAttsFrom(enc, s, 11, 9, l3);
    assert GetAttsFrom(enc, s, 11, 5, l2) == GetAttsFrom(enc, s, 11, 6, l3);
    assert GetAttsFrom(enc, s, 11, 4, l2) == GetAttsFrom(enc, s, 11, 5, l2);
    assert GetAttsFrom(enc, s, 11, 3, l1) == GetAttsFrom(enc, s, 11, 4, l2);
    assert GetAttsFrom(enc, s, 11, 2, l0) == GetAttsFrom(enc, s, 11, 3, l1);
    assert [] + [l3.cur.(valueEnd := 9)] == [Attribute(3, 6, 9, true)];
  }

  /** A tag whose value is marked as normalized although its raw copy is not what tokenized
      normalization would have stored. */
  lemma MarkedValueIsNotTokenized(enc: Encoding, slots: seq<Attribute>, dtd: Dtd)
    requires ReadsBrokenTag(enc)
    ensures ScanLt(enc, BROKEN_TAG, 1) == Token(StartTagWithAtts, 11)
    ensures GetAtts(enc, BROKEN_TAG, 11, slots) == Some([Attribute(3, 6, 9, true)])
    ensures BROKEN_TAG[6..9] == BROKEN && !SpacesApart(enc, BROKEN)
    ensures Store(dtd, {}, false, enc, BROKEN) == Outcome(NoError, [0xE3, SPACE, 0])
  {
    BrokenTagIsAccepted(enc);
    BrokenTagIsMarked(enc, slots);
    BrokenIsCopied(enc, dtd, false);
    assert Chopped(BROKEN) + [0] == [0xE3, SPACE, 0];
  }
}
