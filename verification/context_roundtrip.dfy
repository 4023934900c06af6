/** setContext undoes getContext: the context printed by one parser gives a new parser with the same
    tables the same bindings and the same open entities. */
module ContextRoundTrip {
  import opened Common
  import opened Contexts

  ghost predicate IsPiece(piece: Text) {
    piece != [] && CONTEXT_SEP !in piece && 0 !in piece
  }

  ghost predicate ArePieces(pieces: seq<Text>) {
    forall i :: 0 <= i < |pieces| ==> IsPiece(pieces[i])
  }

  ghost function Fold(separator: byte, s: State, pieces: seq<Text>): State {
    if pieces == [] then s else SetOne(separator, Fold(separator, s, pieces[..|pieces| - 1]), pieces[|pieces| - 1])
  }

  lemma {:induction false} FoldConcat(separator: byte, s: State, a: seq<Text>, b: seq<Text>)
    ensures Fold(separator, s, a + b) == Fold(separator, Fold(separator, s, a), b)
  {
    if b == [] {
      assert a + b == a;
    } else {
      FoldConcat(separator, s, a, b[..|b| - 1]);
      assert (a + b)[..|a + b| - 1] == a + b[..|b| - 1];
    }
  }

  lemma FoldOne(separator: byte, s: State, piece: Text)
    ensures Fold(separator, s, [piece]) == SetOne(separator, s, piece)
  {
    assert Fold(separator, s, [piece][..0]) == s;
  }

  /** One more piece at the end of a context. */
  lemma {:induction false} SetAllSnoc(separator: byte, s: State, a: Text, piece: Text)
    requires a != [] && a[|a| - 1] != CONTEXT_SEP && IsPiece(piece)
    ensures SetAll(separator, s, a + [CONTEXT_SEP] + piece) == SetOne(separator, SetAll(separator, s, a), piece)
    decreases |a|
  {
    hide SetAll, SetOne;
    var first := UpTo(a, CONTEXT_SEP);
    var mark := [CONTEXT_SEP] + piece;
    assert a + [CONTEXT_SEP] + piece == first + (a[|first|..] + mark);
    SetFirst(separator, s, first, a[|first|..] + mark);
    assert a == first + a[|first|..];
    SetFirst(separator, s, first, a[|first|..]);
    if |first| == |a| {
      assert a[|a|..] == [] && (a[|a|..] + mark)[1..] == piece;
      LastPiece(separator, SetOne(separator, s, first), piece);
      SetNothing(separator, SetOne(separator, s, first));
    } else {
      var rest := a[|first|..][1..];
      assert (a[|first|..] + mark)[1..] == rest + [CONTEXT_SEP] + piece;
      SetAllSnoc(separator, SetOne(separator, s, first), rest, piece);
    }
  }

  lemma LastPiece(separator: byte, s: State, piece: Text)
    requires IsPiece(piece)
    ensures SetAll(separator, s, piece) == SetOne(separator, s, piece)
  {
    hide SetOne, SetAll;
    SetFirst(separator, s, piece, []);
    SetNothing(separator, SetOne(separator, s, piece));
    assert piece + [] == piece;
  }

  lemma {:induction false} JoinEnds(pieces: seq<Text>)
    requires ArePieces(pieces) && pieces != []
    ensures Join(pieces) != [] && Join(pieces)[|Join(pieces)| - 1] != CONTEXT_SEP && 0 !in Join(pieces)
  {
    var last := pieces[|pieces| - 1];
    assert IsPiece(last) && last[|last| - 1] in last;
    if |pieces| > 1 {
      JoinEnds(pieces[..|pieces| - 1]);
    }
  }

  /** Reading a context reads its pieces in order. */
  lemma {:induction false} SetAllJoin(separator: byte, s: State, pieces: seq<Text>)
    requires ArePieces(pieces)
    ensures SetAll(separator, s, Join(pieces)) == Fold(separator, s, pieces)
  {
    if pieces != [] {
      var n := |pieces| - 1;
      assert IsPiece(pieces[n]);
      if n == 0 {
        assert pieces == [pieces[0]];
        JoinOne(pieces[0]);
        LastPiece(separator, s, pieces[0]);
        FoldOne(separator, s, pieces[0]);
      } else {
        JoinEnds(pieces[..n]);
        SetAllJoin(separator, s, pieces[..n]);
        SetAllSnoc(separator, s, Join(pieces[..n]), pieces[n]);
      }
    }
  }

  /** The piece of a binding is read as that binding. */
  lemma BindingIsRead(separator: byte, s: State, name: Text, stored: Text)
    requires IsBinding(separator, stored) && IsPlain(name) && 0 !in name
    requires name == [] ==> Uri(separator, stored) != []
    ensures IsPiece(BindingText(separator, name, stored))
    ensures SetOne(separator, s, BindingText(separator, name, stored))
         == if name == [] then s.(default := Some(stored)) else s.(prefixes := s.prefixes[name := Some(stored)])
  {
    var uri := Uri(separator, stored);
    SetOneBinding(separator, s, name, uri);
    assert Stored(separator, uri) == stored;
  }

  lemma EntityIsRead(separator: byte, s: State, name: Text)
    requires IsName(name)
    ensures IsPiece(name) && SetOne(separator, s, name) == Open(s, name)
  {
    SetOneEntity(separator, s, name);
  }

  ghost predicate BoundIn(s: State, order: seq<Text>, p: Text) {
    p in order && p in s.prefixes && s.prefixes[p].Some?
  }

  /** The bindings of the prefixes named so far, over those that were there. */
  ghost function BoundSoFar(s: State, t: State, order: seq<Text>): map<Text, Option<Text>> {
    map p | p in t.prefixes.Keys + s.prefixes.Keys && (p in t.prefixes || BoundIn(s, order, p)) ::
      if BoundIn(s, order, p) then s.prefixes[p] else t.prefixes[p]
  }

  ghost function OpenSoFar(s: State, t: State, order: seq<Text>): map<Text, bool> {
    map e | e in t.entities :: t.entities[e] || (e in order && e in s.entities && s.entities[e])
  }

  lemma BoundSnoc(s: State, t: State, order: seq<Text>, name: Text)
    requires name in s.prefixes
    ensures s.prefixes[name].Some? ==>
      BoundSoFar(s, t, order + [name]) == BoundSoFar(s, t, order)[name := s.prefixes[name]]
    ensures s.prefixes[name].None? ==> BoundSoFar(s, t, order + [name]) == BoundSoFar(s, t, order)
  {
    assert forall p :: p in order + [name] <==> p in order || p == name;
    assert forall p :: BoundIn(s, order + [name], p) <==> BoundIn(s, order, p) || (p == name && s.prefixes[p].Some?);
  }

  lemma OpenSnoc(s: State, t: State, order: seq<Text>, name: Text)
    requires name in s.entities
    ensures OpenSoFar(s, t, order + [name]) ==
      if s.entities[name] && name in t.entities then OpenSoFar(s, t, order)[name := true] else OpenSoFar(s, t, order)
    ensures name in OpenSoFar(s, t, order) <==> name in t.entities
  {
    assert forall e :: e in order + [name] <==> e in order || e == name;
  }

  lemma {:induction false} PrefixesAreRead(separator: byte, s: State, t: State, order: seq<Text>)
    requires WellNamed(separator, s) && AreKeys(order, s.prefixes.Keys)
    ensures ArePieces(PrefixPieces(separator, s, order))
    ensures Fold(separator, t, PrefixPieces(separator, s, order)) == WithPrefixes(s, t, order)
  {
    hide SetOne, IsPiece, BindingText, BoundSoFar, WithPrefixes, IsBinding, Fits;
    if order == [] {
      NothingBound(s, t);
    } else {
      var n := |order| - 1;
      PrefixesAreRead(separator, s, t, order[..n]);
      WellNamedFits(separator, s);
      assert IsName(order[n]);
      PrefixIsRead(separator, s, t, order[..n], order[n]);
      assert order[..n] + [order[n]] == order;
    }
  }

  lemma NothingBound(s: State, t: State)
    ensures WithPrefixes(s, t, []) == t
  {
    assert forall p :: !BoundIn(s, [], p);
  }

  ghost function WithPrefixes(s: State, t: State, order: seq<Text>): State {
    t.(prefixes := BoundSoFar(s, t, order))
  }

  lemma PrefixIsRead(separator: byte, s: State, t: State, order: seq<Text>, name: Text)
    requires Fits(separator, s) && AreKeys(order, s.prefixes.Keys) && name in s.prefixes && IsName(name)
    requires s.prefixes[name].Some? ==> IsBinding(separator, s.prefixes[name].value)
    requires ArePieces(PrefixPieces(separator, s, order))
    requires Fold(separator, t, PrefixPieces(separator, s, order)) == WithPrefixes(s, t, order)
    ensures AreKeys(order + [name], s.prefixes.Keys)
    ensures ArePieces(PrefixPieces(separator, s, order + [name]))
    ensures Fold(separator, t, PrefixPieces(separator, s, order + [name])) == WithPrefixes(s, t, order + [name])
  {
    hide WithPrefixes, Fold, SetOne, PrefixPieces, ArePieces, IsPiece, IsName, IsBinding, BindingText, BoundSoFar;
    PrefixPiecesSnoc(separator, s, order, name);
    var before := PrefixPieces(separator, s, order);
    if s.prefixes[name].Some? {
      PrefixBindingIsRead(separator, s, t, order, name);
      FoldSnoc(separator, t, before, BindingText(separator, name, s.prefixes[name].value));
      PiecesSnoc(before, BindingText(separator, name, s.prefixes[name].value));
    } else {
      UnboundIsSkipped(s, t, order, name);
      assert before + [] == before;
    }
  }

  lemma UnboundIsSkipped(s: State, t: State, order: seq<Text>, name: Text)
    requires name in s.prefixes && s.prefixes[name].None?
    ensures WithPrefixes(s, t, order + [name]) == WithPrefixes(s, t, order)
  {
    BoundSnoc(s, t, order, name);
  }

  lemma PiecesSnoc(pieces: seq<Text>, piece: Text)
    requires ArePieces(pieces) && IsPiece(piece)
    ensures ArePieces(pieces + [piece])
  {
  }

  lemma PrefixBindingIsRead(separator: byte, s: State, t: State, order: seq<Text>, name: Text)
    requires name in s.prefixes && s.prefixes[name].Some? && IsName(name)
    requires IsBinding(separator, s.prefixes[name].value)
    ensures IsPiece(BindingText(separator, name, s.prefixes[name].value))
    ensures SetOne(separator, WithPrefixes(s, t, order), BindingText(separator, name, s.prefixes[name].value))
         == WithPrefixes(s, t, order + [name])
  {
    hide SetOne, BindingText, BoundSoFar;
    BoundSnoc(s, t, order, name);
    BindingIsRead(separator, t.(prefixes := BoundSoFar(s, t, order)), name, s.prefixes[name].value);
  }

  lemma FoldSnoc(separator: byte, t: State, before: seq<Text>, piece: Text)
    ensures Fold(separator, t, before + [piece]) == SetOne(separator, Fold(separator, t, before), piece)
  {
    FoldConcat(separator, t, before, [piece]);
    FoldOne(separator, Fold(separator, t, before), piece);
  }

  lemma PrefixPiecesSnoc(separator: byte, s: State, order: seq<Text>, name: Text)
    requires Fits(separator, s) && AreKeys(order, s.prefixes.Keys) && name in s.prefixes
    ensures AreKeys(order + [name], s.prefixes.Keys)
    ensures PrefixPieces(separator, s, order + [name]) == PrefixPieces(separator, s, order)
      + (if s.prefixes[name].None? then [] else [BindingText(separator, name, s.prefixes[name].value)])
  {
    assert (order + [name])[..|order|] == order;
  }

  lemma {:induction false} EntitiesAreRead(separator: byte, s: State, t: State, order: seq<Text>)
    requires WellNamed(separator, s) && AreKeys(order, s.entities.Keys)
    ensures ArePieces(EntityPieces(s, order))
    ensures Fold(separator, t, EntityPieces(s, order)) == t.(entities := OpenSoFar(s, t, order))
  {
    if order == [] {
    } else {
      var n := |order| - 1;
      EntitiesAreRead(separator, s, t, order[..n]);
      assert IsName(order[n]);
      OpenIsRead(separator, s, t, order[..n], order[n]);
      assert order[..n] + [order[n]] == order;
    }
  }

  lemma OpenIsRead(separator: byte, s: State, t: State, order: seq<Text>, name: Text)
    requires AreKeys(order, s.entities.Keys) && name in s.entities && IsName(name)
    requires ArePieces(EntityPieces(s, order))
    requires Fold(separator, t, EntityPieces(s, order)) == t.(entities := OpenSoFar(s, t, order))
    ensures ArePieces(EntityPieces(s, order + [name]))
    ensures Fold(separator, t, EntityPieces(s, order + [name])) == t.(entities := OpenSoFar(s, t, order + [name]))
  {
    hide SetOne, OpenSoFar, Fold, IsPiece;
    assert (order + [name])[..|order|] == order;
    var before := EntityPieces(s, order);
    OpenSnoc(s, t, order, name);
    if s.entities[name] {
      EntityIsRead(separator, Fold(separator, t, before), name);
      FoldSnoc(separator, t, before, name);
    } else {
      assert before + [] == before;
    }
  }

  /** What reading the context of `s` makes of the state `t`. */
  ghost function Merged(s: State, t: State): State {
    State(
      if s.default.Some? then s.default else t.default,
      map p | p in t.prefixes.Keys + s.prefixes.Keys && (p in t.prefixes || s.prefixes[p].Some?) ::
        if p in s.prefixes && s.prefixes[p].Some? then s.prefixes[p] else t.prefixes[p],
      map e | e in t.entities :: t.entities[e] || (e in s.entities && s.entities[e]))
  }

  lemma EverythingRead(s: State, t: State, prefixOrder: seq<Text>, entityOrder: seq<Text>)
    requires IsOrderOf(prefixOrder, s.prefixes.Keys) && IsOrderOf(entityOrder, s.entities.Keys)
    ensures BoundSoFar(s, t, prefixOrder) == Merged(s, t).prefixes && OpenSoFar(s, t, entityOrder) == Merged(s, t).entities
    ensures BoundSoFar(s, t, []) == t.prefixes && OpenSoFar(s, t, []) == t.entities
  {
    assert forall p :: BoundIn(s, prefixOrder, p) <==> p in s.prefixes && s.prefixes[p].Some?;
    assert forall p :: !BoundIn(s, [], p);
  }

  lemma DefaultIsRead(separator: byte, s: State, t: State)
    requires WellNamed(separator, s)
    ensures ArePieces(DefaultPieces(separator, s))
    ensures Fold(separator, t, DefaultPieces(separator, s)) == t.(default := Merged(s, t).default)
  {
    hide BindingText, SetOne;
    if s.default.Some? {
      BindingIsRead(separator, t, [], s.default.value);
      FoldOne(separator, t, BindingText(separator, [], s.default.value));
    }
  }

  /** Whatever the iteration orders, reading a context sets what it names and leaves the rest of the
      state alone. */
  lemma SetContextMerges(separator: byte, s: State, t: State, prefixOrder: seq<Text>, entityOrder: seq<Text>)
    requires WellNamed(separator, s)
    requires IsOrderOf(prefixOrder, s.prefixes.Keys) && IsOrderOf(entityOrder, s.entities.Keys)
    ensures SetAll(separator, t, Join(Pieces(separator, s, prefixOrder, entityOrder))) == Merged(s, t)
    ensures 0 !in Join(Pieces(separator, s, prefixOrder, entityOrder))
  {
    hide SetOne, BindingText, Join, SetAll, Fold, BoundSoFar, OpenSoFar, WellNamed;
    EverythingRead(s, t, prefixOrder, entityOrder);
    WellNamedFits(separator, s);
    var t1 := t.(default := Merged(s, t).default);
    var t2 := t1.(prefixes := Merged(s, t).prefixes);
    EverythingRead(s, t1, prefixOrder, entityOrder);
    EverythingRead(s, t2, prefixOrder, entityOrder);
    var d, p, e := DefaultPieces(separator, s), PrefixPieces(separator, s, prefixOrder), EntityPieces(s, entityOrder);
    DefaultIsRead(separator, s, t);
    PrefixesAreRead(separator, s, t1, prefixOrder);
    EntitiesAreRead(separator, s, t2, entityOrder);
    FoldConcat(separator, t, d, p);
    FoldConcat(separator, t, d + p, e);
    SetAllJoin(separator, t, d + p + e);
    if d + p + e != [] {
      JoinEnds(d + p + e);
    } else {
      JoinEmpty();
    }
  }

  /** The tables of `t` lack at most prefixes that `s` binds, and nothing is bound or open in `t` that is
      not in `s`. */
  ghost predicate StartsBelow(t: State, s: State) {
    && (t.default.Some? ==> s.default.Some?)
    && (forall p :: p in t.prefixes && t.prefixes[p].Some? ==> p in s.prefixes && s.prefixes[p].Some?)
    && (forall p :: p in s.prefixes && s.prefixes[p].None? ==> p in t.prefixes)
    && t.prefixes.Keys <= s.prefixes.Keys && t.entities.Keys == s.entities.Keys
    && (forall e :: e in t.entities && t.entities[e] ==> s.entities[e])
  }

  lemma MergedIffBelow(s: State, t: State)
    ensures Merged(s, t) == s <==> StartsBelow(t, s)
  {
    var m := Merged(s, t);
    if StartsBelow(t, s) {
      assert m.prefixes == s.prefixes && m.entities == s.entities;
    }
    if m == s {
      assert m.prefixes.Keys == s.prefixes.Keys && m.entities.Keys == s.entities.Keys;
      forall p | p in t.prefixes
        ensures p in s.prefixes && (t.prefixes[p].Some? ==> s.prefixes[p].Some?)
      {
        assert p in m.prefixes && m.prefixes[p] == s.prefixes[p];
      }
      forall e | e in t.entities && t.entities[e]
        ensures s.entities[e]
      {
        assert m.entities[e] == s.entities[e];
      }
    }
  }

  /** Whatever the iteration orders, a parser that reads the context has the state that was printed if and
      only if it started with the same tables and nothing bound or open beyond that state. */
  lemma SetContextUndoesGetContext(separator: byte, s: State, t: State, prefixOrder: seq<Text>, entityOrder: seq<Text>)
    requires WellNamed(separator, s)
    requires IsOrderOf(prefixOrder, s.prefixes.Keys) && IsOrderOf(entityOrder, s.entities.Keys)
    ensures SetAll(separator, t, Join(Pieces(separator, s, prefixOrder, entityOrder))) == s <==> StartsBelow(t, s)
  {
    hide SetAll, Join, Merged, StartsBelow, WellNamed, Pieces;
    WellNamedFits(separator, s);
    SetContextMerges(separator, s, t, prefixOrder, entityOrder);
    MergedIffBelow(s, t);
  }

  lemma JoinEmpty()
    ensures Join([]) == []
  {
  }

  lemma WellNamedFits(separator: byte, s: State)
    requires WellNamed(separator, s)
    ensures Fits(separator, s)
  {
  }

  /** With namespaces, xml is bound in every parser, from the start. */
  ghost predicate BindsXml(ns: bool, s: State) {
    ns ==> XML in s.prefixes && s.prefixes[XML].Some?
  }

  lemma CreatedStartsBelow(ns: bool, separator: byte, s: State)
    requires BindsXml(ns, s)
    ensures StartsBelow(WithTables(Created(ns, separator), s), s)
  {
    assert Created(ns, separator).prefixes.Keys <= {XML};
  }

  /** What XML_ExternalEntityParserCreate does with a context: the new parser, its copy of the tables, and
      the context read into it. */
  method CopyContext(from: Parser, prefixOrder: seq<Text>, entityOrder: seq<Text>) returns (to: Parser)
    requires from.tempPool == [] && WellNamed(from.namespaceSeparator, from.Now()) && BindsXml(from.ns, from.Now())
    requires IsOrderOf(prefixOrder, from.prefixes.Keys) && IsOrderOf(entityOrder, from.generalEntities.Keys)
    modifies from`tempPool
    ensures fresh(to) && to.Now() == from.Now() == old(from.Now())
  {
    hide SetAll, Join, StartsBelow, WithTables, Created, Pieces, WellNamed;
    ghost var s, separator := from.Now(), from.namespaceSeparator;
    WellNamedFits(separator, s);
    var text := from.GetContext(prefixOrder, entityOrder);
    ghost var context := Join(Pieces(separator, s, prefixOrder, entityOrder));
    assert text[..|text| - 1] == context;
    to := new Parser(from.ns, from.namespaceSeparator);
    to.CopyTables(from);
    CreatedStartsBelow(from.ns, separator, s);
    SetContextMerges(separator, s, to.Now(), prefixOrder, entityOrder);
    SetContextUndoesGetContext(separator, s, to.Now(), prefixOrder, entityOrder);
    assert forall i :: 0 <= i < |text| - 1 ==> text[i] == context[i];
    to.SetContext(text);
  }
}
