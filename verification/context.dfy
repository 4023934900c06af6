/** getContext and setContext of xmlparse.c: the bindings and open entities of a parser, printed as
    a string and read back by a fresh parser. */
module Contexts {
  import opened Common

  const CONTEXT_SEP: byte := 12
  const EQUALS: byte := 61

  type Text = seq<byte>

  /** What a context describes. A binding is the URI as addBinding stores it, with the separator. */
  datatype State = State(
    default: Option<Text>,
    prefixes: map<Text, Option<Text>>,
    entities: map<Text, bool>)

  function Stored(separator: byte, uri: Text): Text {
    if separator == 0 then uri else uri + [separator]
  }

  /** addBinding for a prefix of the table, or for the default one when the name is empty. */
  function Bind(separator: byte, s: State, name: Text, uri: Text): State {
    if name == [] then s.(default := if uri == [] then None else Some(Stored(separator, uri)))
    else s.(prefixes := s.prefixes[name := Some(Stored(separator, uri))])
  }

  function Open(s: State, name: Text): State {
    if name in s.entities then s.(entities := s.entities[name := true]) else s
  }

  /** The part of `t` before the first `c`. */
  function UpTo(t: Text, c: byte): (r: Text)
    ensures |r| <= |t| && r == t[..|r|] && c !in r
    ensures |r| < |t| ==> t[|r|] == c
  {
    if t == [] || t[0] == c then [] else [t[0]] + UpTo(t[1..], c)
  }

  lemma {:induction false} UpToFirst(a: Text, c: byte, b: Text)
    requires c !in a && (b == [] || b[0] == c)
    ensures UpTo(a + b, c) == a
  {
    if a == [] {
      assert a + b == b;
    } else {
      assert (a + b)[1..] == a[1..] + b;
      UpToFirst(a[1..], c, b);
    }
  }

  /** A piece with an equals sign is a binding, and another one is the name of an open entity. */
  function SetOne(separator: byte, s: State, piece: Text): State {
    var name := UpTo(piece, EQUALS);
    if |name| < |piece| then Bind(separator, s, name, piece[|name| + 1..]) else Open(s, piece)
  }

  /** The pieces between separators, in order; nothing follows a separator at the end. */
  function SetAll(separator: byte, s: State, context: Text): State
    decreases |context|
  {
    if context == [] then s
    else
      var piece := UpTo(context, CONTEXT_SEP);
      SetAll(separator, SetOne(separator, s, piece), context[if |piece| < |context| then |piece| + 1 else |piece|..])
  }

  class Parser {
    const ns: bool
    const namespaceSeparator: byte
    var defaultBinding: Option<Text>
    var prefixes: map<Text, Option<Text>>
    var generalEntities: map<Text, bool>
    var tempPool: Text

    /** XML_ParserCreate, or, with namespaces, XML_ParserCreateNS, which reads the implicit context. */
    constructor (ns: bool, separator: byte)
      ensures tempPool == [] && Now() == Created(ns, separator) && this.ns == ns && namespaceSeparator == separator
    {
      this.ns := ns;
      namespaceSeparator, defaultBinding, tempPool := separator, None, [];
      prefixes, generalEntities := map[], map[];
      new;
      if ns {
        ImplicitIsRead(separator);
        SetContext(IMPLICIT_CONTEXT + [0]);
        assert (IMPLICIT_CONTEXT + [0])[..|IMPLICIT_CONTEXT|] == IMPLICIT_CONTEXT;
      }
    }

    /** The part of dtdCopy that makes the entries of the two tables. */
    method CopyTables(from: Parser)
      modifies this`prefixes, this`generalEntities
      ensures Now() == WithTables(old(Now()), old(from.Now()))
    {
      prefixes := map p | p in prefixes.Keys + from.prefixes.Keys :: if p in prefixes then prefixes[p] else None;
      generalEntities := map e | e in generalEntities.Keys + from.generalEntities.Keys ::
        e in generalEntities && generalEntities[e];
    }

    function Now(): State
      reads this
    {
      State(defaultBinding, prefixes, generalEntities)
    }

    method AddBinding(name: Text, uri: Text)
      modifies this`defaultBinding, this`prefixes
      ensures Now() == Bind(namespaceSeparator, old(Now()), name, uri)
    {
      var stored := if namespaceSeparator == 0 then uri else uri + [namespaceSeparator];
      if name == [] {
        defaultBinding := if uri == [] then None else Some(stored);
      } else {
        prefixes := prefixes[name := Some(stored)];
      }
    }

    /** Collects the URI that starts at `from`. */
    method ReadUri(text: Text, from: nat) returns (end: nat)
      requires tempPool == [] && IsCString(text) && from < |text|
      modifies this`tempPool
      ensures from <= end < |text| && tempPool == text[from..end] && CONTEXT_SEP !in tempPool
      ensures text[end] == CONTEXT_SEP || text[end] == 0
    {
      end := from;
      while text[end] != CONTEXT_SEP && text[end] != 0
        invariant from <= end < |text|
        invariant tempPool == text[from..end] && CONTEXT_SEP !in tempPool
        decreases |text| - end
      {
        tempPool := tempPool + [text[end]];
        end := end + 1;
      }
    }

    method OpenEntity()
      modifies this`generalEntities
      ensures Now() == Open(old(Now()), tempPool)
    {
      if tempPool in generalEntities {
        generalEntities := generalEntities[tempPool := true];
      }
    }

    /** The state of the loop of SetContext: the name read so far is in the pool, and what is left
        of the text leads to `target`. */
    ghost predicate Reading(text: Text, context: nat, s: nat, target: State)
      reads this
    {
      && IsCString(text) && context <= s < |text|
      && tempPool == text[context..s] && IsPlain(tempPool)
      && SetAll(namespaceSeparator, Now(), text[..|text| - 1][context..]) == target
    }

    /** One turn of the loop of SetContext: a character of a name, an entity, or a binding. */
    method SetStep(text: Text, context: nat, s: nat, ghost target: State) returns (context': nat, s': nat)
      requires Reading(text, context, s, target) && text[context] != 0
      modifies this
      ensures Reading(text, context', s', target)
      ensures context <= context' && s <= s' && (context < context' || s < s')
    {
      hide SetAll, Bind, Open, UpTo, IsPlain;
      ghost var all := text[..|text| - 1];
      assert all[context..s] == tempPool;
      context', s' := context, s;
      if text[s] == CONTEXT_SEP || text[s] == 0 {
        EntityStep(namespaceSeparator, Now(), all, context, s);
        OpenEntity();
        if text[s] != 0 {
          s' := s + 1;
        }
        context' := s';
        tempPool := [];
        NothingIsPlain();
      } else if text[s] == EQUALS {
        var name := tempPool;
        tempPool := [];
        var end := ReadUri(text, s + 1);
        assert all[s + 1..end] == tempPool;
        BindingStep(namespaceSeparator, Now(), all, context, s, end);
        AddBinding(name, tempPool);
        tempPool := [];
        NothingIsPlain();
        context' := if text[end] != 0 then end + 1 else end;
        s' := context';
      } else {
        PlainExtends(tempPool, text[s]);
        tempPool := tempPool + [text[s]];
        s' := s + 1;
      }
    }

    /** Reads a context; its last character is its only null one. */
    method SetContext(text: Text)
      requires tempPool == [] && IsCString(text)
      modifies this
      ensures Now() == SetAll(namespaceSeparator, old(Now()), text[..|text| - 1]) && tempPool == []
    {
      hide SetAll;
      ghost var target := SetAll(namespaceSeparator, Now(), text[..|text| - 1]);
      var s, context := 0, 0;
      assert text[..|text| - 1][0..] == text[..|text| - 1];
      while text[context] != 0
        invariant Reading(text, context, s, target)
        decreases |text| - context, |text| - s
      {
        context, s := SetStep(text, context, s, target);
      }
      assert text[..|text| - 1][context..] == [];
      SetNothing(namespaceSeparator, Now());
    }

    method AppendChar(c: byte)
      modifies this`tempPool
      ensures tempPool == old(tempPool) + [c]
    {
      tempPool := tempPool + [c];
    }

    /** Appends the first `len` characters. */
    method AppendChars(t: Text, len: nat)
      requires len <= |t|
      modifies this`tempPool
      ensures tempPool == old(tempPool) + t[..len]
    {
      for i := 0 to len
        invariant tempPool == old(tempPool) + t[..i]
      {
        AppendChar(t[i]);
      }
    }

    /** A separator if something came before, the name, and for a binding the URI. */
    method PrintPiece(name: Text, binding: Option<Text>, needSep: bool)
      requires binding.Some? && namespaceSeparator != 0 ==> binding.value != []
      modifies this`tempPool
      ensures tempPool == old(tempPool) + (if needSep then [CONTEXT_SEP] else [])
        + (if binding.Some? then BindingText(namespaceSeparator, name, binding.value) else name)
    {
      if needSep {
        AppendChar(CONTEXT_SEP);
      }
      AppendChars(name, |name|);
      assert name[..|name|] == name;
      if binding.Some? {
        AppendChar(EQUALS);
        var len := |binding.value|;
        if namespaceSeparator != 0 {
          len := len - 1;
        }
        AppendChars(binding.value, len);
      }
    }

    method PrintDefault() returns (needSep: bool)
      requires tempPool == [] && Fits(namespaceSeparator, Now())
      modifies this`tempPool
      ensures tempPool == Join(DefaultPieces(namespaceSeparator, Now()))
      ensures needSep == (DefaultPieces(namespaceSeparator, Now()) != [])
    {
      needSep := defaultBinding.Some?;
      if needSep {
        PrintPiece([], defaultBinding, false);
        JoinOne(BindingText(namespaceSeparator, [], defaultBinding.value));
      }
    }

    method PrintPrefixes(order: seq<Text>, needSep: bool, ghost before: seq<Text>) returns (needSep': bool)
      requires tempPool == Join(before) && needSep == (before != [])
      requires Fits(namespaceSeparator, Now()) && AreKeys(order, prefixes.Keys)
      modifies this`tempPool
      ensures tempPool == Join(before + PrefixPieces(namespaceSeparator, Now(), order))
      ensures needSep' == (before + PrefixPieces(namespaceSeparator, Now(), order) != [])
    {
      hide Join, BindingText;
      needSep' := needSep;
      ghost var pieces := before;
      for i := 0 to |order|
        invariant pieces == before + PrefixPieces(namespaceSeparator, Now(), order[..i])
        invariant tempPool == Join(pieces) && needSep' == (pieces != [])
      {
        var name := order[i];
        assert order[..i + 1][..i] == order[..i];
        if prefixes[name].Some? {
          PrintPiece(name, prefixes[name], needSep');
          JoinSnoc(pieces, BindingText(namespaceSeparator, name, prefixes[name].value));
          pieces := pieces + [BindingText(namespaceSeparator, name, prefixes[name].value)];
          needSep' := true;
        }
      }
      assert order[..|order|] == order;
    }

    method PrintEntities(order: seq<Text>, needSep: bool, ghost before: seq<Text>)
      requires tempPool == Join(before) && needSep == (before != []) && AreKeys(order, generalEntities.Keys)
      modifies this`tempPool
      ensures tempPool == Join(before + EntityPieces(Now(), order))
    {
      hide Join;
      var needSep' := needSep;
      ghost var pieces := before;
      for i := 0 to |order|
        invariant pieces == before + EntityPieces(Now(), order[..i])
        invariant tempPool == Join(pieces) && needSep' == (pieces != [])
      {
        var name := order[i];
        assert order[..i + 1][..i] == order[..i];
        if generalEntities[name] {
          PrintPiece(name, None, needSep');
          JoinSnoc(pieces, name);
          pieces := pieces + [name];
          needSep' := true;
        }
      }
      assert order[..|order|] == order;
    }

    /** Prints the default binding, the bound prefixes and the open entities, in the order in which the
        iterators find the entries of the two tables. */
    method GetContext(prefixOrder: seq<Text>, entityOrder: seq<Text>) returns (text: Text)
      requires tempPool == [] && Fits(namespaceSeparator, Now())
      requires AreKeys(prefixOrder, prefixes.Keys) && AreKeys(entityOrder, generalEntities.Keys)
      modifies this`tempPool
      ensures text == Join(Pieces(namespaceSeparator, Now(), prefixOrder, entityOrder)) + [0]
    {
      ghost var st := Now();
      var needSep := PrintDefault();
      needSep := PrintPrefixes(prefixOrder, needSep, DefaultPieces(namespaceSeparator, st));
      PrintEntities(entityOrder, needSep,
        DefaultPieces(namespaceSeparator, st) + PrefixPieces(namespaceSeparator, st, prefixOrder));
      AppendChar(0);
      text := tempPool;
    }
  }

  ghost predicate AreKeys(order: seq<Text>, keys: set<Text>) {
    forall i :: 0 <= i < |order| ==> order[i] in keys
  }

  /** An iteration over a table yields each of its keys once. */
  ghost predicate IsOrderOf(order: seq<Text>, keys: set<Text>) {
    && (forall i, j :: 0 <= i < j < |order| ==> order[i] != order[j])
    && AreKeys(order, keys) && (forall k :: k in keys ==> k in order)
  }

  /** The URI of a stored binding. */
  function Uri(separator: byte, stored: Text): Text
    requires separator != 0 ==> stored != []
  {
    if separator == 0 then stored else stored[..|stored| - 1]
  }

  function BindingText(separator: byte, name: Text, stored: Text): Text
    requires separator != 0 ==> stored != []
  {
    name + [EQUALS] + Uri(separator, stored)
  }

  /** Names are not empty and free of the marks and the null character; URIs may hold equals signs. */
  ghost predicate IsName(name: Text) {
    name != [] && 0 !in name && IsPlain(name)
  }

  ghost predicate IsBinding(separator: byte, stored: Text) {
    && (separator != 0 ==> stored != [] && stored[|stored| - 1] == separator)
    && 0 !in Uri(separator, stored) && CONTEXT_SEP !in Uri(separator, stored)
  }

  ghost predicate WellNamed(separator: byte, s: State) {
    && (s.default.Some? ==> IsBinding(separator, s.default.value) && Uri(separator, s.default.value) != [])
    && (forall name :: name in s.prefixes ==> IsName(name))
    && (forall name :: name in s.prefixes && s.prefixes[name].Some? ==> IsBinding(separator, s.prefixes[name].value))
    && (forall name :: name in s.entities ==> IsName(name))
  }

  /** What printing needs: a stored URI ends with the separator. */
  ghost predicate Fits(separator: byte, s: State) {
    separator != 0 ==>
      && (s.default.Some? ==> s.default.value != [])
      && (forall name :: name in s.prefixes && s.prefixes[name].Some? ==> s.prefixes[name].value != [])
  }

  function Join(pieces: seq<Text>): Text {
    if pieces == [] then []
    else Join(pieces[..|pieces| - 1]) + (if |pieces| == 1 then [] else [CONTEXT_SEP]) + pieces[|pieces| - 1]
  }

  lemma JoinOne(piece: Text)
    ensures Join([piece]) == piece
  {
    assert Join([piece][..0]) == [];
  }

  lemma JoinSnoc(pieces: seq<Text>, piece: Text)
    ensures Join(pieces + [piece]) == Join(pieces) + (if pieces == [] then [] else [CONTEXT_SEP]) + piece
  {
    assert (pieces + [piece])[..|pieces|] == pieces;
  }

  ghost function DefaultPieces(separator: byte, s: State): seq<Text>
    requires Fits(separator, s)
  {
    if s.default.None? then [] else [BindingText(separator, [], s.default.value)]
  }

  ghost function PrefixPieces(separator: byte, s: State, order: seq<Text>): seq<Text>
    requires Fits(separator, s) && AreKeys(order, s.prefixes.Keys)
  {
    if order == [] then []
    else
      var name := order[|order| - 1];
      PrefixPieces(separator, s, order[..|order| - 1])
      + (if s.prefixes[name].None? then [] else [BindingText(separator, name, s.prefixes[name].value)])
  }

  ghost function EntityPieces(s: State, order: seq<Text>): seq<Text>
    requires AreKeys(order, s.entities.Keys)
  {
    if order == [] then []
    else
      var name := order[|order| - 1];
      EntityPieces(s, order[..|order| - 1]) + (if s.entities[name] then [name] else [])
  }

  ghost function Pieces(separator: byte, s: State, prefixOrder: seq<Text>, entityOrder: seq<Text>): seq<Text>
    requires Fits(separator, s) && AreKeys(prefixOrder, s.prefixes.Keys) && AreKeys(entityOrder, s.entities.Keys)
  {
    DefaultPieces(separator, s) + PrefixPieces(separator, s, prefixOrder) + EntityPieces(s, entityOrder)
  }

  /** Free of both marks. */
  predicate IsPlain(t: Text) {
    CONTEXT_SEP !in t && EQUALS !in t
  }

  lemma NothingIsPlain()
    ensures IsPlain([])
  {
  }

  lemma PlainExtends(t: Text, c: byte)
    requires IsPlain(t) && c != CONTEXT_SEP && c != EQUALS
    ensures IsPlain(t + [c])
  {
  }

  lemma SetNothing(separator: byte, s: State)
    ensures SetAll(separator, s, []) == s
  {
  }

  lemma SetFirst(separator: byte, st: State, piece: Text, rest: Text)
    requires CONTEXT_SEP !in piece && piece + rest != [] && (rest == [] || rest[0] == CONTEXT_SEP)
    ensures SetAll(separator, st, piece + rest)
         == SetAll(separator, SetOne(separator, st, piece), if rest == [] then [] else rest[1..])
  {
    hide SetOne;
    UpToFirst(piece, CONTEXT_SEP, rest);
    if rest == [] {
      assert (piece + rest)[|piece|..] == [];
    } else {
      assert (piece + rest)[|piece| + 1..] == rest[1..];
    }
  }

  lemma SetOneEntity(separator: byte, st: State, name: Text)
    requires EQUALS !in name
    ensures SetOne(separator, st, name) == Open(st, name)
  {
    hide Open;
    UpToFirst(name, EQUALS, []);
    assert name + [] == name;
  }

  lemma SetOneBinding(separator: byte, st: State, name: Text, uri: Text)
    requires EQUALS !in name
    ensures SetOne(separator, st, name + [EQUALS] + uri) == Bind(separator, st, name, uri)
  {
    hide Bind;
    var piece := name + [EQUALS] + uri;
    assert piece == name + ([EQUALS] + uri);
    UpToFirst(name, EQUALS, [EQUALS] + uri);
    assert piece[|name| + 1..] == uri;
  }

  lemma EntityStep(separator: byte, st: State, all: Text, context: nat, s: nat)
    requires context <= s <= |all| && context < |all|
    requires IsPlain(all[context..s])
    requires s < |all| ==> all[s] == CONTEXT_SEP
    ensures SetAll(separator, st, all[context..])
         == SetAll(separator, Open(st, all[context..s]), all[if s < |all| then s + 1 else s..])
  {
    hide SetAll, SetOne, Open, Bind, UpTo;
    assert all[context..] == all[context..s] + all[s..];
    SetFirst(separator, st, all[context..s], all[s..]);
    SetOneEntity(separator, st, all[context..s]);
    assert all[s..] == [] || all[s..][1..] == all[s + 1..];
  }

  lemma BindingStep(separator: byte, st: State, all: Text, context: nat, s: nat, end: nat)
    requires context <= s < end <= |all| && all[s] == EQUALS
    requires IsPlain(all[context..s]) && CONTEXT_SEP !in all[s + 1..end]
    requires end < |all| ==> all[end] == CONTEXT_SEP
    ensures SetAll(separator, st, all[context..])
         == SetAll(separator, Bind(separator, st, all[context..s], all[s + 1..end]),
                   all[if end < |all| then end + 1 else end..])
  {
    hide SetAll, SetOne, Bind, Open, UpTo;
    var piece := all[context..s] + [EQUALS] + all[s + 1..end];
    assert all[s + 1..] == all[s + 1..end] + all[end..];
    assert all[context..] == all[context..s] + [EQUALS] + all[s + 1..];
    assert all[context..] == piece + all[end..];
    SetFirst(separator, st, piece, all[end..]);
    SetOneBinding(separator, st, all[context..s], all[s + 1..end]);
    assert all[end..] == [] || all[end..][1..] == all[end + 1..];
  }

  /** The tables of another state added to those of `t`, with nothing bound and nothing open. */
  function WithTables(t: State, s: State): State {
    State(t.default,
      map p | p in t.prefixes.Keys + s.prefixes.Keys :: if p in t.prefixes then t.prefixes[p] else None,
      map e | e in t.entities.Keys + s.entities.Keys :: e in t.entities && t.entities[e])
  }

  // ---------------------------------------------------------------- the implicit context

  const XML: Text := [0x78, 0x6D, 0x6C]

  /** http://www.w3.org/XML/1998/namespace */
  const XML_URI: Text := [
    0x68, 0x74, 0x74, 0x70, 0x3A, 0x2F, 0x2F, 0x77, 0x77, 0x77, 0x2E, 0x77, 0x33, 0x2E, 0x6F, 0x72, 0x67,
    0x2F, 0x58, 0x4D, 0x4C, 0x2F, 0x31, 0x39, 0x39, 0x38,
    0x2F, 0x6E, 0x61, 0x6D, 0x65, 0x73, 0x70, 0x61, 0x63, 0x65]

  const IMPLICIT_CONTEXT: Text := XML + [EQUALS] + XML_URI

  function Created(ns: bool, separator: byte): State {
    State(None, if ns then map[XML := Some(Stored(separator, XML_URI))] else map[], map[])
  }

  lemma ImplicitIsPlain()
    ensures EQUALS !in XML && CONTEXT_SEP !in IMPLICIT_CONTEXT && 0 !in IMPLICIT_CONTEXT
  {
  }

  lemma ImplicitIsRead(separator: byte)
    ensures SetAll(separator, State(None, map[], map[]), IMPLICIT_CONTEXT) == Created(true, separator)
    ensures IsCString(IMPLICIT_CONTEXT + [0])
  {
    hide SetAll, SetOne;
    ImplicitIsPlain();
    var empty := State(None, map[], map[]);
    SetFirst(separator, empty, IMPLICIT_CONTEXT, []);
    assert IMPLICIT_CONTEXT + [] == IMPLICIT_CONTEXT;
    SetNothing(separator, SetOne(separator, empty, IMPLICIT_CONTEXT));
    SetOneBinding(separator, empty, XML, XML_URI);
  }
}
