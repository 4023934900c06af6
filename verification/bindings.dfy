/** Namespace bindings of xmlparse.c: addBinding, and the loops of doContent that take bindings back
    at the end of an element. */
module NamespaceBindings {
  import opened Common

  class Prefix {
    var binding: Binding?

    constructor ()
      ensures binding == null
    {
      binding := null;
    }
  }

  class Binding {
    var prefix: Prefix
    var prevPrefixBinding: Binding?
    /** The first `uriLen` characters of the buffer: the URI and the separator, if there is one. */
    var uri: seq<byte>

    constructor (p: Prefix)
    {
      prefix, prevPrefixBinding, uri := p, null, [];
    }
  }

  /** A declaration `xmlns:prefix="uri"`. */
  datatype Decl = Decl(prefix: Prefix, uri: seq<byte>)

  /** A declaration in scope, with the node that records it. */
  datatype Live = Live(node: Binding, decl: Decl)

  /** The innermost declaration, last in `live`, decides; an empty default one unbinds the prefix. */
  ghost function Current(live: seq<Live>, p: Prefix, default: Prefix): Binding? {
    if live == [] then null
    else
      var last := live[|live| - 1];
      if last.decl.prefix != p then Current(live[..|live| - 1], p, default)
      else if p == default && last.decl.uri == [] then null
      else last.node
  }

  /** What the declarations, oldest first, make of a prefix. */
  ghost function Resolve(decls: seq<Decl>, p: Prefix, default: Prefix): Option<seq<byte>> {
    if decls == [] then None
    else
      var last := decls[|decls| - 1];
      if last.prefix != p then Resolve(decls[..|decls| - 1], p, default)
      else if p == default && last.uri == [] then None
      else Some(last.uri)
  }

  ghost predicate IsInnermost(decls: seq<Decl>, i: nat, p: Prefix) {
    i < |decls| && decls[i].prefix == p && forall j :: i < j < |decls| ==> decls[j].prefix != p
  }

  /** Section 6.1 of Namespaces in XML 1.0: a declaration is in scope up to the inner declarations of
      the same prefix, and an empty default declaration hides the outer ones. */
  lemma {:induction false} ResolveIsInnermost(decls: seq<Decl>, p: Prefix, default: Prefix)
    ensures Resolve(decls, p, default) == None <==>
      (forall i :: 0 <= i < |decls| ==> decls[i].prefix != p)
      || (p == default && exists i: nat :: IsInnermost(decls, i, p) && decls[i].uri == [])
    ensures forall i: nat :: IsInnermost(decls, i, p) && !(p == default && decls[i].uri == []) ==>
      Resolve(decls, p, default) == Some(decls[i].uri)
  {
    if decls != [] {
      var n := |decls| - 1;
      if decls[n].prefix == p {
        assert IsInnermost(decls, n, p);
      } else {
        ResolveIsInnermost(decls[..n], p, default);
        assert forall i: nat :: IsInnermost(decls, i, p) <==> IsInnermost(decls[..n], i, p);
      }
    }
  }

  lemma {:induction false} CurrentResolves(live: seq<Live>, p: Prefix, default: Prefix)
    ensures Current(live, p, default) == null <==> Resolve(Declared(live), p, default).None?
    ensures Current(live, p, default) != null ==>
      exists i ::
        0 <= i < |live| && Current(live, p, default) == live[i].node
        && Resolve(Declared(live), p, default) == Some(live[i].decl.uri)
  {
    if live != [] {
      var n := |live| - 1;
      assert Declared(live)[..n] == Declared(live[..n]);
      if live[n].decl.prefix != p {
        CurrentResolves(live[..n], p, default);
        if Current(live, p, default) != null {
          var i :| 0 <= i < |live[..n]| && Current(live, p, default) == live[..n][i].node
            && Resolve(Declared(live[..n]), p, default) == Some(live[..n][i].decl.uri);
          assert live[i] == live[..n][i];
        }
      }
    }
  }

  ghost function Flatten(levels: seq<seq<Live>>): seq<Live> {
    if levels == [] then [] else Flatten(levels[..|levels| - 1]) + levels[|levels| - 1]
  }

  /** A list of bindings has the youngest in front. */
  ghost predicate Lists(bindings: seq<Binding>, level: seq<Live>) {
    |bindings| == |level| && forall i :: 0 <= i < |level| ==> bindings[i] == level[|level| - 1 - i].node
  }

  class Parser {
    const defaultPrefix: Prefix
    const namespaceSeparator: byte
    var freeBindingList: seq<Binding>
    /** The `bindings` of each open tag; the innermost tag is last. */
    var tagStack: seq<seq<Binding>>
    ghost var prefixes: set<Prefix>
    ghost var nodes: set<Binding>
    /** The declarations in scope, oldest first. */
    ghost var live: seq<Live>
    ghost var levels: seq<seq<Live>>

    constructor (separator: byte)
      ensures Valid() && Nested() && levels == [[]] && fresh(nodes) && fresh(prefixes) && tagStack == []
    {
      defaultPrefix := new Prefix();
      namespaceSeparator := separator;
      freeBindingList, tagStack, nodes, live, levels := [], [], {}, [], [[]];
      prefixes := {defaultPrefix};
    }

    ghost function Stored(uri: seq<byte>): seq<byte> {
      if namespaceSeparator == 0 then uri else uri + [namespaceSeparator]
    }

    /** Every node is either live or free, and on its list once. */
    ghost predicate LiveOrFree()
      reads this`freeBindingList, this`nodes, this`live
    {
      && (forall i, j :: 0 <= i < j < |live| ==> live[i].node != live[j].node)
      && (forall i, j :: 0 <= i < j < |freeBindingList| ==> freeBindingList[i] != freeBindingList[j])
      && (forall i, j :: 0 <= i < |live| && 0 <= j < |freeBindingList| ==> live[i].node != freeBindingList[j])
      && (forall i :: 0 <= i < |live| ==> live[i].node in nodes)
      && (forall i :: 0 <= i < |freeBindingList| ==> freeBindingList[i] in nodes)
    }

    /** A live node records its declaration and what it hides. */
    ghost predicate Records(i: nat)
      requires i < |live|
      reads this`prefixes, this`live, live[i].node
    {
      && live[i].decl.prefix in prefixes
      && live[i].node.prefix == live[i].decl.prefix
      && live[i].node.uri == Stored(live[i].decl.uri)
      && live[i].node.prevPrefixBinding == Current(live[..i], live[i].decl.prefix, defaultPrefix)
    }

    ghost predicate Valid()
      reads this`freeBindingList, this`prefixes, this`nodes, this`live, nodes, prefixes
    {
      && defaultPrefix in prefixes
      && LiveOrFree()
      && (forall i :: 0 <= i < |live| ==> Records(i))
      && (forall p :: p in prefixes ==> p.binding == Current(live, p, defaultPrefix))
    }

    /** A node that is neither live nor free: the first of the free list, or a new one. */
    method TakeNode(prefix: Prefix) returns (b: Binding)
      requires Valid()
      modifies this`freeBindingList, this`nodes
      ensures Valid() && fresh(nodes - old(nodes)) && old(nodes) <= nodes
      ensures b in nodes && b !in freeBindingList && forall i :: 0 <= i < |live| ==> live[i].node != b
      ensures if old(freeBindingList) == [] then freeBindingList == [] && fresh(b)
              else [b] + freeBindingList == old(freeBindingList)
    {
      if freeBindingList != [] {
        b := freeBindingList[0];
        freeBindingList := freeBindingList[1..];
      } else {
        b := new Binding(prefix);
        nodes := nodes + {b};
      }
      forall i | 0 <= i < |live|
        ensures Records(i)
      {
        assert old(Records(i));
      }
    }

    /** A node that joins the live ones. */
    static lemma CurrentSnoc(live: seq<Live>, l: Live, p: Prefix, default: Prefix)
      ensures Current(live + [l], p, default) ==
        if l.decl.prefix != p then Current(live, p, default)
        else if p == default && l.decl.uri == [] then null
        else l.node
    {
      assert (live + [l])[..|live|] == live;
    }

    /** The node goes in front of the prefix's binding and of the tag's bindings. */
    method Bind(b: Binding, prefix: Prefix, uri: seq<byte>)
      requires Valid() && prefix in prefixes
      requires b in nodes && b !in freeBindingList && forall i :: 0 <= i < |live| ==> live[i].node != b
      modifies this`live, b, prefix
      ensures Valid() && live == old(live) + [Live(b, Decl(prefix, uri))]
    {
      hide Current;
      b.uri := if namespaceSeparator == 0 then uri else uri + [namespaceSeparator];
      b.prefix := prefix;
      b.prevPrefixBinding := prefix.binding;
      prefix.binding := if uri == [] && prefix == defaultPrefix then null else b;
      ghost var before, l := live, Live(b, Decl(prefix, uri));
      live := live + [l];
      assert live[..|before|] == before;
      forall p | p in prefixes
        ensures p.binding == Current(live, p, defaultPrefix)
      {
        CurrentSnoc(before, l, p, defaultPrefix);
      }
      forall i | 0 <= i < |live|
        ensures Records(i)
      {
        if i < |before| {
          assert live[..i] == before[..i] && live[i] == before[i];
          assert old(Records(i));
        }
      }
    }

    method AddBinding(prefix: Prefix, uri: seq<byte>, bindings: seq<Binding>) returns (r: seq<Binding>)
      requires Valid() && prefix in prefixes
      modifies this`freeBindingList, this`nodes, this`live, nodes, prefix
      ensures Valid() && fresh(nodes - old(nodes)) && old(nodes) <= nodes
      ensures |r| == |bindings| + 1 && r[1..] == bindings
      ensures live == old(live) + [Live(r[0], Decl(prefix, uri))]
    {
      hide Valid;
      var b := TakeNode(prefix);
      Bind(b, prefix, uri);
      r := [b] + bindings;
    }

    /** The youngest live node goes to the free list, and its prefix is bound to what it hid. */
    method Pop(b: Binding)
      requires Valid() && live != [] && b == live[|live| - 1].node
      modifies this`freeBindingList, this`live, prefixes
      ensures Valid() && live == old(live[..|live| - 1])
      ensures freeBindingList == [b] + old(freeBindingList)
    {
      assert Records(|live| - 1);
      ghost var before := live;
      live := live[..|live| - 1];
      freeBindingList := [b] + freeBindingList;
      b.prefix.binding := b.prevPrefixBinding;
      forall i | 0 <= i < |live|
        ensures Records(i)
      {
        assert live[..i] == before[..i] && old(Records(i));
      }
    }

    /** The loop that ends an element: its bindings are taken back, youngest first. */
    method Release(bindings: seq<Binding>, ghost level: seq<Live>)
      requires Valid() && Lists(bindings, level) && |level| <= |live| && live[|live| - |level|..] == level
      modifies this`freeBindingList, this`live, prefixes
      ensures Valid() && live == old(live[..|live| - |level|])
    {
      hide Valid;
      ghost var base := live[..|live| - |level|];
      var rest := bindings;
      while rest != []
        invariant |rest| <= |level| && live == base + level[..|rest|]
        invariant Lists(rest, level[..|rest|])
        invariant Valid()
        decreases |rest|
      {
        assert rest[0] == level[|rest| - 1].node;
        assert (base + level[..|rest|])[..|base| + |rest| - 1] == base + level[..|rest| - 1];
        Pop(rest[0]);
        rest := rest[1..];
      }
    }

    /** The declarations of a tag, in the order of its attributes. */
    method AddAll(decls: seq<Decl>) returns (bindings: seq<Binding>, ghost level: seq<Live>)
      requires Valid() && Known(decls)
      modifies this`freeBindingList, this`nodes, this`live, nodes, prefixes
      ensures Valid() && fresh(nodes - old(nodes)) && old(nodes) <= nodes
      ensures Lists(bindings, level) && Declared(level) == decls && live == old(live) + level
    {
      hide Valid;
      bindings, level := [], [];
      for i := 0 to |decls|
        invariant Valid() && fresh(nodes - old(nodes)) && old(nodes) <= nodes
        invariant Lists(bindings, level) && Declared(level) == decls[..i] && live == old(live) + level
      {
        bindings := AddBinding(decls[i].prefix, decls[i].uri, bindings);
        level := level + [Live(bindings[0], decls[i])];
        assert decls[..i + 1] == decls[..i] + [decls[i]];
      }
      assert decls[..|decls|] == decls;
    }

    ghost predicate Known(decls: seq<Decl>)
      reads this`prefixes
    {
      forall i :: 0 <= i < |decls| ==> decls[i].prefix in prefixes
    }

    /** `live` is divided into levels: what was inherited, then one level for each open tag. */
    ghost predicate Nested()
      reads this
    {
      && |levels| == |tagStack| + 1 && live == Flatten(levels)
      && (forall i :: 0 <= i < |tagStack| ==> Lists(tagStack[i], levels[i + 1]))
    }

    method StartTag(decls: seq<Decl>)
      requires Valid() && Nested() && Known(decls)
      modifies this`freeBindingList, this`nodes, this`live, this`tagStack, this`levels, nodes, prefixes
      ensures Valid() && Nested() && fresh(nodes - old(nodes)) && old(nodes) <= nodes
      ensures |levels| > 0 && levels[..|levels| - 1] == old(levels) && Declared(levels[|levels| - 1]) == decls
    {
      hide Valid;
      var bindings, level := AddAll(decls);
      levels := levels + [level];
      tagStack := tagStack + [bindings];
      assert levels[..|levels| - 1] == old(levels);
    }

    method EndTag()
      requires Valid() && Nested() && tagStack != []
      modifies this`freeBindingList, this`live, this`tagStack, this`levels, prefixes
      ensures Valid() && Nested() && levels == old(levels[..|levels| - 1])
    {
      hide Valid;
      var tag := tagStack[|tagStack| - 1];
      ghost var level := levels[|tagStack|];
      tagStack := tagStack[..|tagStack| - 1];
      levels := levels[..|levels| - 1];
      assert live == Flatten(levels) + level;
      Release(tag, level);
    }

    method EmptyTag(decls: seq<Decl>)
      requires Valid() && Nested() && Known(decls)
      modifies this`freeBindingList, this`nodes, this`live, nodes, prefixes
      ensures Valid() && Nested() && fresh(nodes - old(nodes)) && old(nodes) <= nodes
      ensures live == old(live)
    {
      hide Valid;
      ghost var before := live;
      var bindings, level := AddAll(decls);
      assert live[|live| - |level|..] == level && live[..|live| - |level|] == before;
      Release(bindings, level);
    }
  }

  ghost function Declared(level: seq<Live>): (decls: seq<Decl>)
    ensures |decls| == |level|
  {
    seq(|level|, i requires 0 <= i < |level| => level[i].decl)
  }

  /** The declarations in scope, level by level: what was inherited, then the open tags. */
  type Scopes = seq<seq<Decl>>

  ghost function Outline(levels: seq<seq<Live>>): (scopes: Scopes)
    ensures |scopes| == |levels|
  {
    seq(|levels|, i requires 0 <= i < |levels| => Declared(levels[i]))
  }

  ghost function InScope(scopes: Scopes): seq<Decl> {
    if scopes == [] then [] else InScope(scopes[..|scopes| - 1]) + scopes[|scopes| - 1]
  }

  lemma {:induction false} OutlineFlattens(levels: seq<seq<Live>>)
    ensures Declared(Flatten(levels)) == InScope(Outline(levels))
  {
    if levels != [] {
      var n := |levels| - 1;
      OutlineFlattens(levels[..n]);
      assert Outline(levels)[..n] == Outline(levels[..n]);
    }
  }

  datatype Event = Start(decls: seq<Decl>) | Empty(decls: seq<Decl>) | End

  ghost function Step(scopes: Scopes, e: Event): Option<Scopes> {
    match e
    case Start(decls) => Some(scopes + [decls])
    case Empty(_) => Some(scopes)
    case End => if |scopes| <= 1 then None else Some(scopes[..|scopes| - 1])
  }

  ghost function After(scopes: Scopes, events: seq<Event>): Option<Scopes> {
    if events == [] then Some(scopes)
    else
      var before := After(scopes, events[..|events| - 1]);
      if before.None? then None else Step(before.value, events[|events| - 1])
  }

  lemma {:induction false} NothingAfterError(scopes: Scopes, events: seq<Event>, i: nat)
    requires i <= |events| && After(scopes, events[..i]).None?
    ensures After(scopes, events).None?
  {
    if i == |events| {
      assert events[..i] == events;
    } else {
      assert events[..|events| - 1][..i] == events[..i];
      NothingAfterError(scopes, events[..|events| - 1], i);
    }
  }

  /** Start tags minus end tags. */
  function Depth(events: seq<Event>): int {
    if events == [] then 0
    else
      Depth(events[..|events| - 1])
      + (match events[|events| - 1] case Start(_) => 1 case Empty(_) => 0 case End => -1)
  }

  ghost predicate WellNested(events: seq<Event>) {
    Depth(events) == 0 && forall i :: 0 <= i <= |events| ==> Depth(events[..i]) >= 0
  }

  /** Each prefix of the table is bound to what its innermost declaration in scope says. */
  ghost predicate BoundAs(parser: Parser, scopes: Scopes)
    reads parser`prefixes, parser.prefixes, (set p: Prefix | p in parser.prefixes && p.binding != null :: p.binding)
  {
    forall p :: p in parser.prefixes ==>
      match Resolve(InScope(scopes), p, parser.defaultPrefix)
      case None => p.binding == null
      case Some(uri) => p.binding != null && p.binding.uri == parser.Stored(uri)
  }

  lemma ValidIsBound(parser: Parser)
    requires parser.Valid() && parser.Nested()
    ensures BoundAs(parser, Outline(parser.levels))
  {
    OutlineFlattens(parser.levels);
    forall p | p in parser.prefixes
      ensures match Resolve(InScope(Outline(parser.levels)), p, parser.defaultPrefix)
              case None => p.binding == null
              case Some(uri) => p.binding != null && p.binding.uri == parser.Stored(uri)
    {
      CurrentResolves(parser.live, p, parser.defaultPrefix);
      if p.binding != null {
        var i :| 0 <= i < |parser.live| && p.binding == parser.live[i].node
          && Resolve(Declared(parser.live), p, parser.defaultPrefix) == Some(parser.live[i].decl.uri);
        assert parser.Records(i);
      }
    }
  }

  /** One tag of the content loop; an end tag with no open tag is the error ASYNC_ENTITY. */
  method Process(parser: Parser, e: Event) returns (ok: bool)
    requires parser.Valid() && parser.Nested() && (!e.End? ==> parser.Known(e.decls))
    modifies parser, parser.nodes, parser.prefixes
    ensures parser.Valid() && parser.Nested() && parser.prefixes == old(parser.prefixes)
    ensures fresh(parser.nodes - old(parser.nodes)) && old(parser.nodes) <= parser.nodes
    ensures Step(old(Outline(parser.levels)), e) == if ok then Some(Outline(parser.levels)) else None
    ensures ok ==> match e
                   case Start(_) => |parser.levels| > 0 && parser.levels[..|parser.levels| - 1] == old(parser.levels)
                   case Empty(_) => parser.levels == old(parser.levels)
                   case End => old(parser.levels) != [] && parser.levels == old(parser.levels[..|parser.levels| - 1])
  {
    ghost var levels := parser.levels;
    ok := true;
    match e {
      case Start(decls) =>
        parser.StartTag(decls);
        assert Outline(parser.levels) == Outline(levels) + [decls];
      case Empty(decls) => parser.EmptyTag(decls);
      case End =>
        if parser.tagStack == [] {
          ok := false;
        } else {
          parser.EndTag();
          assert Outline(parser.levels) == Outline(levels)[..|levels| - 1];
        }
    }
  }

  /** Over any run of tags every prefix is bound as its innermost declaration in scope says, and over a
      well-nested run all prefixes come back to the very bindings they had. */
  method Run(parser: Parser, events: seq<Event>) returns (ok: bool)
    requires parser.Valid() && parser.Nested()
    requires forall i :: 0 <= i < |events| && !events[i].End? ==> parser.Known(events[i].decls)
    modifies parser, parser.nodes, parser.prefixes
    ensures parser.Valid() && parser.Nested() && parser.prefixes == old(parser.prefixes)
    ensures ok <==> After(old(Outline(parser.levels)), events).Some?
    ensures ok ==> BoundAs(parser, After(old(Outline(parser.levels)), events).value)
    ensures WellNested(events) ==> ok && forall p :: p in parser.prefixes ==> p.binding == old(p.binding)
  {
    ghost var levels := parser.levels;
    var i := 0;
    ok := true;
    while i < |events|
      invariant 0 <= i <= |events| && ok
      invariant parser.Valid() && parser.Nested() && parser.prefixes == old(parser.prefixes)
      invariant fresh(parser.nodes - old(parser.nodes)) && old(parser.nodes) <= parser.nodes
      invariant After(Outline(levels), events[..i]) == Some(Outline(parser.levels))
      invariant WellNested(events) ==> |parser.levels| == |levels| + Depth(events[..i]) && levels <= parser.levels
    {
      assert events[..i + 1][..i] == events[..i];
      assert Depth(events[..i + 1]) >= 0 || !WellNested(events);
      ok := Process(parser, events[i]);
      if !ok {
        NothingAfterError(Outline(levels), events, i + 1);
        return;
      }
      i := i + 1;
    }
    assert events[..i] == events;
    ValidIsBound(parser);
    if WellNested(events) {
      assert parser.levels == levels && parser.live == old(parser.live);
      forall p | p in parser.prefixes
        ensures p.binding == old(p.binding)
      {
        assert old(p.binding) == Current(old(parser.live), p, parser.defaultPrefix);
      }
    }
  }
}
