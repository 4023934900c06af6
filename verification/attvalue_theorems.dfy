/** What attribute-value expansion computes. */
module AttributeValueTheorems {
  import opened Common
  import opened XmlTok
  import opened Transcode
  import opened AttributeValues

  // ---------------------------------------------------------------- full expansion

  /** The replacement text of a value in which every reference is replaced, references nested more
      than `depth` deep being left out. There are no flags here and no pool. */
  function Expansion(dtd: Dtd, enc: Encoding, text: Text, i: nat, depth: nat): Text
    requires i <= |text|
    decreases depth, |text| - i
  {
    var (action, next) := NextAction(enc, text, i);
    match action
    case Stop(_) => []
    case Put(bytes) => bytes + Expansion(dtd, enc, text, next, depth)
    case PutSpace => [SPACE] + Expansion(dtd, enc, text, next, depth)
    case Reference(name) =>
      (if name in dtd.entities && dtd.entities[name].text.Some? && depth > 0
       then Expansion(dtd, dtd.internal, dtd.entities[name].text.value, 0, depth - 1) else [])
      + Expansion(dtd, enc, text, next, depth)
  }

  /** A value that is accepted is expanded in full: what is appended is the expansion to any depth
      of at least the number of closed entities. */
  lemma {:induction false} AcceptedIsFullExpansion(
      dtd: Dtd, open: set<Text>, enc: Encoding, text: Text, i: nat, pool: Text, depth: nat)
    requires i <= |text| && depth >= |dtd.entities.Keys - open|
    requires Append(dtd, open, true, enc, text, i, pool).err.NoError?
    ensures Append(dtd, open, true, enc, text, i, pool).pool == pool + Expansion(dtd, enc, text, i, depth)
    decreases |dtd.entities.Keys - open|, |text| - i
  {
    hide NextAction;
    var (action, next) := NextAction(enc, text, i);
    match action
    case Stop(_) =>
    case Put(bytes) => AcceptedIsFullExpansion(dtd, open, enc, text, next, pool + bytes, depth);
    case PutSpace => AcceptedIsFullExpansion(dtd, open, enc, text, next, pool + [SPACE], depth);
    case Reference(name) =>
      if name !in dtd.entities {
        AcceptedIsFullExpansion(dtd, open, enc, text, next, pool, depth);
      } else {
        FewerClosed(dtd, open, name);
        var inner := dtd.entities[name].text.value;
        AcceptedIsFullExpansion(dtd, open + {name}, dtd.internal, inner, 0, pool, depth - 1);
        var pool' := Append(dtd, open + {name}, true, dtd.internal, inner, 0, pool).pool;
        AcceptedIsFullExpansion(dtd, open, enc, text, next, pool', depth);
      }
  }

  // ---------------------------------------------------------------- recursion

  /** The entities that the text refers to, up to its first error. */
  function Refs(enc: Encoding, text: Text, i: nat): set<Text>
    requires i <= |text|
    decreases |text| - i
  {
    var (action, next) := NextAction(enc, text, i);
    match action
    case Stop(_) => {}
    case Reference(name) => {name} + Refs(enc, text, next)
    case _ => Refs(enc, text, next)
  }

  /** The text has no error of its own. */
  predicate WellFormed(enc: Encoding, text: Text, i: nat)
    requires i <= |text|
    decreases |text| - i
  {
    var (action, next) := NextAction(enc, text, i);
    match action
    case Stop(err) => err.NoError?
    case _ => WellFormed(enc, text, next)
  }

  predicate Internal(dtd: Dtd, name: Text) {
    name in dtd.entities && !dtd.entities[name].notation && dtd.entities[name].text.Some?
  }

  /** `names` are declared, internal and well formed, and refer only to one another. */
  predicate SoundNames(dtd: Dtd, names: set<Text>) {
    forall n :: n in names ==>
      Internal(dtd, n)
      && WellFormed(dtd.internal, dtd.entities[n].text.value, 0)
      && Refs(dtd.internal, dtd.entities[n].text.value, 0) <= names
  }

  /** `path` goes from one of `from` along references. */
  predicate IsPath(dtd: Dtd, from: set<Text>, path: seq<Text>)
    decreases |path|
  {
    path == []
    || (path[0] in from && Internal(dtd, path[0])
        && IsPath(dtd, Refs(dtd.internal, dtd.entities[path[0]].text.value, 0), path[1..]))
  }

  /** `path` comes back to an entity it went through, or to one of `open`. */
  predicate Returns(open: set<Text>, path: seq<Text>) {
    path != [] && (path[|path| - 1] in open || path[|path| - 1] in path[..|path| - 1])
  }

  lemma ReturnsAfter(open: set<Text>, name: Text, path: seq<Text>)
    requires path != []
    ensures Returns(open, [name] + path) <==> Returns(open + {name}, path)
  {
    var p := [name] + path;
    assert p[|p| - 1] == path[|path| - 1] && p[..|p| - 1] == [name] + path[..|path| - 1];
  }

  /** A recursion error is a returning path of references. */
  lemma {:induction false} RecursionErrorHasPath(
      dtd: Dtd, names: set<Text>, open: set<Text>, cdata: bool, enc: Encoding, text: Text, i: nat, pool: Text)
    returns (path: seq<Text>)
    requires i <= |text| && WellFormed(enc, text, i) && Refs(enc, text, i) <= names && SoundNames(dtd, names)
    ensures var err := Append(dtd, open, cdata, enc, text, i, pool).err;
      && (err.NoError? || err.RecursiveEntityRef?)
      && (err.RecursiveEntityRef? ==> IsPath(dtd, Refs(enc, text, i), path) && Returns(open, path))
    decreases |dtd.entities.Keys - open|, |text| - i
  {
    hide NextAction, AddSpace;
    path := [];
    var (action, next) := NextAction(enc, text, i);
    match action
    case Stop(_) =>
    case Put(bytes) =>
      path := RecursionErrorHasPath(dtd, names, open, cdata, enc, text, next, pool + bytes);
    case PutSpace =>
      path := RecursionErrorHasPath(dtd, names, open, cdata, enc, text, next, AddSpace(cdata, pool));
    case Reference(name) =>
      assert name in names;
      if name in open {
        path := [name];
      } else {
        FewerClosed(dtd, open, name);
        var inner := dtd.entities[name].text.value;
        path := RecursionErrorHasPath(dtd, names, open + {name}, cdata, dtd.internal, inner, 0, pool);
        var r := Append(dtd, open + {name}, cdata, dtd.internal, inner, 0, pool);
        if r.err.NoError? {
          path := RecursionErrorHasPath(dtd, names, open, cdata, enc, text, next, r.pool);
          if path != [] {
            assert path[0] in Refs(enc, text, i) || path[0] !in Refs(enc, text, next);
          }
        } else {
          ReturnsAfter(open, name, path);
          path := [name] + path;
        }
      }
  }

  /** An accepted text has no returning path. */
  lemma {:induction false} AcceptedHasNoPath(
      dtd: Dtd, open: set<Text>, cdata: bool, enc: Encoding, text: Text, i: nat, pool: Text, path: seq<Text>)
    requires i <= |text| && Append(dtd, open, cdata, enc, text, i, pool).err.NoError?
    requires IsPath(dtd, Refs(enc, text, i), path)
    ensures !Returns(open, path)
    decreases |dtd.entities.Keys - open|, |text| - i
  {
    hide NextAction, AddSpace;
    if path != [] {
      var (action, next) := NextAction(enc, text, i);
      match action
      case Stop(_) =>
      case Put(bytes) => AcceptedHasNoPath(dtd, open, cdata, enc, text, next, pool + bytes, path);
      case PutSpace => AcceptedHasNoPath(dtd, open, cdata, enc, text, next, AddSpace(cdata, pool), path);
      case Reference(name) =>
        if name !in dtd.entities {
          AcceptedHasNoPath(dtd, open, cdata, enc, text, next, pool, path);
        } else {
          FewerClosed(dtd, open, name);
          var inner := dtd.entities[name].text.value;
          if path[0] == name {
            if |path| > 1 {
              AcceptedHasNoPath(dtd, open + {name}, cdata, dtd.internal, inner, 0, pool, path[1..]);
              ReturnsAfter(open, name, path[1..]);
              assert [name] + path[1..] == path;
            }
          } else {
            var pool' := Append(dtd, open + {name}, cdata, dtd.internal, inner, 0, pool).pool;
            AcceptedHasNoPath(dtd, open, cdata, enc, text, next, pool', path);
          }
        }
    }
  }

  /** No Recursion (section 4.1 of XML 1.0): when the entities a value can reach are declared,
      internal and well formed, the value is refused, with the recursion error, exactly when a path
      of references from it comes back to itself or to an open entity. With none open it is a path
      into a cycle. */
  lemma {:induction false} RecursionErrorIffCycle(
      dtd: Dtd, names: set<Text>, open: set<Text>, cdata: bool, enc: Encoding, text: Text)
    requires WellFormed(enc, text, 0) && Refs(enc, text, 0) <= names && SoundNames(dtd, names)
    ensures var err := Store(dtd, open, cdata, enc, text).err;
      && (err.RecursiveEntityRef? <==> exists path :: IsPath(dtd, Refs(enc, text, 0), path) && Returns(open, path))
      && (!err.RecursiveEntityRef? ==> err.NoError?)
  {
    hide Append, Refs, IsPath, Returns;
    var path := RecursionErrorHasPath(dtd, names, open, cdata, enc, text, 0, []);
    if Append(dtd, open, cdata, enc, text, 0, []).err.NoError? {
      forall p | IsPath(dtd, Refs(enc, text, 0), p)
        ensures !Returns(open, p)
      {
        AcceptedHasNoPath(dtd, open, cdata, enc, text, 0, [], p);
      }
    } else {
      assert IsPath(dtd, Refs(enc, text, 0), path) && Returns(open, path);
    }
  }
}
