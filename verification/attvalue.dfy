/** Attribute-value expansion: storeAttributeValue and appendAttributeValue of xmlparse.c in the
    build where XML_Char is a byte of UTF-8. */
module AttributeValues {
  import opened Common
  import opened XmlTok
  import opened Transcode

  type Text = seq<byte>

  datatype XmlError =
    | NoError | InvalidToken | BadCharRef | UndefinedEntity | RecursiveEntityRef | BinaryEntityRef
    | AttributeExternalEntityRef
    | Aborted // the call of abort() for a token the switch does not list

  /** What a declaration fixes of an ENTITY: whether it has a notation, and its replacement text
      unless it is external. */
  datatype EntityDef = EntityDef(notation: bool, text: Option<Text>)

  /** The parts of the DTD that expansion reads. Replacement texts are in the encoding `internal`. */
  datatype Dtd = Dtd(internal: Encoding, entities: map<Text, EntityDef>, complete: bool)

  // ---------------------------------------------------------------- references

  /** XmlPredefinedEntityName. */
  function Predefined(name: Text): (r: Option<byte>)
    ensures r.Some? ==> SPACE < r.value < 0x40
  {
    if name == [0x6C, 0x74] then Some(0x3C)                          // lt
    else if name == [0x67, 0x74] then Some(0x3E)                     // gt
    else if name == [0x61, 0x6D, 0x70] then Some(0x26)               // amp
    else if name == [0x71, 0x75, 0x6F, 0x74] then Some(0x22)         // quot
    else if name == [0x61, 0x70, 0x6F, 0x73] then Some(0x27)         // apos
    else None
  }

  function HexDigit(result: bv32, c: byte): bv32 {
    if 0x30 <= c <= 0x39 then (result << 4) | ((c - 0x30) as bv32)
    else if 0x41 <= c <= 0x46 then (result << 4) + 10 + ((c - 0x41) as bv32)
    else if 0x61 <= c <= 0x66 then (result << 4) + 10 + ((c - 0x61) as bv32)
    else result
  }

  function DecimalDigit(result: bv32, c: byte): bv32 { result * 10 + (c as bv32) - 0x30 }

  /** The digit loops of charRefNumber, which give up as soon as the number is too large. */
  function Digits(digits: Text, hex: bool, result: bv32): Option<bv32>
    decreases |digits|
  {
    if digits == [] then Some(result)
    else
      var r := if hex then HexDigit(result, digits[0]) else DecimalDigit(result, digits[0]);
      if r >= 0x110000 then None else Digits(digits[1..], hex, r)
  }

  /** checkCharRefNumber: surrogates, control characters and the two non-characters are refused. */
  predicate LegalCharacter(c: bv32) {
    && !(0xD800 <= c <= 0xDFFF)
    && (c < 0x20 ==> c == 0x9 || c == 0xA || c == 0xD)
    && c != 0xFFFE && c != 0xFFFF && c < 0x110000
  }

  /** XmlCharRefNumber of the reference `&#...;`, None for its negative results. */
  function CharRefNumber(ref: Text): (r: Option<bv32>)
    requires |ref| >= 4
    ensures r.Some? ==> LegalCharacter(r.value)
  {
    var hex := ref[2] == LOWER_X;
    match Digits(ref[if hex then 3 else 2..|ref| - 1], hex, 0)
    case None => None
    case Some(c) => if LegalCharacter(c) then Some(c) else None
  }

  // ---------------------------------------------------------------- one token

  /** What one token of a value asks for. */
  datatype Action = Stop(err: XmlError) | Put(bytes: Text) | PutSpace | Reference(name: Text)

  /** The token at `i` of `text`, and where the next one starts. */
  function NextAction(enc: Encoding, text: Text, i: nat): (r: (Action, nat))
    requires i <= |text|
    ensures !r.0.Stop? ==> i < r.1 <= |text|
  {
    match AttributeValueTok(enc, text, i)
    case NoInput => (Stop(NoError), i)
    case Partial => (Stop(InvalidToken), i)
    case TrailingCr => (PutSpace, i + 1)
    case Token(tok, next) =>
      (match tok
       case Invalid => (Stop(InvalidToken), i)
       case DataChars => (Put(text[i..next]), next)
       case CharRef =>
         (match CharRefNumber(text[i..next])
          case None => (Stop(BadCharRef), i)
          case Some(c) => (if c == 0x20 then PutSpace else Put(Utf8Encode(c)), next))
       case EntityRef =>
         (match Predefined(text[i + 1..next - 1])
          case Some(ch) => (Put([ch]), next)
          case None => (Reference(text[i + 1..next - 1]), next))
       case _ => (PutSpace, next))
    case PartialChar => (Stop(Aborted), i)
  }

  /** A white-space token. Outside CDATA it is dropped at the start and after a space. */
  function AddSpace(cdata: bool, pool: Text): Text {
    if !cdata && (pool == [] || pool[|pool| - 1] == SPACE) then pool else pool + [SPACE]
  }

  // ---------------------------------------------------------------- expansion

  datatype Outcome = Outcome(err: XmlError, pool: Text)

  /** Why an entity reference is refused, when it is; NoError also for a reference that is skipped
      because its declaration may not have been read. */
  function Refusal(dtd: Dtd, open: set<Text>, name: Text): XmlError {
    if name !in dtd.entities then (if dtd.complete then UndefinedEntity else NoError)
    else if name in open then RecursiveEntityRef
    else if dtd.entities[name].notation then BinaryEntityRef
    else if dtd.entities[name].text.None? then AttributeExternalEntityRef
    else NoError
  }

  /** appendAttributeValue from position `i` of `text`, `open` being the open entities. */
  function Append(dtd: Dtd, open: set<Text>, cdata: bool, enc: Encoding, text: Text, i: nat, pool: Text): Outcome
    requires i <= |text|
    decreases |dtd.entities.Keys - open|, |text| - i
  {
    var (action, next) := NextAction(enc, text, i);
    match action
    case Stop(err) => Outcome(err, pool)
    case Put(bytes) => Append(dtd, open, cdata, enc, text, next, pool + bytes)
    case PutSpace => Append(dtd, open, cdata, enc, text, next, AddSpace(cdata, pool))
    case Reference(name) =>
      var refusal := Refusal(dtd, open, name);
      if !refusal.NoError? then Outcome(refusal, pool)
      else if name !in dtd.entities then Append(dtd, open, cdata, enc, text, next, pool)
      else
        FewerClosed(dtd, open, name);
        var inner := Append(dtd, open + {name}, cdata, dtd.internal, dtd.entities[name].text.value, 0, pool);
        if inner.err.NoError? then Append(dtd, open, cdata, enc, text, next, inner.pool) else inner
  }

  lemma FewerClosed(dtd: Dtd, open: set<Text>, name: Text)
    requires name in dtd.entities && name !in open
    ensures |dtd.entities.Keys - (open + {name})| < |dtd.entities.Keys - open|
  {
    assert dtd.entities.Keys - open == (dtd.entities.Keys - (open + {name})) + {name};
  }

  /** storeAttributeValue on a pool with no unfinished string. */
  function Store(dtd: Dtd, open: set<Text>, cdata: bool, enc: Encoding, text: Text): Outcome {
    var r := Append(dtd, open, cdata, enc, text, 0, []);
    if !r.err.NoError? then r
    else Outcome(NoError, (if cdata then r.pool else Chopped(r.pool)) + [0])
  }

  function Chopped(pool: Text): Text {
    if pool != [] && pool[|pool| - 1] == SPACE then pool[..|pool| - 1] else pool
  }

  // ---------------------------------------------------------------- the parser's form

  class Entity {
    const def: EntityDef
    var open: bool

    constructor (def: EntityDef)
      ensures this.def == def && !open
    {
      this.def := def;
      open := false;
    }
  }

  class Parser {
    const internal: Encoding
    const generalEntities: map<Text, Entity>
    const complete: bool
    /** The unfinished string of the pool that receives the value. */
    var pool: Text

    constructor (internal: Encoding, generalEntities: map<Text, Entity>, complete: bool)
      ensures this.internal == internal && this.generalEntities == generalEntities && this.complete == complete
      ensures pool == []
    {
      this.internal, this.generalEntities, this.complete := internal, generalEntities, complete;
      pool := [];
    }

    /** The hash table holds one entity per name. */
    ghost predicate Valid() {
      forall m, n :: m in generalEntities && n in generalEntities && generalEntities[m] == generalEntities[n]
        ==> m == n
    }

    ghost function TheDtd(): Dtd {
      Dtd(internal, map n | n in generalEntities :: generalEntities[n].def, complete)
    }

    ghost function OpenNames(): set<Text>
      reads generalEntities.Values
    {
      set n | n in generalEntities && generalEntities[n].open
    }

    method AppendAttributeValue(cdata: bool, enc: Encoding, text: Text) returns (err: XmlError)
      requires Valid()
      modifies this, generalEntities.Values
      ensures Outcome(err, pool) == Append(TheDtd(), old(OpenNames()), cdata, enc, text, 0, old(pool))
      ensures forall n :: n in generalEntities ==> generalEntities[n].open == old(generalEntities[n].open)
      decreases |generalEntities.Keys - OpenNames()|, 1
    {
      hide NextAction, AddSpace;
      var ptr := 0;
      ghost var dtd, open := TheDtd(), OpenNames();
      while true
        invariant ptr <= |text| && OpenNames() == open
        invariant forall n :: n in generalEntities ==> generalEntities[n].open == old(generalEntities[n].open)
        invariant Append(dtd, open, cdata, enc, text, ptr, pool)
               == Append(dtd, open, cdata, enc, text, 0, old(pool))
        decreases |text| - ptr
      {
        var (action, next) := NextAction(enc, text, ptr);
        match action {
          case Stop(e) => return e;
          case Put(bytes) => pool := pool + bytes;
          case PutSpace => pool := AddSpace(cdata, pool);
          case Reference(name) =>
            if name !in generalEntities {
              if complete {
                return UndefinedEntity;
              }
            } else {
              var entity := generalEntities[name];
              if entity.open {
                return RecursiveEntityRef;
              } else if entity.def.notation {
                return BinaryEntityRef;
              } else if entity.def.text.None? {
                return AttributeExternalEntityRef;
              }
              assert Refusal(dtd, open, name).NoError?;
              err := ExpandEntity(cdata, name);
              if !err.NoError? {
                return;
              }
            }
        }
        ptr := next;
      }
    }

    /** The branch of appendAttributeValue for a closed internal entity. */
    method ExpandEntity(cdata: bool, name: Text) returns (err: XmlError)
      requires Valid() && name in generalEntities && !generalEntities[name].open
      requires generalEntities[name].def.text.Some?
      modifies this, generalEntities.Values
      ensures var dtd := TheDtd();
        Outcome(err, pool) == Append(dtd, old(OpenNames()) + {name}, cdata, dtd.internal,
                                     dtd.entities[name].text.value, 0, old(pool))
      ensures forall n :: n in generalEntities ==> generalEntities[n].open == old(generalEntities[n].open)
      decreases |generalEntities.Keys - OpenNames()|, 0
    {
      hide Append;
      hide Valid;
      FewerClosed(TheDtd(), OpenNames(), name);
      Mark(name, true);
      err := AppendAttributeValue(cdata, internal, generalEntities[name].def.text.value);
      Mark(name, false);
    }

    method Mark(name: Text, open: bool)
      requires Valid() && name in generalEntities
      modifies generalEntities.Values
      ensures generalEntities[name].open == open
      ensures forall n :: n in generalEntities && n != name ==> generalEntities[n].open == old(generalEntities[n].open)
      ensures open ==> OpenNames() == old(OpenNames()) + {name}
    {
      generalEntities[name].open := open;
    }

    method StoreAttributeValue(cdata: bool, enc: Encoding, text: Text) returns (err: XmlError)
      requires Valid() && pool == []
      modifies this, generalEntities.Values
      ensures Outcome(err, pool) == Store(TheDtd(), old(OpenNames()), cdata, enc, text)
      ensures forall n :: n in generalEntities ==> generalEntities[n].open == old(generalEntities[n].open)
    {
      err := AppendAttributeValue(cdata, enc, text);
      if !err.NoError? {
        return;
      }
      if !cdata && |pool| > 0 && pool[|pool| - 1] == SPACE {
        pool := pool[..|pool| - 1];
      }
      pool := pool + [0];
    }
  }
}
