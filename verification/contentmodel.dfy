/** Element declarations: the role handlers of xmlrole.c for the tokens after `<!ELEMENT name`,
    and the connector array of doProlog, as a pushdown automaton. */
module ContentModels {
  import opened Common

  datatype Token =
    | PrologS
    | Name(name: string) | PrefixedName(name: string)
    | NameQuestion(name: string) | NameAsterisk(name: string) | NamePlus(name: string)
    | PoundName(name: string)
    | OpenParen | CloseParen | CloseParenQuestion | CloseParenAsterisk | CloseParenPlus
    | Comma | Or | ParamEntityRef | OtherToken

  datatype Role =
    | RoleNone | ContentEmpty | ContentAny | ContentPcdata
    | ContentElement | ContentElementOpt | ContentElementRep | ContentElementPlus
    | GroupOpen | GroupClose | GroupCloseOpt | GroupCloseRep | GroupClosePlus
    | GroupSequence | GroupChoice | InnerParamEntityRef | RoleError

  datatype Handler =
    | Element1 | Element2 | Element3 | Element4 | Element5 | Element6 | Element7 | DeclClose | Error

  // ---------------------------------------------------------------- the grammar

  datatype Suffix = Once | Optional | Repeated | OneOrMore

  /** A content particle (production 48 of XML 1.0), a group being a choice or a sequence
      (productions 49 and 50). */
  datatype Particle =
    | Child(name: string, prefixed: bool, suffix: Suffix)
    | Group(choice: bool, items: seq<Particle>, suffix: Suffix)

  /** contentspec (production 46). In a Mixed model the star is optional only without names. */
  datatype ContentSpec =
    | Empty
    | Any
    | Mixed(names: seq<(string, bool)>, star: bool)
    | Children(group: Particle)

  predicate WellFormed(p: Particle) {
    match p
    case Child(_, prefixed, suffix) => prefixed ==> suffix.Once?
    case Group(choice, items, _) =>
      |items| >= (if choice then 2 else 1) && forall q | q in items :: WellFormed(q)
  }

  predicate IsContentSpec(spec: ContentSpec) {
    match spec
    case Empty => true
    case Any => true
    case Mixed(names, star) => names != [] ==> star
    case Children(group) => group.Group? && WellFormed(group)
  }

  function ChildToken(name: string, prefixed: bool, suffix: Suffix): Token {
    match suffix
    case Once => if prefixed then PrefixedName(name) else Name(name)
    case Optional => NameQuestion(name)
    case Repeated => NameAsterisk(name)
    case OneOrMore => NamePlus(name)
  }

  function CloseToken(suffix: Suffix): Token {
    match suffix
    case Once => CloseParen
    case Optional => CloseParenQuestion
    case Repeated => CloseParenAsterisk
    case OneOrMore => CloseParenPlus
  }

  function Separator(choice: bool): Token { if choice then Or else Comma }

  function Print(p: Particle): seq<Token>
    decreases p, 0
  {
    match p
    case Child(name, prefixed, suffix) => [ChildToken(name, prefixed, suffix)]
    case Group(choice, items, suffix) => [OpenParen] + PrintItems(choice, items) + [CloseToken(suffix)]
  }

  function PrintItems(choice: bool, items: seq<Particle>): seq<Token>
    decreases items, 1
  {
    if items == [] then []
    else if |items| == 1 then Print(items[0])
    else PrintItems(choice, items[..|items| - 1]) + [Separator(choice)] + Print(items[|items| - 1])
  }

  function PrintNames(names: seq<(string, bool)>): seq<Token> {
    if names == [] then []
    else PrintNames(names[..|names| - 1])
         + [Or, ChildToken(names[|names| - 1].0, names[|names| - 1].1, Once)]
  }

  function PrintSpec(spec: ContentSpec): seq<Token> {
    match spec
    case Empty => [Name("EMPTY")]
    case Any => [Name("ANY")]
    case Mixed(names, star) =>
      [OpenParen, PoundName("PCDATA")] + PrintNames(names) + [if star then CloseParenAsterisk else CloseParen]
    case Children(group) => Print(group)
  }

  // ---------------------------------------------------------------- the automaton

  /** What the connector array holds for an open group. */
  datatype Connector = Unset | Sequence | Choice

  /** The state between tokens: the handler, and the connectors of the open groups. */
  datatype Config = Config(handler: Handler, groups: seq<Connector>)

  /** Tokens without effect: white space, and outside the document entity parameter-entity
      references. */
  predicate Ignored(documentEntity: bool, t: Token) { t.PrologS? || (t.ParamEntityRef? && !documentEntity) }

  function Significant(documentEntity: bool, tokens: seq<Token>): seq<Token> {
    if tokens == [] then []
    else
      var rest := Significant(documentEntity, tokens[1..]);
      if Ignored(documentEntity, tokens[0]) then rest else [tokens[0]] + rest
  }

  function SuffixOfClose(t: Token): Option<Suffix> {
    match t
    case CloseParen => Some(Once)
    case CloseParenQuestion => Some(Optional)
    case CloseParenAsterisk => Some(Repeated)
    case CloseParenPlus => Some(OneOrMore)
    case _ => None
  }

  predicate IsChildToken(t: Token) {
    t.Name? || t.PrefixedName? || t.NameQuestion? || t.NameAsterisk? || t.NamePlus?
  }

  /** A comma or bar in the innermost group. */
  function Connect(groups: seq<Connector>, c: Connector): (r: Option<seq<Connector>>)
    requires groups != []
    ensures r.Some? ==> |r.value| == |groups|
  {
    var top := groups[|groups| - 1];
    if top == Unset || top == c then Some(groups[..|groups| - 1] + [c]) else None
  }

  predicate IsName(t: Token, name: string) { t.Name? && t.name == name }

  predicate IsPoundName(t: Token, name: string) { t.PoundName? && t.name == name }

  /** One significant token; None is a role error or a connector error. */
  function Step(c: Config, t: Token): Option<Config> {
    match c.handler
    case Element1 =>
      if IsName(t, "EMPTY") || IsName(t, "ANY") then Some(Config(DeclClose, []))
      else if t.OpenParen? then Some(Config(Element2, [Unset]))
      else None
    case Element3 =>
      if t.CloseParen? || t.CloseParenAsterisk? then Some(Config(DeclClose, []))
      else if t.Or? then Some(c.(handler := Element4))
      else None
    case Element4 =>
      if t.Name? || t.PrefixedName? then Some(c.(handler := Element5)) else None
    case Element5 =>
      if t.CloseParenAsterisk? then Some(Config(DeclClose, []))
      else if t.Or? then Some(c.(handler := Element4))
      else None
    case Element7 =>
      if c.groups == [] then None
      else if SuffixOfClose(t).Some? then
        Some(if |c.groups| == 1 then Config(DeclClose, []) else Config(Element7, c.groups[..|c.groups| - 1]))
      else if t.Comma? || t.Or? then
        match Connect(c.groups, if t.Comma? then Sequence else Choice)
        case None => None
        case Some(groups) => Some(Config(Element6, groups))
      else None
    case DeclClose => None
    case Error => None
    case _ => // Element2 and Element6
      if c.handler.Element2? && IsPoundName(t, "PCDATA") then Some(c.(handler := Element3))
      else if t.OpenParen? then Some(Config(Element6, c.groups + [Unset]))
      else if IsChildToken(t) then Some(c.(handler := Element7))
      else None
  }

  function Run(documentEntity: bool, c: Config, tokens: seq<Token>): Option<Config>
    decreases |tokens|
  {
    if tokens == [] then Some(c)
    else if Ignored(documentEntity, tokens[0]) && !c.handler.Error? then Run(documentEntity, c, tokens[1..])
    else match Step(c, tokens[0])
      case None => None
      case Some(c') => Run(documentEntity, c', tokens[1..])
  }

  const START := Config(Element1, [])

  /** The tokens after the element name lead to the end of the declaration without an error. */
  predicate Accepted(documentEntity: bool, tokens: seq<Token>) {
    var r := Run(documentEntity, START, tokens);
    r.Some? && r.value.handler.DeclClose?
  }

  // ---------------------------------------------------------------- the code's form

  /** What a handler of xmlrole.c returns, and the handler and level that it leaves. */
  function RoleOf(documentEntity: bool, h: Handler, level: int, t: Token): (Role, Handler, int) {
    if h.Error? then (RoleNone, Error, level)
    else if t.PrologS? then (RoleNone, h, level)
    else if h.Element1? && IsName(t, "EMPTY") then (ContentEmpty, DeclClose, level)
    else if h.Element1? && IsName(t, "ANY") then (ContentAny, DeclClose, level)
    else if h.Element1? && t.OpenParen? then (GroupOpen, Element2, 1)
    else if h.Element2? && IsPoundName(t, "PCDATA") then (ContentPcdata, Element3, level)
    else if h.Element2? && t.OpenParen? then (GroupOpen, Element6, 2)
    else if h.Element6? && t.OpenParen? then (GroupOpen, Element6, level + 1)
    else if (h.Element2? || h.Element6?) && (t.Name? || t.PrefixedName?) then (ContentElement, Element7, level)
    else if (h.Element2? || h.Element6?) && t.NameQuestion? then (ContentElementOpt, Element7, level)
    else if (h.Element2? || h.Element6?) && t.NameAsterisk? then (ContentElementRep, Element7, level)
    else if (h.Element2? || h.Element6?) && t.NamePlus? then (ContentElementPlus, Element7, level)
    else if h.Element3? && (t.CloseParen? || t.CloseParenAsterisk?) then (GroupCloseRep, DeclClose, level)
    else if h.Element5? && t.CloseParenAsterisk? then (GroupCloseRep, DeclClose, level)
    else if (h.Element3? || h.Element5?) && t.Or? then (RoleNone, Element4, level)
    else if h.Element4? && (t.Name? || t.PrefixedName?) then (ContentElement, Element5, level)
    else if h.Element7? && SuffixOfClose(t).Some? then
      (match t
       case CloseParenAsterisk => GroupCloseRep
       case CloseParenQuestion => GroupCloseOpt
       case CloseParenPlus => GroupClosePlus
       case _ => GroupClose,
       if level - 1 == 0 then DeclClose else Element7, level - 1)
    else if h.Element7? && t.Comma? then (GroupSequence, Element6, level)
    else if h.Element7? && t.Or? then (GroupChoice, Element6, level)
    else if t.ParamEntityRef? && !documentEntity then (InnerParamEntityRef, h, level)
    else (RoleError, Error, level)
  }

  function ConnectorOf(c: char): Connector {
    if c == ',' then Sequence else if c == '|' then Choice else Unset
  }

  function ConnectorsOf(s: seq<char>): (r: seq<Connector>)
    ensures |r| == |s| && forall k :: 0 <= k < |s| ==> r[k] == ConnectorOf(s[k])
  {
    if s == [] then [] else ConnectorsOf(s[..|s| - 1]) + [ConnectorOf(s[|s| - 1])]
  }

  predicate InGroup(h: Handler) { !h.Element1? && !h.DeclClose? && !h.Error? }

  predicate ClosesGroup(role: Role) {
    role.GroupClose? || role.GroupCloseOpt? || role.GroupCloseRep? || role.GroupClosePlus?
  }

  function WithoutLast(groups: seq<Connector>): seq<Connector> {
    if groups == [] then [] else groups[..|groups| - 1]
  }

  /** What doProlog makes of a role: the groups that are open afterwards, or an error. */
  function AfterRole(role: Role, h: Handler, groups: seq<Connector>): Option<Config> {
    match role
    case RoleError => None
    case GroupOpen => Some(Config(h, groups + [Unset]))
    case GroupSequence =>
      (match if groups == [] then None else Connect(groups, Sequence)
       case None => None
       case Some(groups') => Some(Config(h, groups')))
    case GroupChoice =>
      (match if groups == [] then None else Connect(groups, Choice)
       case None => None
       case Some(groups') => Some(Config(h, groups')))
    case _ =>
      Some(Config(h, if !InGroup(h) then [] else if ClosesGroup(role) then WithoutLast(groups) else groups))
  }

  /** The level that goes with a role is the number of open groups, and commas and bars stand in groups. */
  predicate LevelFits(c: Config, level: int, role: Role, h: Handler, l: int) {
    var after := AfterRole(role, h, c.groups);
    && (!role.RoleError? && InGroup(h) ==> l >= 1 && (after.Some? ==> l == |after.value.groups|))
    && (!role.RoleError? ==> !h.Error? && (h.Element2? ==> l == 1))
    && (role.GroupOpen? ==> InGroup(h))
    && (role.GroupSequence? || role.GroupChoice? ==> h.Element6? && InGroup(c.handler) && l == level)
  }

  /** A role and the connector check together give a step of the automaton. */
  predicate RoleFits(documentEntity: bool, c: Config, level: int, t: Token) {
    var (role, h, l) := RoleOf(documentEntity, c.handler, level, t);
    && (if Ignored(documentEntity, t) then Some(c) else Step(c, t)) == AfterRole(role, h, c.groups)
    && LevelFits(c, level, role, h, l)
  }

  lemma RoleThenConnector(documentEntity: bool, c: Config, level: int, t: Token)
    requires !c.handler.Error? && (if InGroup(c.handler) then level == |c.groups| >= 1 else c.groups == [])
    requires c.handler.Element2? ==> level == 1
    ensures RoleFits(documentEntity, c, level, t)
  {
    hide RoleOf, Step, AfterRole, Ignored;
    if Ignored(documentEntity, t) {
      IgnoredRole(documentEntity, c, level, t);
    } else {
      match c.handler
      case Element2 => RoleInGroup(documentEntity, c, level, t);
      case Element6 => RoleInGroup(documentEntity, c, level, t);
      case Element7 => RoleBehindChild(documentEntity, c, level, t);
      case _ => RoleOutside(documentEntity, c, level, t);
    }
  }

  lemma IgnoredRole(documentEntity: bool, c: Config, level: int, t: Token)
    requires !c.handler.Error? && (if InGroup(c.handler) then level == |c.groups| >= 1 else c.groups == [])
    requires c.handler.Element2? ==> level == 1
    requires Ignored(documentEntity, t)
    ensures RoleFits(documentEntity, c, level, t)
  {
    hide Step, Connect, RoleOf, Ignored;
    IgnoredKeeps(documentEntity, c.handler, level, t);
  }

  lemma IgnoredKeeps(documentEntity: bool, h: Handler, level: int, t: Token)
    requires !h.Error? && Ignored(documentEntity, t)
    ensures var r := RoleOf(documentEntity, h, level, t);
      (r.0.RoleNone? || r.0.InnerParamEntityRef?) && r.1 == h && r.2 == level
  {
  }

  lemma RoleInGroup(documentEntity: bool, c: Config, level: int, t: Token)
    requires c.handler.Element2? || c.handler.Element6?
    requires level == |c.groups| >= 1 && (c.handler.Element2? ==> level == 1) && !Ignored(documentEntity, t)
    ensures RoleFits(documentEntity, c, level, t)
  {
    hide Connect;
  }

  lemma RoleBehindChild(documentEntity: bool, c: Config, level: int, t: Token)
    requires c.handler.Element7? && level == |c.groups| >= 1 && !Ignored(documentEntity, t)
    ensures RoleFits(documentEntity, c, level, t)
  {
    hide Connect;
  }

  lemma RoleOutside(documentEntity: bool, c: Config, level: int, t: Token)
    requires !c.handler.Error? && !c.handler.Element2? && !c.handler.Element6? && !c.handler.Element7?
    requires if InGroup(c.handler) then level == |c.groups| >= 1 else c.groups == []
    requires !Ignored(documentEntity, t)
    ensures RoleFits(documentEntity, c, level, t)
  {
    hide Connect;
    assert c.groups == [] ==> c.groups + [Unset] == [Unset];
  }

  /** PROLOG_STATE, and the connector array of the parser. */
  class Prolog {
    const documentEntity: bool
    var handler: Handler
    var level: int
    var groupConnector: array<char>
    var groupSize: nat

    constructor (documentEntity: bool)
      ensures this.documentEntity == documentEntity && Valid() && TheConfig() == START && fresh(groupConnector)
    {
      this.documentEntity := documentEntity;
      handler, level, groupSize := Element1, 0, 0;
      groupConnector := new char[0];
    }

    /** Every open group has its place in the connector array. */
    ghost predicate Valid()
      reads this, groupConnector
    {
      groupConnector.Length == groupSize && (InGroup(handler) ==> 1 <= level < groupSize)
      && (handler.Element2? ==> level == 1)
    }

    /** The configuration of the automaton that the fields stand for. */
    ghost function TheConfig(): Config
      requires Valid()
      reads this, groupConnector
    {
      Config(handler, if InGroup(handler) then ConnectorsOf(groupConnector[1..level + 1]) else [])
    }

    lemma HandlerOfConfig()
      requires Valid()
      ensures TheConfig().handler == handler
    {
    }

    /** The closing of a declaration, and the start of the next one up to its name. */
    method NextDeclaration()
      requires Valid() && handler.DeclClose?
      modifies this`handler
      ensures Valid() && TheConfig() == START
    {
      handler := Element1;
    }

    static lemma OneMoreUnset(s: seq<char>)
      ensures ConnectorsOf(s + ['\0']) == ConnectorsOf(s) + [Unset] && ConnectorsOf([]) == []
    {
      assert (s + ['\0'])[..|s|] == s;
    }

    /** XML_ROLE_GROUP_OPEN. */
    method OpenGroup()
      requires groupConnector.Length == groupSize && 1 <= level <= groupSize + 1
      requires groupSize == 0 ==> level == 1
      requires groupSize > 0 ==> level <= groupSize
      modifies this`groupConnector, this`groupSize, groupConnector
      ensures groupConnector.Length == groupSize > level
      ensures groupConnector == old(groupConnector) || fresh(groupConnector)
      ensures ConnectorsOf(groupConnector[1..level + 1])
           == (if level > 1 then old(ConnectorsOf(groupConnector[1..level])) else []) + [Unset]
    {
      hide ConnectorsOf;
      ghost var was := if level > 1 then groupConnector[1..level] else [];
      OneMoreUnset(was);
      if level >= groupSize {
        GrowConnectors();
      }
      assert level > 1 ==> groupConnector[1..level] == was;
      groupConnector[level] := '\0';
      assert groupConnector[1..level + 1] == was + ['\0'];
    }

    /** realloc, or malloc of 32 the first time. */
    method GrowConnectors()
      requires groupConnector.Length == groupSize
      modifies this`groupConnector, this`groupSize
      ensures fresh(groupConnector) && groupConnector.Length == groupSize
      ensures groupSize == if old(groupSize) > 0 then old(groupSize) * 2 else 32
      ensures groupConnector[..old(groupSize)] == old(groupConnector[..])
    {
      var grown := new char[if groupSize > 0 then groupSize * 2 else 32](_ => '?');
      forall k | 0 <= k < groupSize {
        grown[k] := groupConnector[k];
      }
      groupConnector, groupSize := grown, grown.Length;
    }

    /** XML_ROLE_GROUP_SEQUENCE and XML_ROLE_GROUP_CHOICE. */
    method ConnectGroup(c: char, other: char) returns (ok: bool)
      requires Valid() && InGroup(handler) && {c, other} == {',', '|'}
      modifies groupConnector
      ensures var groups := old(ConnectorsOf(groupConnector[1..level + 1]));
        var r := Connect(groups, ConnectorOf(c));
        ok == r.Some? && (ok ==> ConnectorsOf(groupConnector[1..level + 1]) == r.value)
    {
      if groupConnector[level] == other {
        return false;
      }
      ghost var was := groupConnector[1..level];
      groupConnector[level] := c;
      assert groupConnector[1..level + 1] == was + [c];
      assert old(groupConnector[1..level + 1])[..level - 1] == was;
      return true;
    }

    static lemma CommaAndBar()
      ensures ConnectorOf(',') == Sequence && ConnectorOf('|') == Choice
    {
    }

    method PerformOpen(role: Role, h: Handler, l: int) returns (ok: bool)
      requires Valid() && !handler.Error? && LevelFits(TheConfig(), level, role, h, l) && role.GroupOpen?
      modifies this, groupConnector
      ensures groupConnector == old(groupConnector) || fresh(groupConnector)
      ensures var r := AfterRole(role, h, old(TheConfig()).groups);
        ok == r.Some? && (ok ==> Valid() && TheConfig() == r.value && !handler.Error?)
    {
      handler, level := h, l;
      OpenGroup();
      return true;
    }

    method PerformConnect(role: Role, h: Handler, l: int, c: char, other: char) returns (ok: bool)
      requires Valid() && !handler.Error? && LevelFits(TheConfig(), level, role, h, l)
      requires if role.GroupSequence? then c == ',' && other == '|' else role.GroupChoice? && c == '|' && other == ','
      modifies this, groupConnector
      ensures groupConnector == old(groupConnector) || fresh(groupConnector)
      ensures var r := AfterRole(role, h, old(TheConfig()).groups);
        ok == r.Some? && (ok ==> Valid() && TheConfig() == r.value && !handler.Error?)
    {
      hide Connect, ConnectorOf, ConnectorsOf;
      CommaAndBar();
      handler, level := h, l;
      ok := ConnectGroup(c, other);
    }

    static lemma ConnectorsOfPrefix(s: seq<char>, n: nat)
      requires n <= |s|
      ensures ConnectorsOf(s[..n]) == ConnectorsOf(s)[..n]
    {
    }

    /** Such a role keeps the groups or closes the innermost one, or it leaves them all. */
    static lemma OtherRole(c: Config, level: int, role: Role, h: Handler, l: int)
      requires LevelFits(c, level, role, h, l)
      requires !role.GroupOpen? && !role.GroupSequence? && !role.GroupChoice? && !role.RoleError?
      ensures !h.Error? && (h.Element2? ==> l == 1)
      ensures AfterRole(role, h, c.groups) == Some(Config(h, if InGroup(h) && 0 <= l <= |c.groups| then c.groups[..l] else []))
      ensures InGroup(h) ==> 1 <= l <= |c.groups|
    {
      if InGroup(h) {
        assert c.groups[..|c.groups|] == c.groups;
      }
    }

    /** The roles for which the connector array stays as it is. */
    method PerformOther(role: Role, h: Handler, l: int) returns (ok: bool)
      requires Valid() && !handler.Error? && LevelFits(TheConfig(), level, role, h, l)
      requires !role.GroupOpen? && !role.GroupSequence? && !role.GroupChoice? && !role.RoleError?
      modifies this, groupConnector
      ensures groupConnector == old(groupConnector) || fresh(groupConnector)
      ensures var r := AfterRole(role, h, old(TheConfig()).groups);
        ok == r.Some? && (ok ==> Valid() && TheConfig() == r.value && !handler.Error?)
    {
      hide ConnectorsOf, LevelFits;
      ghost var c := TheConfig();
      OtherRole(c, level, role, h, l);
      if InGroup(h) {
        ConnectorsOfPrefix(groupConnector[1..level + 1], l);
        assert groupConnector[1..level + 1][..l] == groupConnector[1..l + 1];
      }
      handler, level := h, l;
      return true;
    }

    /** What doProlog does for a role. */
    method Perform(role: Role, h: Handler, l: int) returns (ok: bool)
      requires Valid() && !handler.Error? && LevelFits(TheConfig(), level, role, h, l)
      modifies this, groupConnector
      ensures groupConnector == old(groupConnector) || fresh(groupConnector)
      ensures var r := AfterRole(role, h, old(TheConfig()).groups);
        ok == r.Some? && (ok ==> Valid() && TheConfig() == r.value && !handler.Error?)
    {
      hide Valid, TheConfig, LevelFits;
      match role {
        case RoleError =>
          handler, level := h, l;
          return false;
        case GroupOpen => ok := PerformOpen(role, h, l);
        case GroupSequence => ok := PerformConnect(role, h, l, ',', '|');
        case GroupChoice => ok := PerformConnect(role, h, l, '|', ',');
        case _ => ok := PerformOther(role, h, l);
      }
    }

    /** doProlog on one token: the handler's role, then the connector bookkeeping. */
    method Process(t: Token) returns (ok: bool)
      requires Valid() && !handler.Error?
      modifies this, groupConnector
      ensures groupConnector == old(groupConnector) || fresh(groupConnector)
      ensures var r := if Ignored(documentEntity, t) then Some(old(TheConfig())) else Step(old(TheConfig()), t);
        ok == r.Some? && (ok ==> Valid() && TheConfig() == r.value && !handler.Error?)
    {
      hide RoleOf, Step, AfterRole, LevelFits, Ignored;
      RoleThenConnector(documentEntity, TheConfig(), level, t);
      var (role, h, l) := RoleOf(documentEntity, handler, level, t);
      ok := Perform(role, h, l);
    }
  }

  lemma RunStep(documentEntity: bool, c: Config, tokens: seq<Token>, i: nat)
    requires i < |tokens| && !c.handler.Error?
    ensures var r := if Ignored(documentEntity, tokens[i]) then Some(c) else Step(c, tokens[i]);
      Run(documentEntity, c, tokens[i..]) == if r.None? then None else Run(documentEntity, r.value, tokens[i + 1..])
  {
    hide Step, Ignored;
    assert tokens[i..][1..] == tokens[i + 1..];
  }

  /** The tokens behind the name of an element declaration, up to its closing: no error in doProlog, and
      the handler at the end is the one for the closing. */
  method Declare(prolog: Prolog, tokens: seq<Token>) returns (accepted: bool)
    requires prolog.Valid() && prolog.TheConfig() == START
    modifies prolog, prolog.groupConnector
    ensures prolog.groupConnector == old(prolog.groupConnector) || fresh(prolog.groupConnector)
    ensures accepted == Accepted(prolog.documentEntity, tokens)
    ensures accepted ==> prolog.Valid() && prolog.handler.DeclClose?
  {
    hide Prolog.Valid, Prolog.TheConfig, Run, Step, Ignored;
    ghost var result := Run(prolog.documentEntity, START, tokens);
    assert tokens[0..] == tokens;
    prolog.HandlerOfConfig();
    for i := 0 to |tokens|
      invariant prolog.Valid() && !prolog.handler.Error?
      invariant prolog.groupConnector == old(prolog.groupConnector) || fresh(prolog.groupConnector)
      invariant prolog.TheConfig().handler == prolog.handler
      invariant Run(prolog.documentEntity, prolog.TheConfig(), tokens[i..]) == result
    {
      RunStep(prolog.documentEntity, prolog.TheConfig(), tokens, i);
      var ok := prolog.Process(tokens[i]);
      if !ok {
        return false;
      }
      prolog.HandlerOfConfig();
    }
    RunOfNothing(prolog.documentEntity, prolog.TheConfig());
    assert tokens[|tokens|..] == [];
    return prolog.handler.DeclClose?;
  }

  lemma RunOfNothing(documentEntity: bool, c: Config)
    ensures Run(documentEntity, c, []) == Some(c)
  {
  }

  /** Declaration after declaration, with the connector array and the level as the one before left them:
      there is no error exactly when each is accepted. */
  method DeclareAll(prolog: Prolog, declarations: seq<seq<Token>>) returns (ok: bool)
    requires prolog.Valid() && prolog.TheConfig() == START
    modifies prolog, prolog.groupConnector
    ensures ok <==> forall i :: 0 <= i < |declarations| ==> Accepted(prolog.documentEntity, declarations[i])
  {
    hide Accepted;
    for i := 0 to |declarations|
      invariant prolog.Valid() && prolog.TheConfig() == START
      invariant prolog.groupConnector == old(prolog.groupConnector) || fresh(prolog.groupConnector)
      invariant forall j :: 0 <= j < i ==> Accepted(prolog.documentEntity, declarations[j])
    {
      ok := Declare(prolog, declarations[i]);
      if !ok {
        return;
      }
      prolog.NextDeclaration();
    }
    return true;
  }
}
