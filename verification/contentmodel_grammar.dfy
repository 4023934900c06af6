/** The automaton of element declarations accepts exactly contentspec (sections 3.2, 3.2.1 and
    3.2.2 of XML 1.0). */
module ContentModelGrammar {
  import opened ContentModels
  import opened Common

  /** A run over significant tokens only. */
  function RunSteps(c: Config, tokens: seq<Token>): Option<Config>
    decreases |tokens|
  {
    if tokens == [] then Some(c)
    else match Step(c, tokens[0])
      case None => None
      case Some(c') => RunSteps(c', tokens[1..])
  }

  lemma StepLeavesError(c: Config, t: Token)
    ensures Step(c, t).Some? ==> !Step(c, t).value.handler.Error?
  {}

  lemma {:induction false} RunIgnores(documentEntity: bool, c: Config, tokens: seq<Token>)
    requires !c.handler.Error?
    ensures Run(documentEntity, c, tokens) == RunSteps(c, Significant(documentEntity, tokens))
    decreases |tokens|
  {
    hide Step;
    if tokens != [] {
      if Ignored(documentEntity, tokens[0]) {
        RunIgnores(documentEntity, c, tokens[1..]);
      } else {
        StepLeavesError(c, tokens[0]);
        if Step(c, tokens[0]).Some? {
          RunIgnores(documentEntity, Step(c, tokens[0]).value, tokens[1..]);
        }
      }
    }
  }

  predicate Ends(r: Option<Config>) { r.Some? && r.value.handler.DeclClose? }

  // ---------------------------------------------------------------- every accepted text is a model

  /** An open group: its connector, and the particles read so far. */
  datatype Frame = Frame(connector: Connector, items: seq<Particle>)

  /** `waiting` for a particle, after the parenthesis or a separator; or after a particle. */
  predicate FrameOk(f: Frame, waiting: bool) {
    && (forall p | p in f.items :: WellFormed(p))
    && (if waiting then f.connector.Unset? <==> f.items == []
        else f.items != [] && (f.connector.Unset? <==> |f.items| == 1))
  }

  function FrameText(f: Frame, waiting: bool): seq<Token> {
    [OpenParen] + PrintItems(f.connector.Choice?, f.items)
    + if waiting && f.items != [] then [Separator(f.connector.Choice?)] else []
  }

  function Connectors(outer: seq<Frame>): (r: seq<Connector>)
    ensures |r| == |outer|
  {
    if outer == [] then [] else Connectors(outer[..|outer| - 1]) + [outer[|outer| - 1].connector]
  }

  /** The tokens read in the groups around the innermost one; they all wait for it. */
  function OuterText(outer: seq<Frame>): seq<Token> {
    if outer == [] then [] else OuterText(outer[..|outer| - 1]) + FrameText(outer[|outer| - 1], true)
  }

  predicate OuterOk(outer: seq<Frame>) { forall f | f in outer :: FrameOk(f, true) }

  function ChildOf(t: Token): Particle
    requires IsChildToken(t)
  {
    match t
    case Name(n) => Child(n, false, Once)
    case PrefixedName(n) => Child(n, true, Once)
    case NameQuestion(n) => Child(n, false, Optional)
    case NameAsterisk(n) => Child(n, false, Repeated)
    case NamePlus(n) => Child(n, false, OneOrMore)
  }

  lemma ChildIsPrinted(t: Token)
    requires IsChildToken(t)
    ensures Print(ChildOf(t)) == [t] && WellFormed(ChildOf(t))
  {}

  /** A particle added to a waiting group. */
  lemma AddItem(f: Frame, p: Particle)
    requires FrameOk(f, true) && WellFormed(p)
    ensures var f' := f.(items := f.items + [p]);
      FrameOk(f', false) && FrameText(f', false) == FrameText(f, true) + Print(p)
  {
    var items := f.items + [p];
    assert items[..|items| - 1] == f.items;
    assert items[|items| - 1] == p;
  }

  lemma AddSeparator(f: Frame, c: Connector)
    requires FrameOk(f, false) && !c.Unset? && (f.connector.Unset? || f.connector == c)
    ensures var f' := f.(connector := c);
      FrameOk(f', true) && FrameText(f', true) == FrameText(f, false) + [Separator(c.Choice?)]
  {}

  lemma CloseGroup(f: Frame, suffix: Suffix)
    requires FrameOk(f, false)
    ensures var g := Group(f.connector.Choice?, f.items, suffix);
      WellFormed(g) && Print(g) == FrameText(f, false) + [CloseToken(suffix)]
  {}

  lemma CloseTokens(t: Token)
    requires SuffixOfClose(t).Some?
    ensures CloseToken(SuffixOfClose(t).value) == t
  {}

  function Inside(outer: seq<Frame>, f: Frame, waiting: bool): Config {
    Config(if waiting then Element6 else Element7, Connectors(outer) + [f.connector])
  }

  function Consumed(outer: seq<Frame>, f: Frame, waiting: bool): seq<Token> {
    OuterText(outer) + FrameText(f, waiting)
  }

  /** One token read inside the groups `outer` and `f`: other groups, or the outermost one closed. */
  lemma ReadToken(outer: seq<Frame>, f: Frame, waiting: bool, t: Token)
    returns (outer': seq<Frame>, f': Frame, waiting': bool, closed: Option<Particle>)
    requires OuterOk(outer) && FrameOk(f, waiting) && Step(Inside(outer, f, waiting), t).Some?
    ensures var c' := Step(Inside(outer, f, waiting), t).value;
      if closed.None? then
        && OuterOk(outer') && FrameOk(f', waiting') && c' == Inside(outer', f', waiting')
        && Consumed(outer', f', waiting') == Consumed(outer, f, waiting) + [t]
      else
        && c' == Config(DeclClose, []) && closed.value.Group? && WellFormed(closed.value)
        && Print(closed.value) == Consumed(outer, f, waiting) + [t]
  {
    hide FrameText, FrameOk, WellFormed, Print;
    outer', f', waiting', closed := outer, f, waiting, None;
    var groups := Connectors(outer) + [f.connector];
    assert groups[..|groups| - 1] == Connectors(outer);
    if waiting {
      if t.OpenParen? {
        outer', f' := outer + [f], Frame(Unset, []);
        assert outer'[..|outer'| - 1] == outer;
        NewFrame(f');
      } else {
        ChildIsPrinted(t);
        AddItem(f, ChildOf(t));
        f', waiting' := f.(items := f.items + [ChildOf(t)]), false;
      }
    } else if SuffixOfClose(t).Some? {
      var suffix := SuffixOfClose(t).value;
      CloseGroup(f, suffix);
      CloseTokens(t);
      var g := Group(f.connector.Choice?, f.items, suffix);
      if outer == [] {
        closed := Some(g);
        assert OuterText(outer) + FrameText(f, false) == FrameText(f, false);
      } else {
        var last := outer[|outer| - 1];
        AddItem(last, g);
        outer', f' := outer[..|outer| - 1], last.(items := last.items + [g]);
        assert OuterText(outer') + (FrameText(last, true) + (FrameText(f, false) + [t]))
            == Consumed(outer, f, false) + [t];
      }
    } else {
      var connector := if t.Comma? then Sequence else Choice;
      AddSeparator(f, connector);
      f', waiting' := f.(connector := connector), true;
    }
  }

  /** From inside the groups `outer` and `f`: the rest of an accepted run completes a model. */
  lemma {:induction false} AcceptedIsChildren(outer: seq<Frame>, f: Frame, waiting: bool, tokens: seq<Token>)
    returns (group: Particle)
    requires OuterOk(outer) && FrameOk(f, waiting) && Ends(RunSteps(Inside(outer, f, waiting), tokens))
    ensures group.Group? && WellFormed(group) && Print(group) == Consumed(outer, f, waiting) + tokens
    decreases |tokens|
  {
    hide Step, Consumed, FrameOk, WellFormed, Print;
    var t, rest := tokens[0], tokens[1..];
    var outer', f', waiting', closed := ReadToken(outer, f, waiting, t);
    assert Consumed(outer, f, waiting) + tokens == Consumed(outer, f, waiting) + [t] + rest;
    match closed {
      case None => group := AcceptedIsChildren(outer', f', waiting', rest);
      case Some(g) =>
        group := g;
        NoStepAfterEnd(rest);
    }
  }

  lemma NoStepAfterEnd(tokens: seq<Token>)
    requires Ends(RunSteps(Config(DeclClose, []), tokens))
    ensures tokens == []
  {}

  lemma NewFrame(f: Frame)
    requires f == Frame(Unset, [])
    ensures FrameOk(f, true) && FrameText(f, true) == [OpenParen]
  {}

  /** In a Mixed model: a bar and a name, or the end. */
  lemma MixedTokens(h: Handler, groups: seq<Connector>, tokens: seq<Token>)
    requires (h.Element3? || h.Element5?) && Ends(RunSteps(Config(h, groups), tokens))
    ensures tokens != []
    ensures tokens[0].Or? ==>
      && |tokens| >= 2 && (tokens[1].Name? || tokens[1].PrefixedName?)
      && Ends(RunSteps(Config(Element5, groups), tokens[2..]))
    ensures !tokens[0].Or? ==>
      |tokens| == 1 && (tokens[0].CloseParenAsterisk? || (h.Element3? && tokens[0].CloseParen?))
  {
    if tokens[0].Or? {
      var rest := tokens[1..];
      assert Ends(RunSteps(Config(Element4, groups), rest));
      assert rest[1..] == tokens[2..];
    } else {
      NoStepAfterEnd(tokens[1..]);
    }
  }

  lemma OneMoreName(names: seq<(string, bool)>, t: Token)
    requires t.Name? || t.PrefixedName?
    ensures PrintNames(names + [(t.name, t.PrefixedName?)]) == PrintNames(names) + [Or, t]
  {
    var names' := names + [(t.name, t.PrefixedName?)];
    assert names'[..|names|] == names;
  }

  /** From inside a Mixed model with `names` read. */
  lemma {:induction false} AcceptedIsMixed(
      names: seq<(string, bool)>, groups: seq<Connector>, tokens: seq<Token>) returns (spec: ContentSpec)
    requires Ends(RunSteps(Config(if names == [] then Element3 else Element5, groups), tokens))
    ensures IsContentSpec(spec)
    ensures PrintSpec(spec) == [OpenParen, PoundName("PCDATA")] + PrintNames(names) + tokens
    decreases |tokens|
  {
    hide RunSteps, PrintNames, WellFormed;
    MixedTokens(if names == [] then Element3 else Element5, groups, tokens);
    var t := tokens[0];
    if t.Or? {
      var rest := tokens[2..];
      OneMoreName(names, tokens[1]);
      spec := AcceptedIsMixed(names + [(tokens[1].name, tokens[1].PrefixedName?)], groups, rest);
      assert tokens == [Or, tokens[1]] + rest;
    } else {
      spec := Mixed(names, t.CloseParenAsterisk?);
      assert tokens == [t];
    }
  }

  lemma {:induction false} AcceptedIsSpec(tokens: seq<Token>) returns (spec: ContentSpec)
    requires Ends(RunSteps(START, tokens))
    ensures IsContentSpec(spec) && PrintSpec(spec) == tokens
  {
    hide WellFormed, FrameOk, Print, Consumed;
    var t, rest := tokens[0], tokens[1..];
    assert tokens == [t] + rest;
    if t.OpenParen? {
      var second := rest[0];
      if IsPoundName(second, "PCDATA") {
        spec := AcceptedIsMixed([], [Unset], rest[1..]);
        assert tokens == [OpenParen, second] + rest[1..];
      } else {
        TwoIsSix([Unset], rest);
        FirstFrame();
        var group := AcceptedIsChildren([], Frame(Unset, []), true, rest);
        spec := Children(group);
      }
    } else {
      NoStepAfterEnd(rest);
      spec := if IsName(t, "EMPTY") then Empty else Any;
    }
  }

  lemma FirstFrame()
    ensures var f := Frame(Unset, []);
      FrameOk(f, true) && Consumed([], f, true) == [OpenParen] && Inside([], f, true) == Config(Element6, [Unset])
  {
    NewFrame(Frame(Unset, []));
  }

  lemma TwoIsSix(groups: seq<Connector>, tokens: seq<Token>)
    requires tokens != [] && tokens[0] != PoundName("PCDATA")
    ensures RunSteps(Config(Element2, groups), tokens) == RunSteps(Config(Element6, groups), tokens)
  {}

  // ---------------------------------------------------------------- every model is accepted

  lemma PrintStart(p: Particle)
    ensures Print(p) != [] && (Print(p)[0].OpenParen? || IsChildToken(Print(p)[0]))
  {}

  /** A particle takes the automaton from waiting to not waiting, in any open groups. */
  lemma {:induction false} PrintedParticleRuns(p: Particle, groups: seq<Connector>, rest: seq<Token>)
    requires WellFormed(p) && groups != []
    ensures RunSteps(Config(Element6, groups), Print(p) + rest) == RunSteps(Config(Element7, groups), rest)
    decreases p, 0
  {
    match p
    case Child(name, prefixed, suffix) =>
      assert (Print(p) + rest)[1..] == rest;
    case Group(choice, items, suffix) =>
      var close := CloseToken(suffix);
      var inner := PrintItems(choice, items) + ([close] + rest);
      assert Print(p) + rest == [OpenParen] + inner;
      PrintedItemsRun(choice, items, groups, [close] + rest);
      var connector := ConnectorAfter(choice, items);
      assert (groups + [connector])[..|groups|] == groups;
      assert ([close] + rest)[1..] == rest;
  }

  function ConnectorAfter(choice: bool, items: seq<Particle>): Connector {
    if |items| == 1 then Unset else if choice then Choice else Sequence
  }

  lemma {:induction false} PrintedItemsRun(
      choice: bool, items: seq<Particle>, groups: seq<Connector>, rest: seq<Token>)
    requires items != [] && forall q | q in items :: WellFormed(q)
    ensures RunSteps(Config(Element6, groups + [Unset]), PrintItems(choice, items) + rest)
         == RunSteps(Config(Element7, groups + [ConnectorAfter(choice, items)]), rest)
    decreases items, 1
  {
    hide WellFormed, Print;
    if |items| == 1 {
      PrintedParticleRuns(items[0], groups + [Unset], rest);
    } else {
      var front, last := items[..|items| - 1], items[|items| - 1];
      var tail := Print(last) + rest;
      PrintedItemsRun(choice, front, groups, [Separator(choice)] + tail);
      assert PrintItems(choice, items) + rest == PrintItems(choice, front) + ([Separator(choice)] + tail);
      var before, after := groups + [ConnectorAfter(choice, front)], groups + [ConnectorAfter(choice, items)];
      assert before[..|before| - 1] == groups;
      assert Step(Config(Element7, before), Separator(choice)) == Some(Config(Element6, after));
      assert ([Separator(choice)] + tail)[1..] == tail;
      PrintedParticleRuns(last, after, rest);
    }
  }

  lemma {:induction false} PrintedNamesRun(names: seq<(string, bool)>, groups: seq<Connector>, rest: seq<Token>)
    ensures RunSteps(Config(Element3, groups), PrintNames(names) + rest)
         == RunSteps(Config(if names == [] then Element3 else Element5, groups), rest)
  {
    if names == [] {
      assert PrintNames(names) + rest == rest;
    } else {
      var front, last := names[..|names| - 1], names[|names| - 1];
      var pair := [Or, ChildToken(last.0, last.1, Once)];
      assert PrintNames(names) + rest == PrintNames(front) + (pair + rest);
      PrintedNamesRun(front, groups, pair + rest);
      assert (pair + rest)[1..] == [pair[1]] + rest && ([pair[1]] + rest)[1..] == rest;
    }
  }

  lemma MixedIsAccepted(names: seq<(string, bool)>, star: bool)
    requires IsContentSpec(Mixed(names, star))
    ensures Ends(RunSteps(START, PrintSpec(Mixed(names, star))))
  {
    hide PrintNames;
    var tokens := PrintSpec(Mixed(names, star));
    var close := [if star then CloseParenAsterisk else CloseParen];
    PrintedNamesRun(names, [Unset], close);
    assert tokens[1..][1..] == PrintNames(names) + close;
    assert RunSteps(START, tokens) == RunSteps(Config(Element2, [Unset]), tokens[1..]);
  }

  lemma ChildrenIsAccepted(group: Particle)
    requires IsContentSpec(Children(group))
    ensures Ends(RunSteps(START, Print(group)))
  {
    hide PrintItems;
    var items, close := PrintItems(group.choice, group.items), [CloseToken(group.suffix)];
    assert Print(group)[1..] == items + close;
    PrintedItemsRun(group.choice, group.items, [], close);
    assert [] + [Unset] == [Unset];
    ItemsStart(group.choice, group.items);
    TwoIsSix([Unset], items + close);
  }

  lemma SpecIsAccepted(spec: ContentSpec)
    requires IsContentSpec(spec)
    ensures Ends(RunSteps(START, PrintSpec(spec)))
  {
    match spec
    case Mixed(names, star) => MixedIsAccepted(names, star);
    case Children(group) => ChildrenIsAccepted(group);
    case _ =>
  }

  lemma {:induction false} ItemsStart(choice: bool, items: seq<Particle>)
    requires items != []
    ensures PrintItems(choice, items) != [] && !PrintItems(choice, items)[0].PoundName?
  {
    if |items| == 1 {
      PrintStart(items[0]);
    } else {
      ItemsStart(choice, items[..|items| - 1]);
    }
  }

  /** The tokens after `<!ELEMENT name` reach the end of the declaration without a role error or a
      connector error exactly when, white space and (outside the document entity) parameter-entity
      references apart, they are a contentspec. */
  lemma AcceptedIffContentSpec(documentEntity: bool, tokens: seq<Token>)
    ensures Accepted(documentEntity, tokens)
        <==> exists spec :: IsContentSpec(spec) && PrintSpec(spec) == Significant(documentEntity, tokens)
  {
    RunIgnores(documentEntity, START, tokens);
    var significant := Significant(documentEntity, tokens);
    if Ends(RunSteps(START, significant)) {
      var spec := AcceptedIsSpec(significant);
    }
    forall spec | IsContentSpec(spec) && PrintSpec(spec) == significant
      ensures Ends(RunSteps(START, significant))
    {
      SpecIsAccepted(spec);
    }
  }

  // ---------------------------------------------------------------- levels

  /** Parentheses opened less parentheses closed. */
  function Depth(tokens: seq<Token>): int {
    if tokens == [] then 0
    else (if tokens[0].OpenParen? then 1 else if SuffixOfClose(tokens[0]).Some? then -1 else 0) + Depth(tokens[1..])
  }

  /** While a model is open, the level is the number of open parentheses. */
  lemma {:induction false} LevelIsDepth(c: Config, tokens: seq<Token>)
    requires RunSteps(c, tokens).Some? && InGroup(RunSteps(c, tokens).value.handler)
    requires c.handler.Element1? ==> c.groups == []
    ensures |RunSteps(c, tokens).value.groups| == |c.groups| + Depth(tokens)
    decreases |tokens|
  {
    if tokens != [] {
      LevelIsDepth(Step(c, tokens[0]).value, tokens[1..]);
    }
  }
}
