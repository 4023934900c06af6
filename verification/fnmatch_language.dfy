/** The matcher of fnmatch.c keeps to the language of the pattern. */
module FnMatchLanguage {
  import opened Common
  import opened FnMatch

  // ---------------------------------------------------------------- sets

  ghost predicate InSome(ranges: seq<(char, char)>, x: char) {
    exists i :: 0 <= i < |ranges| && ranges[i].0 <= x <= ranges[i].1
  }

  lemma InSomeCons(e: (char, char), ranges: seq<(char, char)>, x: char)
    ensures InSome([e] + ranges, x) <==> e.0 <= x <= e.1 || InSome(ranges, x)
  {
    var all := [e] + ranges;
    assert all[0] == e;
    if InSome(ranges, x) {
      var i :| 0 <= i < |ranges| && ranges[i].0 <= x <= ranges[i].1;
      assert all[i + 1] == ranges[i];
    }
  }

  lemma ReadsElement(t: string, noescape: bool)
    requires t != ""
    ensures ReadElement(t, noescape) ==
      match FirstElement(t, noescape)
      case None => BadElement
      case Some(e) => Element(e.0.0, e.0.1, e.1)
  {
    var escaped := !noescape && t[0] == '\\';
    if !(escaped && |t| == 1) {
      var after := if escaped then t[2..] else t[1..];
      if |after| >= 2 {
        assert after[1..][0] == after[1] && after[1..][1..] == after[2..];
        if |after| >= 3 {
          assert after[1..][1] == after[2] && after[1..][2..] == after[3..];
        }
      }
    }
  }

  /** The text behind the closing bracket, when skipping starts in front of a character. */
  function SkipAll(t: string, noescape: bool): Option<string>
    decreases |t|
  {
    if t == "" then None
    else if !noescape && t[0] == '\\' then (if |t| == 1 then None else SkipAll(t[2..], noescape))
    else if t[0] == ']' then Some(t[1..])
    else SkipAll(t[1..], noescape)
  }

  /** The skipping loop starts behind the character read last. */
  lemma {:induction false} SkipsBehind(t: string, noescape: bool)
    requires t != "" && t[0] != ']'
    ensures Skip(t, noescape) == SkipAll(t[1..], noescape)
    decreases |t|
  {
    if |t| == 1 {
      assert Skip(t[1..], noescape) == None;
    } else if !noescape && t[1] == '\\' {
      if |t| >= 3 {
        SkipsBehind([t[1]] + t[3..], noescape);
        assert ([t[1]] + t[3..])[1..] == t[3..] == t[1..][2..];
      }
    } else if t[1] != ']' {
      SkipsBehind(t[1..], noescape);
    } else {
      assert t[1..][0] == ']';
    }
  }

  lemma SkipsChar(t: string, noescape: bool)
    requires t != "" && t[0] != ']'
    ensures SkipAll(t, noescape) ==
      match SetChar(t, noescape)
      case None => None
      case Some(c) => SkipAll(c.1, noescape)
  {
  }

  /** Skipping passes over an element. */
  lemma SkipsElement(t: string, noescape: bool)
    requires t != "" && t[0] != ']'
    ensures SkipAll(t, noescape) ==
      match FirstElement(t, noescape)
      case None => None
      case Some(e) => SkipAll(e.1, noescape)
  {
    hide SkipAll, SetChar;
    SkipsChar(t, noescape);
    var lo := SetChar(t, noescape);
    if lo.Some? {
      var after := lo.value.1;
      if after != "" && after[0] == '-' && !(|after| > 1 && after[1] == ']') {
        SkipsChar(after, noescape);
        MinusIsChar(after, noescape);
        if after[1..] != "" {
          assert after[1..][0] == after[1];
          SkipsChar(after[1..], noescape);
        } else {
          NothingToSkip(noescape);
        }
      }
    }
  }

  lemma MinusIsChar(t: string, noescape: bool)
    requires t != "" && t[0] == '-'
    ensures SetChar(t, noescape) == Some(('-', t[1..]))
  {
  }

  lemma NothingToSkip(noescape: bool)
    ensures SkipAll("", noescape) == None && SetChar("", noescape) == None
  {
  }

  /** The skipping loop and the element loop find the same closing bracket. */
  lemma {:induction false} SkipsElements(t: string, noescape: bool)
    requires t != "" && t[0] != ']'
    ensures SkipAll(t, noescape) == if Elements(t, noescape).None? then None else Some(Elements(t, noescape).value.1)
    decreases |t|
  {
    hide FirstElement;
    SkipsElement(t, noescape);
    var e := FirstElement(t, noescape);
    if e.Some? && e.value.1 != "" && e.value.1[0] != ']' {
      SkipsElements(e.value.1, noescape);
    }
  }

  /** From the character behind an element, if it does not quote a closing bracket or a backslash. */
  lemma SkipsFrom(next: string, noescape: bool)
    requires !(!noescape && |next| > 1 && next[0] == '\\' && (next[1] == ']' || next[1] == '\\'))
    ensures Skip(next, noescape) ==
      if next == "" then None
      else if next[0] == ']' then Some(next[1..])
      else if Elements(next, noescape).None? then None
      else Some(Elements(next, noescape).value.1)
  {
    hide Elements, Skip;
    if next == "" {
      SkipsNothing(noescape);
    } else if next[0] == ']' {
      SkipsToBracket(next, noescape);
    } else {
      SkipsBehind(next, noescape);
      SkipsElements(next, noescape);
      if !noescape && next[0] == '\\' && |next| > 1 {
        assert next[1..][0] == next[1] && next[1..][1..] == next[2..];
      }
    }
  }

  lemma SkipsNothing(noescape: bool)
    ensures Skip("", noescape) == None
  {
  }

  lemma SkipsToBracket(t: string, noescape: bool)
    requires t != "" && t[0] == ']'
    ensures Skip(t, noescape) == Some(t[1..])
  {
  }

  /** The element loop finds the character exactly if it is in some element, and an open set is
      refused sooner or later. */
  lemma {:induction false} LoopReadsElements(t: string, x: char, noescape: bool)
    ensures match SetLoop(t, x, noescape)
            case Unterminated => Elements(t, noescape).None?
            case Missed(rest) =>
              && Elements(t, noescape).Some? && rest == Elements(t, noescape).value.1
              && !InSome(Elements(t, noescape).value.0, x)
            case Matched(text) =>
              && (Elements(t, noescape).Some? ==> InSome(Elements(t, noescape).value.0, x))
              && (SkipsWell(t, noescape) ==>
                    Skip(text, noescape) ==
                    if Elements(t, noescape).None? then None else Some(Elements(t, noescape).value.1))
    decreases |t|
  {
    hide Skip, InSome, ReadElement, FirstElement;
    if t != "" {
      ReadsElement(t, noescape);
      var e := FirstElement(t, noescape);
      if e.Some? {
        var (range, next) := e.value;
        if SkipsWell(t, noescape) {
          SkipsFrom(next, noescape);
        }
        InSomeOne(range, x);
        assert SetLoop("", x, noescape) == Unterminated;
        if next != "" && next[0] != ']' {
          LoopReadsElements(next, x, noescape);
          if Elements(next, noescape).Some? {
            InSomeCons(range, Elements(next, noescape).value.0, x);
          }
        }
      }
    } else {
      NothingToSkip(noescape);
      assert FirstElement("", noescape) == None by { NoElement(noescape); }
    }
  }

  lemma NoElement(noescape: bool)
    ensures FirstElement("", noescape) == None
  {
  }

  lemma InSomeOne(e: (char, char), x: char)
    ensures InSome([e], x) <==> e.0 <= x <= e.1
  {
    assert [e][0] == e;
  }

  /** A set is passed exactly if it is closed and accepts the character. */
  lemma BracketAccepts(t: string, x: char, noescape: bool)
    requires Negated(t) || SkipsWell(t, noescape)
    ensures var e := Elements(if Negated(t) then t[1..] else t, noescape);
      Bracket(t, x, noescape) ==
      if e.Some? && Accepts(Set(Negated(t), e.value.0), x) then Some(e.value.1) else None
  {
    hide Skip, SetLoop, Elements, SkipsWell;
    var body := if Negated(t) then t[1..] else t;
    LoopReadsElements(body, x, noescape);
    var e := Elements(body, noescape);
    if e.Some? {
      assert InSome(e.value.0, x) != Negated(t) <==> Accepts(Set(Negated(t), e.value.0), x);
    }
  }

  // ---------------------------------------------------------------- patterns

  /** What comes behind a star, as a language. */
  ghost predicate SpeaksAfterStar(items: seq<Item>, s: string) {
    exists k :: 0 <= k <= |s| && Speaks(items, s[k..])
  }

  lemma AfterStarStep(items: seq<Item>, s: string)
    ensures SpeaksAfterStar(items, s) <==> Speaks(items, s) || (s != "" && SpeaksAfterStar(items, s[1..]))
  {
    if SpeaksAfterStar(items, s) {
      var k :| 0 <= k <= |s| && Speaks(items, s[k..]);
      if k == 0 {
        assert s[0..] == s;
      } else {
        assert s[1..][k - 1..] == s[k..];
      }
    }
    if Speaks(items, s) {
      assert s[0..] == s;
    }
    if s != "" && SpeaksAfterStar(items, s[1..]) {
      var k :| 0 <= k <= |s[1..]| && Speaks(items, s[1..][k..]);
      assert s[1..][k..] == s[k + 1..];
    }
  }

  /** A question mark behind a star can as well come before it. */
  lemma {:induction false} AnyCommutes(items: seq<Item>, s: string)
    ensures SpeaksAfterStar([Any] + items, s) <==> s != "" && SpeaksAfterStar(items, s[1..])
    decreases |s|
  {
    assert ([Any] + items)[1..] == items;
    AfterStarStep([Any] + items, s);
    if s != "" {
      AnyCommutes(items, s[1..]);
      AfterStarStep(items, s[1..]);
    }
  }

  /** The language of a pattern without the period rule. */
  ghost predicate InLanguage(pat: string, s: string, noescape: bool) {
    Items(pat, noescape).Some? && Speaks(Items(pat, noescape).value, s)
  }

  ghost predicate AfterStar(pat: string, s: string, noescape: bool) {
    Items(pat, noescape).Some? && SpeaksAfterStar(Items(pat, noescape).value, s)
  }

  lemma SpeaksCons(item: Item, items: seq<Item>, s: string)
    ensures !item.Star? ==> (Speaks([item] + items, s) <==> s != "" && Accepts(item, s[0]) && Speaks(items, s[1..]))
    ensures item.Star? ==> (Speaks([item] + items, s) <==> SpeaksAfterStar(items, s))
  {
    assert ([item] + items)[1..] == items;
  }

  /** The first item of a pattern whose first character is not a star. */
  lemma InLanguageStep(pat: string, s: string, noescape: bool)
    requires pat != "" && pat[0] != '*' && Regular(pat, noescape)
    ensures InLanguage(pat, s, noescape) <==>
      s != "" &&
      (if pat[0] == '?' then InLanguage(pat[1..], s[1..], noescape)
       else if pat[0] == '\\' && !noescape then s[0] == pat[1] && InLanguage(pat[2..], s[1..], noescape)
       else if pat[0] == '[' then
         var rest := Bracket(pat[1..], s[0], noescape);
         rest.Some? && InLanguage(rest.value, s[1..], noescape)
       else s[0] == pat[0] && InLanguage(pat[1..], s[1..], noescape))
  {
    hide Bracket, Speaks, Elements;
    if s == "" {
      NothingIsEmpty(pat, noescape);
    } else if pat[0] == '[' {
      SetStep(pat, s, noescape);
    } else {
      var n := if pat[0] == '\\' && !noescape then 2 else 1;
      var item := if pat[0] == '?' then Any else Literal(pat[n - 1]);
      assert Items(pat, noescape) == Prepend(item, Items(pat[n..], noescape));
      if Items(pat[n..], noescape).Some? {
        SpeaksCons(item, Items(pat[n..], noescape).value, s);
      }
    }
  }

  lemma NothingIsEmpty(pat: string, noescape: bool)
    requires pat != "" && pat[0] != '*'
    ensures !InLanguage(pat, "", noescape)
  {
  }

  lemma SetStep(pat: string, s: string, noescape: bool)
    requires pat != "" && pat[0] == '[' && Regular(pat, noescape) && s != ""
    ensures var rest := Bracket(pat[1..], s[0], noescape);
      && (InLanguage(pat, s, noescape) <==> rest.Some? && InLanguage(rest.value, s[1..], noescape))
      && (rest.Some? ==> Regular(rest.value, noescape))
  {
    hide Bracket, Speaks, Elements;
    var t := pat[1..];
    var negated := Negated(t);
    var e := Elements(if negated then t[1..] else t, noescape);
    assert negated ==> t[1..] == pat[2..];
    BracketAccepts(t, s[0], noescape);
    if e.Some? && Items(e.value.1, noescape).Some? {
      SpeaksCons(Set(negated, e.value.0), Items(e.value.1, noescape).value, s);
    }
  }

  // ---------------------------------------------------------------- the theorem

  lemma AfterStarOfNothing(s: string)
    ensures SpeaksAfterStar([], s)
  {
    assert s[|s|..] == "";
  }

  /** The places that the filter passes over cannot match. */
  lemma FilterLosesNothing(pat: string, s: string, noescape: bool)
    requires pat != "" && pat[0] != '*' && pat[0] != '?' && Regular(pat, noescape)
    requires s != "" && InLanguage(pat, s, noescape)
    ensures Filter(pat, s[0], noescape)
  {
    hide InLanguage, Bracket;
    InLanguageStep(pat, s, noescape);
  }

  /** The pattern behind its first item, if there is one. */
  function Rest(pat: string, noescape: bool): (r: string)
    requires pat != ""
    ensures |r| < |pat|
  {
    if pat[0] == '\\' && !noescape && |pat| > 1 then pat[2..]
    else if pat[0] == '[' then
      var e := Elements(if Negated(pat[1..]) then pat[2..] else pat[1..], noescape);
      if e.None? then "" else e.value.1
    else pat[1..]
  }

  lemma RegularRest(pat: string, noescape: bool)
    requires pat != "" && Regular(pat, noescape)
    ensures Regular(Rest(pat, noescape), noescape)
    ensures Harmless(pat, noescape) <==>
      Harmless(Rest(pat, noescape), noescape) && (pat[0] == '*' ==> RunEndsWell(Rest(pat, noescape)))
    ensures pat[0] == '\\' && !noescape ==> |pat| > 1
  {
  }

  /** One turn of the main loop goes on behind the first item. */
  lemma CodeGoesOn(pat: string, s: string, noescape: bool)
    requires pat != "" && pat[0] != '*' && Regular(pat, noescape)
    ensures Code(pat, s, false, noescape) <==>
      s != "" && FirstAccepts(pat, s[0], noescape) && Code(Rest(pat, noescape), s[1..], false, noescape)
    ensures InLanguage(pat, s, noescape) <==>
      s != "" && FirstAccepts(pat, s[0], noescape) && InLanguage(Rest(pat, noescape), s[1..], noescape)
  {
    hide InLanguage, Elements, Bracket;
    InLanguageStep(pat, s, noescape);
    RegularRest(pat, noescape);
    if pat[0] == '[' && s != "" {
      assert Negated(pat[1..]) ==> pat[1..][1..] == pat[2..];
      BracketAccepts(pat[1..], s[0], noescape);
    }
  }

  /** The first item is passed by this character. */
  predicate FirstAccepts(pat: string, x: char, noescape: bool)
    requires pat != ""
  {
    if pat[0] == '?' then true
    else if pat[0] == '\\' && !noescape then |pat| > 1 && x == pat[1]
    else if pat[0] == '[' then Bracket(pat[1..], x, noescape).Some?
    else x == pat[0]
  }

  lemma {:induction false} ScanSpeaks(pat: string, s: string, noescape: bool)
    requires pat != "" && pat[0] != '*' && pat[0] != '?' && Regular(pat, noescape)
    ensures Scan(pat, s, noescape) ==> AfterStar(pat, s, noescape)
    ensures Harmless(pat, noescape) && AfterStar(pat, s, noescape) ==> Scan(pat, s, noescape)
    decreases |pat|, |s|, 1
  {
    hide Code, Filter, Regular, Harmless, SpeaksAfterStar, Speaks;
    if Items(pat, noescape).Some? {
      AfterStarStep(Items(pat, noescape).value, s);
    }
    if s == "" {
      NothingIsEmpty(pat, noescape);
    } else {
      CodeSpeaks(pat, s, noescape);
      if InLanguage(pat, s, noescape) {
        FilterLosesNothing(pat, s, noescape);
      }
      ScanSpeaks(pat, s[1..], noescape);
    }
  }

  lemma {:induction false} StarRunSpeaks(pat: string, s: string, noescape: bool)
    requires Regular(pat, noescape)
    ensures StarRun(pat, s, noescape) ==> AfterStar(pat, s, noescape)
    ensures RunEndsWell(pat) && Harmless(pat, noescape) && AfterStar(pat, s, noescape) ==> StarRun(pat, s, noescape)
    decreases |pat|, |s|, 2
  {
    hide Regular, Harmless, SpeaksAfterStar, Scan, OnlyStars;
    if pat == "" {
      AfterStarOfNothing(s);
    } else if pat[0] == '?' {
      RegularRest(pat, noescape);
      if s != "" {
        StarRunSpeaks(pat[1..], s[1..], noescape);
      }
      if Items(pat[1..], noescape).Some? {
        AnyCommutes(Items(pat[1..], noescape).value, s);
      }
    } else if pat[0] == '*' {
      RegularRest(pat, noescape);
      var s' := if s == "" then "" else s[1..];
      StarRunSpeaks(pat[1..], s', noescape);
      if Items(pat[1..], noescape).Some? {
        StarDropsOne(Items(pat[1..], noescape).value, s);
      }
      if OnlyStars(pat[1..]) {
        StarsRunThrough(pat[1..], s', noescape);
      }
    } else {
      ScanSpeaks(pat, s, noescape);
    }
  }

  /** A further star may take up a character. */
  lemma StarDropsOne(items: seq<Item>, s: string)
    ensures SpeaksAfterStar(items, if s == "" then "" else s[1..]) ==> SpeaksAfterStar([Star] + items, s)
  {
    hide Speaks;
    AfterStarStep(items, s);
    AfterStarStep([Star] + items, s);
    SpeaksCons(Star, items, s);
  }

  lemma {:induction false} StarsRunThrough(pat: string, s: string, noescape: bool)
    requires OnlyStars(pat)
    ensures StarRun(pat, s, noescape)
    decreases |pat|
  {
    if pat != "" {
      StarsRunThrough(pat[1..], if s == "" then "" else s[1..], noescape);
    }
  }

  /** What the matcher accepts is in the language, and for a harmless pattern the converse holds. */
  lemma {:induction false} CodeSpeaks(pat: string, s: string, noescape: bool)
    requires Regular(pat, noescape)
    ensures Code(pat, s, false, noescape) ==> InLanguage(pat, s, noescape)
    ensures Harmless(pat, noescape) && InLanguage(pat, s, noescape) ==> Code(pat, s, false, noescape)
    decreases |pat|, |s|, 0
  {
    hide Regular, Harmless, RunEndsWell, Speaks, Bracket, StarRun, Elements;
    if pat == "" {
      SpeaksNothing(s);
    } else if pat[0] == '*' {
      RegularRest(pat, noescape);
      StarRunSpeaks(pat[1..], s, noescape);
      if Items(pat[1..], noescape).Some? {
        SpeaksCons(Star, Items(pat[1..], noescape).value, s);
      }
    } else {
      hide Code, InLanguage, Rest;
      CodeGoesOn(pat, s, noescape);
      RegularRest(pat, noescape);
      if s != "" {
        CodeSpeaks(Rest(pat, noescape), s[1..], noescape);
      }
    }
  }

  lemma SpeaksNothing(s: string)
    ensures Speaks([], s) <==> s == ""
  {
  }

  /** A leading period asks for a literal in front, of the matcher and of the language alike. */
  lemma LeadingPeriod(pat: string, s: string, noescape: bool)
    requires Regular(pat, noescape)
    ensures var dot := At(s, 0) == '.';
      var literal := pat != "" && pat[0] != '?' && pat[0] != '*' && pat[0] != '[';
      && (Code(pat, s, true, noescape) <==> Code(pat, s, false, noescape) && (dot ==> literal))
      && (Matches(pat, s, true, noescape) <==> InLanguage(pat, s, noescape) && (dot ==> literal))
  {
    hide Bracket, StarRun, Speaks, Elements;
    SpeaksNothing(s);
  }

  /** Every string that the matcher accepts is in the language of the pattern, and a leading period is
      accepted only where the pattern has it as a literal; for a harmless pattern it accepts them all. */
  lemma MatcherIsSound(pat: string, s: string, lead: bool, noescape: bool)
    requires Regular(pat, noescape)
    ensures Code(pat, s, lead, noescape) ==> Matches(pat, s, lead, noescape)
    ensures Harmless(pat, noescape) && Matches(pat, s, lead, noescape) ==> Code(pat, s, lead, noescape)
  {
    hide Code, Speaks;
    CodeSpeaks(pat, s, noescape);
    LeadingPeriod(pat, s, noescape);
  }

  // ---------------------------------------------------------------- harmful runs

  /** The length of the shortest strings of the language. */
  function Least(items: seq<Item>): nat {
    if items == [] then 0 else (if items[0].Star? then 0 else 1) + Least(items[1..])
  }

  lemma LeastCons(item: Item, items: seq<Item>)
    ensures Least([item] + items) == (if item.Star? then 0 else 1) + Least(items)
  {
    assert ([item] + items)[1..] == items;
  }

  lemma {:induction false} ShortestWord(items: seq<Item>, s: string) returns (w: string)
    requires Speaks(items, s)
    ensures |w| == Least(items) && Speaks(items, w)
    decreases |items|
  {
    if items == [] {
      w := "";
    } else if items[0].Star? {
      var k :| 0 <= k <= |s| && Speaks(items[1..], s[k..]);
      w := ShortestWord(items[1..], s[k..]);
      assert w[0..] == w;
    } else {
      var w' := ShortestWord(items[1..], s[1..]);
      w := [s[0]] + w';
      assert w[1..] == w';
    }
  }

  /** The items of a pattern whose first character is not a star. */
  lemma ItemsGoOn(pat: string, noescape: bool)
    requires pat != "" && Regular(pat, noescape)
    ensures Items(pat, noescape).Some? ==> Items(Rest(pat, noescape), noescape).Some?
    ensures pat[0] != '[' && Items(Rest(pat, noescape), noescape).Some? ==> Items(pat, noescape).Some?
    ensures Items(pat, noescape).Some? ==>
      Least(Items(pat, noescape).value)
        == (if pat[0] == '*' then 0 else 1) + Least(Items(Rest(pat, noescape), noescape).value)
  {
    hide Least, Elements;
    var rest := Items(Rest(pat, noescape), noescape);
    if Items(pat, noescape).Some? {
      var item := Items(pat, noescape).value[0];
      assert Items(pat, noescape).value == [item] + rest.value;
      LeastCons(item, rest.value);
    }
  }

  lemma {:induction false} NoLengthIsStars(pat: string, noescape: bool)
    requires Regular(pat, noescape) && Items(pat, noescape).Some? && Least(Items(pat, noescape).value) == 0
    ensures OnlyStars(pat)
    decreases |pat|
  {
    if pat != "" {
      ItemsGoOn(pat, noescape);
      assert pat[0] == '*';
      NoLengthIsStars(pat[1..], noescape);
      assert pat == ['*'] + pat[1..];
    }
  }

  /** A string that is accepted is as long as the shortest one of the language, and longer when a run
      is harmful: its second star has taken up a character for nothing. */
  lemma {:induction false} CodeNeeds(pat: string, s: string, noescape: bool)
    requires Regular(pat, noescape) && Code(pat, s, false, noescape)
    ensures Items(pat, noescape).Some?
    ensures |s| >= Least(Items(pat, noescape).value) + if Harmless(pat, noescape) then 0 else 1
    decreases |pat|, |s|, 0
  {
    hide Regular, Harmless, RunEndsWell, Items, Least, Rest, InLanguage, StarRun;
    CodeSpeaks(pat, s, noescape);
    LanguageHasItems(pat, s, noescape);
    if pat == "" {
      NothingNeeded(noescape);
    } else {
      RegularRest(pat, noescape);
      ItemsGoOn(pat, noescape);
      if pat[0] == '*' {
        RestOfStar(pat, noescape);
        StarRunNeeds(pat[1..], s, noescape);
      } else {
        CodeGoesOn(pat, s, noescape);
        CodeNeeds(Rest(pat, noescape), s[1..], noescape);
      }
    }
  }

  lemma LanguageHasItems(pat: string, s: string, noescape: bool)
    requires InLanguage(pat, s, noescape)
    ensures Items(pat, noescape).Some?
  {
  }

  lemma NothingNeeded(noescape: bool)
    ensures Harmless("", noescape) && RunEndsWell("") && Items("", noescape) == Some([]) && Least([]) == 0
  {
  }

  lemma RestOfStar(pat: string, noescape: bool)
    requires pat != "" && (pat[0] == '*' || pat[0] == '?')
    ensures Rest(pat, noescape) == pat[1..]
  {
  }

  lemma {:induction false} ScanNeeds(pat: string, s: string, noescape: bool)
    requires pat != "" && Regular(pat, noescape) && Scan(pat, s, noescape)
    ensures Items(pat, noescape).Some?
    ensures |s| >= Least(Items(pat, noescape).value) + if Harmless(pat, noescape) then 0 else 1
    decreases |pat|, |s|, 1
  {
    hide Regular, Harmless, Items, Least, Code, Filter;
    if Code(pat, s, false, noescape) {
      CodeNeeds(pat, s, noescape);
    } else {
      ScanNeeds(pat, s[1..], noescape);
    }
  }

  lemma {:induction false} StarRunNeeds(pat: string, s: string, noescape: bool)
    requires Regular(pat, noescape) && StarRun(pat, s, noescape)
    ensures Items(pat, noescape).Some?
    ensures |s| >= Least(Items(pat, noescape).value)
      + if RunEndsWell(pat) && Harmless(pat, noescape) then 0 else 1
    decreases |pat|, |s|, 2
  {
    hide Regular, Harmless, RunEndsWell, Items, Least, Rest, Scan;
    if pat == "" {
      NothingNeeded(noescape);
    } else if pat[0] == '?' || pat[0] == '*' {
      RegularRest(pat, noescape);
      ItemsGoOn(pat, noescape);
      RestOfStar(pat, noescape);
      RunGoesOn(pat);
      var s' := if s == "" then "" else s[1..];
      StarRunNeeds(pat[1..], s', noescape);
      if pat[0] == '*' && Least(Items(pat[1..], noescape).value) == 0 {
        NoLengthIsStars(pat[1..], noescape);
        StarsAreHarmless(pat, noescape);
      }
    } else {
      RunGoesOn(pat);
      ScanNeeds(pat, s, noescape);
    }
  }

  lemma RunGoesOn(pat: string)
    requires pat != ""
    ensures pat[0] == '?' ==> RunEndsWell(pat) == RunEndsWell(pat[1..])
    ensures pat[0] != '?' && pat[0] != '*' ==> RunEndsWell(pat)
  {
  }

  lemma {:induction false} StarsAreHarmless(pat: string, noescape: bool)
    requires pat != "" && pat[0] == '*' && OnlyStars(pat[1..])
    ensures RunEndsWell(pat) && Harmless(pat, noescape)
    decreases |pat|
  {
    if |pat| > 1 {
      StarsAreHarmless(pat[1..], noescape);
    }
  }

  ghost predicate AgreesEverywhere(pat: string, noescape: bool) {
    forall s: string, lead: bool :: Code(pat, s, lead, noescape) <==> Matches(pat, s, lead, noescape)
  }

  ghost predicate EmptyLanguage(pat: string, noescape: bool) {
    forall s: string :: !InLanguage(pat, s, noescape)
  }

  /** The matcher agrees with the language of the pattern on all strings exactly when every run of stars
      and question marks is harmless, or the pattern matches nothing at all. */
  lemma CodeIsLanguage(pat: string, noescape: bool)
    requires Regular(pat, noescape)
    ensures AgreesEverywhere(pat, noescape) <==> Harmless(pat, noescape) || EmptyLanguage(pat, noescape)
  {
    hide Code, InLanguage, Speaks, Harmless, Regular;
    forall s: string, lead: bool | Harmless(pat, noescape) || EmptyLanguage(pat, noescape)
      ensures Code(pat, s, lead, noescape) <==> Matches(pat, s, lead, noescape)
    {
      MatcherIsSound(pat, s, lead, noescape);
      LeadingPeriod(pat, s, noescape);
      MatchesIsInLanguage(pat, s, noescape);
    }
    if !Harmless(pat, noescape) && !EmptyLanguage(pat, noescape) {
      var s :| InLanguage(pat, s, noescape);
      HarmfulRunLosesWord(pat, s, noescape);
    }
  }

  lemma MatchesIsInLanguage(pat: string, s: string, noescape: bool)
    ensures Matches(pat, s, false, noescape) <==> InLanguage(pat, s, noescape)
  {
  }

  lemma HarmfulRunLosesWord(pat: string, s: string, noescape: bool)
    requires Regular(pat, noescape) && !Harmless(pat, noescape) && InLanguage(pat, s, noescape)
    ensures !AgreesEverywhere(pat, noescape)
  {
    hide Code, Speaks, Least, Regular, Harmless;
    var w := ShortestWord(Items(pat, noescape).value, s);
    if Code(pat, w, false, noescape) {
      CodeNeeds(pat, w, noescape);
    }
    MatchesIsInLanguage(pat, w, noescape);
    assert Matches(pat, w, false, noescape) && !Code(pat, w, false, noescape);
  }

  /** A second star in a run takes up a character, so that `a**b` does not match `ab`. */
  lemma SecondStarConsumes()
    ensures !Code("a**b", "ab", false, false) && Matches("a**b", "ab", false, false)
  {
    hide Speaks;
    assert "a**b"[1..] == "**b" && "**b"[1..] == "*b" && "*b"[1..] == "b" && "b"[1..] == "" && "ab"[1..] == "b";
    ItemsOfB();
    assert Items("a**b", false) == Prepend(Literal('a'), Items("**b", false));
    var b := [Literal('b')];
    SpeaksNothing("");
    SpeaksCons(Literal('b'), [], "b");
    assert [Literal('b')] + [] == b;
    AfterStarStep(b, "b");
    SpeaksCons(Star, b, "b");
    AfterStarStep([Star] + b, "b");
    SpeaksCons(Star, [Star] + b, "b");
    SpeaksCons(Literal('a'), [Star] + ([Star] + b), "ab");
    assert !Filter("b", 'a', false);
    assert StarRun("*b", "b", false) == StarRun("b", "", false) == false;
  }

  lemma ItemsOfB()
    ensures Items("b", false) == Some([Literal('b')])
    ensures Items("*b", false) == Some([Star] + [Literal('b')])
    ensures Items("**b", false) == Some([Star] + ([Star] + [Literal('b')]))
  {
    assert "**b"[1..] == "*b" && "*b"[1..] == "b" && "b"[1..] == "";
    assert Items("b", false) == Prepend(Literal('b'), Items("", false));
    assert [Literal('b')] + [] == [Literal('b')];
    assert Items("*b", false) == Prepend(Star, Items("b", false));
    assert Items("**b", false) == Prepend(Star, Items("*b", false));
  }

  /** With a backslash inside brackets the two loops disagree: the same pattern matches `]`, with the
      bracket escaped, and `bc]`, with the set closed by that bracket. */
  lemma EscapeInSetIsReadTwoWays()
    ensures Code("[ab\\]c]", "]", false, false) && Code("[ab\\]c]", "bc]", false, false)
  {
    var t := "ab\\]c]";
    assert "[ab\\]c]"[1..] == t;
    assert ReadElement(t, false) == Element('a', 'a', "b\\]c]");
    assert ReadElement("b\\]c]", false) == Element('b', 'b', "\\]c]");
    assert ReadElement("\\]c]", false) == Element(']', ']', "c]");
    assert SetLoop(t, ']', false) == SetLoop("b\\]c]", ']', false) == SetLoop("\\]c]", ']', false) == Matched("c]");
    assert "c]"[1..] == "]" && "]"[1..] == "";
    assert Skip("c]", false) == Skip("]", false) == Some("");
    assert SetLoop(t, 'b', false) == SetLoop("b\\]c]", 'b', false) == Matched("\\]c]");
    assert "\\]c]"[1..] == "]c]" && "]c]"[1..] == "c]";
    assert Skip("\\]c]", false) == Skip("]c]", false) == Some("c]");
    assert "bc]"[1..] == "c]";
    assert Code("]", "]", false, false) && Code("c]", "c]", false, false);
  }
}
