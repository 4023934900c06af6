/** fnmatch.c with the flags FNM_PERIOD and FNM_NOESCAPE: what the matcher does, and the language of a
    pattern. Strings hold no null character; reading one at its end gives the null character. */
module FnMatch {
  import opened Common

  // ---------------------------------------------------------------- the matcher

  /** The bracket loop ends without a closing bracket, in an element that holds the character, or at
      the closing bracket. After a match the text starts with the character read last. */
  datatype SetResult = Unterminated | Matched(text: string) | Missed(rest: string)

  /** One element at the start of the text: its bounds, and the text behind it. */
  datatype Element = BadElement | Element(lo: char, hi: char, next: string)

  function ReadElement(t: string, noescape: bool): (r: Element)
    requires t != ""
    ensures r.Element? ==> |r.next| < |t|
  {
    var escaped := !noescape && t[0] == '\\';
    if escaped && |t| == 1 then BadElement
    else
      var lo := if escaped then t[1] else t[0];
      var after := if escaped then t[2..] else t[1..];
      if At(after, 0) == '-' && At(after, 1) != ']' then
        if |after| < 2 then BadElement
        else if !noescape && after[1] == '\\' then
          if |after| < 3 then BadElement else Element(lo, after[2], after[3..])
        else Element(lo, after[1], after[2..])
      else Element(lo, lo, after)
  }

  function SetLoop(t: string, x: char, noescape: bool): (r: SetResult)
    ensures r.Matched? ==> |r.text| <= |t|
    ensures r.Missed? ==> |r.rest| <= |t|
    decreases |t|
  {
    if t == "" then Unterminated
    else
      var e := ReadElement(t, noescape);
      if e.BadElement? then Unterminated
      else if e.lo <= x <= e.hi then Matched(e.next)
      else if At(e.next, 0) == ']' then Missed(e.next[1..])
      else SetLoop(e.next, x, noescape)
  }

  /** Skips the rest of a set after a match: the text behind the closing bracket. A backslash is only
      seen when it is read here, not when it is the character read last. */
  function Skip(t: string, noescape: bool): (r: Option<string>)
    ensures r.Some? ==> |r.value| <= |t|
    decreases |t|
  {
    if t == "" then None
    else if t[0] == ']' then Some(t[1..])
    else if !noescape && At(t, 1) == '\\' then
      if |t| < 3 then None else Skip([t[1]] + t[3..], noescape)
    else Skip(t[1..], noescape)
  }

  predicate Negated(t: string) {
    At(t, 0) == '!' || At(t, 0) == '^'
  }

  /** The text behind the set that starts behind `[`, if it accepts the character. */
  function Bracket(t: string, x: char, noescape: bool): (r: Option<string>)
    ensures r.Some? ==> |r.value| <= |t|
  {
    var body := if Negated(t) then t[1..] else t;
    match SetLoop(body, x, noescape)
    case Unterminated => None
    case Missed(rest) => if Negated(t) then Some(rest) else None
    case Matched(text) =>
      var rest := Skip(text, noescape);
      if rest.None? || Negated(t) then None else rest
  }

  /** What fnmatch returns, zero as true. `lead` tells that FNM_PERIOD is set and no character of the
      string has been passed. */
  predicate Code(pat: string, s: string, lead: bool, noescape: bool)
    decreases |pat|, |s|, 0
  {
    if pat == "" then s == ""
    else
      var dot := lead && At(s, 0) == '.';
      if pat[0] == '?' then s != "" && !dot && Code(pat[1..], s[1..], false, noescape)
      else if pat[0] == '\\' && !noescape then
        |pat| > 1 && At(s, 0) == pat[1] && s != "" && Code(pat[2..], s[1..], false, noescape)
      else if pat[0] == '*' then !dot && StarRun(pat[1..], s, noescape)
      else if pat[0] == '[' then
        s != "" && !dot &&
        var rest := Bracket(pat[1..], s[0], noescape);
        rest.Some? && Code(rest.value, s[1..], false, noescape)
      else s != "" && pat[0] == s[0] && Code(pat[1..], s[1..], false, noescape)
  }

  /** Behind a star: each further question mark, and each further star too, moves on one character. */
  predicate StarRun(pat: string, s: string, noescape: bool)
    decreases |pat|, |s|, 2
  {
    if pat == "" then true
    else if pat[0] == '?' then s != "" && StarRun(pat[1..], s[1..], noescape)
    else if pat[0] == '*' then StarRun(pat[1..], if s == "" then "" else s[1..], noescape)
    else Scan(pat, s, noescape)
  }

  /** Tries the places of the string where the first character of the pattern can match. */
  predicate Scan(pat: string, s: string, noescape: bool)
    requires pat != ""
    decreases |pat|, |s|, 1
  {
    s != "" && ((Filter(pat, s[0], noescape) && Code(pat, s, false, noescape)) || Scan(pat, s[1..], noescape))
  }

  predicate Filter(pat: string, x: char, noescape: bool)
    requires pat != ""
  {
    pat[0] == '[' || x == if !noescape && pat[0] == '\\' then At(pat, 1) else pat[0]
  }

  // ---------------------------------------------------------------- the language

  datatype Item = Any | Star | Literal(c: char) | Set(negated: bool, ranges: seq<(char, char)>)

  predicate Accepts(item: Item, x: char) {
    match item
    case Any => true
    case Star => false
    case Literal(c) => x == c
    case Set(negated, ranges) => negated != exists i :: 0 <= i < |ranges| && ranges[i].0 <= x <= ranges[i].1
  }

  /** A star stands for any characters, every other item for one that it accepts. */
  ghost predicate Speaks(items: seq<Item>, s: string)
    decreases |items|
  {
    if items == [] then s == ""
    else if items[0].Star? then exists k :: 0 <= k <= |s| && Speaks(items[1..], s[k..])
    else s != "" && Accepts(items[0], s[0]) && Speaks(items[1..], s[1..])
  }

  /** A character of a set, which a backslash may quote, and the text behind it. */
  function SetChar(t: string, noescape: bool): (r: Option<(char, string)>)
    ensures r.Some? ==> |r.value.1| < |t|
  {
    if t == "" then None
    else if noescape || t[0] != '\\' then Some((t[0], t[1..]))
    else if |t| == 1 then None
    else Some((t[1], t[2..]))
  }

  /** The first element of a set, one character or a range, and the text behind it; a minus sign in front
      of the closing bracket stands for itself. */
  function FirstElement(t: string, noescape: bool): (r: Option<((char, char), string)>)
    ensures r.Some? ==> |r.value.1| < |t|
  {
    var lo := SetChar(t, noescape);
    if lo.None? then None
    else
      var (c, after) := lo.value;
      if after == "" || after[0] != '-' || (|after| > 1 && after[1] == ']') then Some(((c, c), after))
      else
        var hi := SetChar(after[1..], noescape);
        if hi.None? then None else Some(((c, hi.value.0), hi.value.1))
  }

  /** The elements of a set, and the text behind the closing bracket; a closing bracket in the first place
      is an element. */
  function Elements(t: string, noescape: bool): (r: Option<(seq<(char, char)>, string)>)
    ensures r.Some? ==> |r.value.1| < |t|
    decreases |t|
  {
    var e := FirstElement(t, noescape);
    if e.None? || e.value.1 == "" then None
    else
      var (range, next) := e.value;
      if next[0] == ']' then Some(([range], next[1..]))
      else
        var more := Elements(next, noescape);
        if more.None? then None else Some(([range] + more.value.0, more.value.1))
  }

  /** The items of a pattern, if its sets are closed. */
  function Items(pat: string, noescape: bool): Option<seq<Item>>
    decreases |pat|
  {
    if pat == "" then Some([])
    else if pat[0] == '?' then Prepend(Any, Items(pat[1..], noescape))
    else if pat[0] == '*' then Prepend(Star, Items(pat[1..], noescape))
    else if pat[0] == '\\' && !noescape then
      if |pat| == 1 then None else Prepend(Literal(pat[1]), Items(pat[2..], noescape))
    else if pat[0] == '[' then
      var negated := Negated(pat[1..]);
      var e := Elements(if negated then pat[2..] else pat[1..], noescape);
      if e.None? then None else Prepend(Set(negated, e.value.0), Items(e.value.1, noescape))
    else Prepend(Literal(pat[0]), Items(pat[1..], noescape))
  }

  function Prepend(item: Item, items: Option<seq<Item>>): Option<seq<Item>> {
    if items.None? then None else Some([item] + items.value)
  }

  /** A period at the start is matched only by a literal. */
  ghost predicate Matches(pat: string, s: string, lead: bool, noescape: bool) {
    var items := Items(pat, noescape);
    && items.Some? && Speaks(items.value, s)
    && (lead && At(s, 0) == '.' ==> items.value != [] && items.value[0].Literal?)
  }

  /** No element of the set is followed by a quoted closing bracket or a quoted backslash. */
  predicate SkipsWell(t: string, noescape: bool)
    decreases |t|
  {
    var e := FirstElement(t, noescape);
    if e.None? || e.value.1 == "" || e.value.1[0] == ']' then true
    else
      var next := e.value.1;
      && !(!noescape && next[0] == '\\' && |next| > 1 && (next[1] == ']' || next[1] == '\\'))
      && SkipsWell(next, noescape)
  }

  /** So it is in every set that is not negated, and no backslash ends the pattern. */
  predicate Regular(pat: string, noescape: bool)
    decreases |pat|
  {
    if pat == "" then true
    else if pat[0] == '\\' && !noescape then |pat| > 1 && Regular(pat[2..], noescape)
    else if pat[0] == '[' then
      var negated := Negated(pat[1..]);
      var body := if negated then pat[2..] else pat[1..];
      var e := Elements(body, noescape);
      (negated || SkipsWell(body, noescape)) && (e.None? || Regular(e.value.1, noescape))
    else Regular(pat[1..], noescape)
  }

  predicate OnlyStars(pat: string) {
    forall i :: 0 <= i < |pat| ==> pat[i] == '*'
  }

  /** Behind a star: nothing but stars follows the next star of the run up to the end of the pattern. */
  predicate RunEndsWell(pat: string) {
    if pat == "" then true
    else if pat[0] == '?' then RunEndsWell(pat[1..])
    else pat[0] == '*' ==> OnlyStars(pat[1..])
  }

  /** So it is in every run of stars and question marks. */
  predicate Harmless(pat: string, noescape: bool)
    decreases |pat|
  {
    if pat == "" then true
    else if pat[0] == '*' then RunEndsWell(pat[1..]) && Harmless(pat[1..], noescape)
    else if pat[0] == '\\' && !noescape then |pat| == 1 || Harmless(pat[2..], noescape)
    else if pat[0] == '[' then
      var e := Elements(if Negated(pat[1..]) then pat[2..] else pat[1..], noescape);
      e.None? || Harmless(e.value.1, noescape)
    else Harmless(pat[1..], noescape)
  }

  // ---------------------------------------------------------------- the loops

  const FNM_NOMATCH := 1

  /** One turn of the bracket loop: reads the element that starts with the character at `i`. */
  method NextElement(pattern: string, i: nat, noescape: bool) returns (ok: bool, lo: char, hi: char, next: nat)
    requires i < |pattern|
    ensures ok ==> i < next <= |pattern|
    ensures ReadElement(pattern[i..], noescape) == if ok then Element(lo, hi, pattern[next..]) else BadElement
  {
    var c := pattern[i];
    ok, lo, hi, next := true, c, c, i + 1;
    if !noescape && c == '\\' {
      if next == |pattern| {
        ok := false;
        return;
      }
      lo, hi, next := pattern[next], pattern[next], next + 1;
    }
    assert pattern[i..][next - i..] == pattern[next..];
    c := At(pattern, next);
    if c == '-' && At(pattern, next + 1) != ']' {
      if next + 1 >= |pattern| {
        ok := false;
        return;
      }
      hi := pattern[next + 1];
      var behind := next + 2;
      assert pattern[next..][2..] == pattern[behind..];
      if !noescape && hi == '\\' {
        if behind == |pattern| {
          ok := false;
          return;
        }
        hi := pattern[behind];
        behind := behind + 1;
        assert pattern[next..][3..] == pattern[behind..];
      }
      next := behind;
    }
  }

  /** C strings: the null character only ends them. */
  predicate NullFree(s: string) {
    forall i :: 0 <= i < |s| ==> s[i] != '\0'
  }

  /** What the loop sees: the character read last, and the text behind it. */
  function Seen(c: char, rest: string): string {
    if c == '\0' then "" else [c] + rest
  }

  lemma SeenAt(pattern: string, i: nat)
    requires i <= |pattern| && NullFree(pattern)
    ensures Seen(At(pattern, i), pattern[if i < |pattern| then i + 1 else i..]) == pattern[i..]
  {
  }

  lemma SkipStep(pattern: string, p: nat, c: char, noescape: bool)
    requires c != ']' && c != '\0' && p <= |pattern| && NullFree(pattern)
    ensures Skip(Seen(c, pattern[p..]), noescape) ==
      if p == |pattern| then None
      else if !noescape && pattern[p] == '\\' then
        if p + 1 == |pattern| then None else Skip(Seen(pattern[p], pattern[p + 2..]), noescape)
      else Skip(Seen(pattern[p], pattern[p + 1..]), noescape)
  {
    var t := [c] + pattern[p..];
    assert t[1..] == pattern[p..];
    if p < |pattern| {
      assert t[1] == pattern[p] && pattern[p..] == [pattern[p]] + pattern[p + 1..];
      if p + 1 < |pattern| {
        assert t[3..] == pattern[p + 2..];
      }
    }
  }

  method SkipSet(pattern: string, i: nat, noescape: bool) returns (ok: bool, next: nat)
    requires i <= |pattern| && NullFree(pattern)
    ensures ok ==> i <= next <= |pattern|
    ensures Skip(pattern[i..], noescape) == if ok then Some(pattern[next..]) else None
  {
    hide Skip, Seen;
    SeenAt(pattern, i);
    var c, p := At(pattern, i), if i < |pattern| then i + 1 else i;
    ok, next := false, 0;
    while c != ']'
      invariant i <= p <= |pattern|
      invariant Skip(Seen(c, pattern[p..]), noescape) == Skip(pattern[i..], noescape)
      decreases c != '\0', |pattern| - p
    {
      SkipEdges(c, pattern[p..], noescape);
      if c == '\0' {
        return;
      }
      SkipStep(pattern, p, c, noescape);
      c := At(pattern, p);
      if c == '\0' {
        return;
      }
      p := p + 1;
      if !noescape && c == '\\' {
        if p == |pattern| {
          return;
        }
        p := p + 1;
      }
    }
    SkipEdges(c, pattern[p..], noescape);
    ok, next := true, p;
  }

  lemma SkipEdges(c: char, rest: string, noescape: bool)
    ensures c == '\0' ==> Skip(Seen(c, rest), noescape) == None
    ensures c == ']' ==> Skip(Seen(c, rest), noescape) == Some(rest)
  {
    assert ([c] + rest)[1..] == rest;
  }

  /** A set against the character `x`: where the pattern goes on. */
  method MatchSet(pattern: string, start: nat, x: char, noescape: bool) returns (ok: bool, next: nat)
    requires start <= |pattern| && NullFree(pattern)
    ensures ok ==> start <= next <= |pattern|
    ensures Bracket(pattern[start..], x, noescape) == if ok then Some(pattern[next..]) else None
  {
    hide Skip, ReadElement, SetLoop;
    var p := start;
    var not := At(pattern, p) == '!' || At(pattern, p) == '^';
    if not {
      p := p + 1;
    }
    ghost var body := pattern[p..];
    assert body == if Negated(pattern[start..]) then pattern[start..][1..] else pattern[start..];
    ok, next := false, 0;
    while true
      invariant start <= p <= |pattern|
      invariant SetLoop(pattern[p..], x, noescape) == SetLoop(body, x, noescape)
      decreases |pattern| - p
    {
      SetLoopStep(pattern[p..], x, noescape);
      if p == |pattern| {
        return;
      }
      var good, lo, hi, behind := NextElement(pattern, p, noescape);
      if !good {
        return;
      }
      if lo <= x <= hi {
        ok, next := SkipSet(pattern, behind, noescape);
        if not {
          ok := false;
        }
        return;
      }
      if At(pattern, behind) == ']' {
        assert pattern[behind..][1..] == pattern[behind + 1..];
        ok, next := not, behind + 1;
        return;
      }
      p := behind;
    }
  }

  lemma SetLoopStep(t: string, x: char, noescape: bool)
    ensures SetLoop(t, x, noescape) ==
      if t == "" then Unterminated
      else
        var e := ReadElement(t, noescape);
        if e.BadElement? then Unterminated
        else if e.lo <= x <= e.hi then Matched(e.next)
        else if At(e.next, 0) == ']' then Missed(e.next[1..])
        else SetLoop(e.next, x, noescape)
  {
  }

  /** fnmatch with the flags FNM_PERIOD and FNM_NOESCAPE; zero is a match. */
  method Fnmatch(pattern: string, str: string, period: bool, noescape: bool) returns (r: int)
    requires NullFree(pattern) && NullFree(str)
    ensures r == 0 || r == FNM_NOMATCH
    ensures r == 0 <==> Code(pattern, str, period, noescape)
    decreases |pattern|, |str|, 0
  {
    hide Code, Bracket, StarRun;
    var p, n := 0, 0;
    r := FNM_NOMATCH;
    assert pattern[0..] == pattern && str[0..] == str;
    while p < |pattern|
      invariant 0 <= p <= |pattern| && 0 <= n <= |str|
      invariant Code(pattern[p..], str[n..], period && n == 0, noescape) == Code(pattern, str, period, noescape)
      invariant p == 0 ==> n == 0
    {
      CodeStep(pattern, p, str, n, period && n == 0, noescape);
      var c := pattern[p];
      p := p + 1;
      if c == '?' {
        if n == |str| || (period && str[n] == '.' && n == 0) {
          return;
        }
      } else if c == '\\' && !noescape {
        if p == |pattern| || n == |str| || str[n] != pattern[p] {
          return;
        }
        p := p + 1;
      } else if c == '*' {
        if period && At(str, n) == '.' && n == 0 {
          return;
        }
        r := MatchStar(pattern, p, str, n, noescape);
        return;
      } else if c == '[' {
        if n == |str| || (period && str[n] == '.' && n == 0) {
          return;
        }
        var ok, next := MatchSet(pattern, p, str[n], noescape);
        if !ok {
          return;
        }
        p := next;
      } else if n == |str| || c != str[n] {
        return;
      }
      n := n + 1;
    }
    assert pattern[p..] == "";
    CodeEnd(str[n..], period && n == 0, noescape);
    if n == |str| {
      r := 0;
    }
  }

  lemma CodeEnd(s: string, lead: bool, noescape: bool)
    ensures Code("", s, lead, noescape) <==> s == ""
  {
  }

  /** One turn of the main loop, at the places `p` and `n`. */
  lemma CodeStep(pattern: string, p: nat, str: string, n: nat, lead: bool, noescape: bool)
    requires p < |pattern| && n <= |str|
    ensures var c := pattern[p];
      var dot := lead && At(str, n) == '.';
      Code(pattern[p..], str[n..], lead, noescape) ==
      if c == '?' then n < |str| && !dot && Code(pattern[p + 1..], str[n + 1..], false, noescape)
      else if c == '\\' && !noescape then
        p + 1 < |pattern| && n < |str| && str[n] == pattern[p + 1] && Code(pattern[p + 2..], str[n + 1..], false, noescape)
      else if c == '*' then !dot && StarRun(pattern[p + 1..], str[n..], noescape)
      else if c == '[' then
        n < |str| && !dot &&
        var rest := Bracket(pattern[p + 1..], str[n], noescape);
        rest.Some? && Code(rest.value, str[n + 1..], false, noescape)
      else n < |str| && c == str[n] && Code(pattern[p + 1..], str[n + 1..], false, noescape)
  {
    hide Bracket, StarRun;
    assert pattern[p..][1..] == pattern[p + 1..];
    if p + 1 < |pattern| {
      assert pattern[p..][2..] == pattern[p + 2..];
    }
    if n < |str| {
      assert str[n..][1..] == str[n + 1..];
    }
  }

  /** Behind a star: the run of question marks and stars, then the search for a place to go on. */
  method MatchStar(pattern: string, start: nat, str: string, from: nat, noescape: bool) returns (r: int)
    requires 0 < start <= |pattern| && from <= |str| && NullFree(pattern) && NullFree(str)
    ensures r == 0 || r == FNM_NOMATCH
    ensures r == 0 <==> StarRun(pattern[start..], str[from..], noescape)
    decreases |pattern| - start, |str|, 2
  {
    hide Code, StarRun, Scan, Filter;
    var p, n := start, from;
    r := FNM_NOMATCH;
    while p < |pattern| && (pattern[p] == '?' || pattern[p] == '*')
      invariant start <= p <= |pattern| && from <= n <= |str|
      invariant StarRun(pattern[p..], str[n..], noescape) == StarRun(pattern[start..], str[from..], noescape)
    {
      StarRunStep(pattern, p, str, n, noescape);
      if pattern[p] == '?' && n == |str| {
        return;
      }
      p := p + 1;
      if n < |str| {
        n := n + 1;
      }
    }
    if p == |pattern| {
      assert pattern[p..] == "";
      StarRunEnd(str[n..], noescape);
      r := 0;
      return;
    }
    StarRunStep(pattern, p, str, n, noescape);
    var c := pattern[p];
    var c1 := if !noescape && c == '\\' then At(pattern, p + 1) else c;
    while n < |str|
      invariant from <= n <= |str|
      invariant Scan(pattern[p..], str[n..], noescape) == StarRun(pattern[start..], str[from..], noescape)
    {
      ScanStep(pattern, p, str, n, noescape);
      if c == '[' || str[n] == c1 {
        var found := Fnmatch(pattern[p..], str[n..], false, noescape);
        if found == 0 {
          r := 0;
          return;
        }
      }
      n := n + 1;
    }
    assert str[n..] == "";
    ScanEnd(pattern[p..], noescape);
  }

  lemma StarRunEnd(s: string, noescape: bool)
    ensures StarRun("", s, noescape)
  {
  }

  lemma StarRunStep(pattern: string, p: nat, str: string, n: nat, noescape: bool)
    requires p < |pattern| && n <= |str|
    ensures var next := if n < |str| then n + 1 else n;
      StarRun(pattern[p..], str[n..], noescape) ==
      if pattern[p] == '?' then n < |str| && StarRun(pattern[p + 1..], str[next..], noescape)
      else if pattern[p] == '*' then StarRun(pattern[p + 1..], str[next..], noescape)
      else Scan(pattern[p..], str[n..], noescape)
  {
    hide Scan;
    assert pattern[p..][1..] == pattern[p + 1..];
    if n < |str| {
      assert str[n..][1..] == str[n + 1..];
    }
  }

  lemma ScanStep(pattern: string, p: nat, str: string, n: nat, noescape: bool)
    requires p < |pattern| && n < |str|
    ensures var c := pattern[p];
      var c1 := if !noescape && c == '\\' then At(pattern, p + 1) else c;
      Scan(pattern[p..], str[n..], noescape) ==
      (((c == '[' || str[n] == c1) && Code(pattern[p..], str[n..], false, noescape))
       || Scan(pattern[p..], str[n + 1..], noescape))
  {
    hide Code;
    assert str[n..][1..] == str[n + 1..];
  }

  lemma ScanEnd(pat: string, noescape: bool)
    requires pat != ""
    ensures !Scan(pat, "", noescape)
  {
  }
}
