/** GNU getopt with short options: the argument permutation and the state it keeps between calls. */
module Getopt {
  import opened Common

  datatype Ordering = RequireOrder | Permute | ReturnInOrder

  // ---------------------------------------------------------------- what the arguments mean

  /** How an option character is listed in the option string. */
  datatype Kind = Unlisted | NoArgument | RequiredArgument | OptionalArgument

  /** my_index. */
  function Index(s: string, c: char): Option<nat> {
    if s == [] then None
    else if s[0] == c then Some(0)
    else match Index(s[1..], c)
      case None => None
      case Some(k) => Some(k + 1)
  }

  function CharAt(s: string, k: nat): char { if k < |s| then s[k] else '\0' }

  function KindOf(optstring: string, c: char): Kind {
    match Index(optstring, c)
    case None => Unlisted
    case Some(k) =>
      if c == ':' then Unlisted
      else if CharAt(optstring, k + 1) != ':' then NoArgument
      else if CharAt(optstring, k + 2) != ':' then RequiredArgument
      else OptionalArgument
  }

  /** `W;` asks for the long-option table, and a caller of getopt has none. */
  predicate NoLongW(optstring: string) {
    match Index(optstring, 'W')
    case None => true
    case Some(k) => CharAt(optstring, k + 1) != ';'
  }

  /** NONOPTION_P. */
  predicate NonOption(arg: string) { CharAt(arg, 0) != '-' || CharAt(arg, 1) == '\0' }

  /** Whether the option characters `chars` end with one that takes the next argument. */
  predicate TakesNext(optstring: string, chars: string) {
    chars != []
    && match KindOf(optstring, chars[0])
       case RequiredArgument => |chars| == 1
       case OptionalArgument => false
       case _ => TakesNext(optstring, chars[1..])
  }

  /** How many arguments an option element at the head of `args` uses, `chars` of it being unread. */
  function Used(optstring: string, chars: string, args: seq<string>): (n: nat)
    requires args != []
    ensures 1 <= n <= |args|
  {
    if TakesNext(optstring, chars) && |args| > 1 then 2 else 1
  }

  /** The arguments that are option elements, or arguments of one, or `--`; and the operands. Each
      list is in the original order. */
  function Sorted(optstring: string, args: seq<string>): (seq<string>, seq<string>)
    decreases |args|
  {
    if args == [] then ([], [])
    else if NonOption(args[0]) then
      var (options, operands) := Sorted(optstring, args[1..]);
      (options, [args[0]] + operands)
    else if args[0] == "--" then (args[..1], args[1..])
    else
      var n := Used(optstring, args[0][1..], args);
      var (options, operands) := Sorted(optstring, args[n..]);
      (args[..n] + options, operands)
  }

  /** One answer of getopt other than -1: the character returned, and optarg. */
  datatype Event = Event(ret: char, optarg: Option<string>)

  /** The next option character of `chars`, and what is left of the element and of the arguments
      after it. */
  function NextEvent(optstring: string, chars: string, rest: seq<string>): (Event, string, seq<string>)
    requires chars != []
  {
    var c := chars[0];
    match KindOf(optstring, c)
    case Unlisted => (Event('?', None), chars[1..], rest)
    case NoArgument => (Event(c, None), chars[1..], rest)
    case OptionalArgument => (Event(c, if |chars| > 1 then Some(chars[1..]) else None), [], rest)
    case RequiredArgument =>
      if |chars| > 1 then (Event(c, Some(chars[1..])), [], rest)
      else if rest == [] then (Event(if CharAt(optstring, 0) == ':' then ':' else '?', None), [], rest)
      else (Event(c, Some(rest[0])), [], rest[1..])
  }

  /** The answers that remain, `chars` being the unread characters of the current element. */
  function Events(optstring: string, chars: string, rest: seq<string>): seq<Event>
    decreases |rest|, |chars|
  {
    if chars != [] then
      var (event, chars', rest') := NextEvent(optstring, chars, rest);
      [event] + Events(optstring, chars', rest')
    else if rest == [] then []
    else if NonOption(rest[0]) then Events(optstring, [], rest[1..])
    else if rest[0] == "--" then []
    else Events(optstring, rest[0][1..], rest[1..])
  }

  function Repeat(n: nat, b: bool): seq<bool> { seq(n, _ => b) }

  /** For each argument, whether it belongs with the options. */
  function Marks(os: string, args: seq<string>): (r: seq<bool>)
    ensures |r| == |args|
    decreases |args|
  {
    if args == [] then []
    else if NonOption(args[0]) then [false] + Marks(os, args[1..])
    else if args[0] == "--" then [true] + Repeat(|args| - 1, false)
    else
      var n := Used(os, args[0][1..], args);
      Repeat(n, true) + Marks(os, args[n..])
  }

  /** The arguments whose mark is `wanted`, in order. */
  function Select(args: seq<string>, marks: seq<bool>, wanted: bool): seq<string>
    requires |args| == |marks|
  {
    if args == [] then []
    else
      var rest := Select(args[1..], marks[1..], wanted);
      if marks[0] == wanted then [args[0]] + rest else rest
  }

  lemma {:induction false} SelectNoMark(args: seq<string>)
    ensures Select(args, Repeat(|args|, false), false) == args
    ensures Select(args, Repeat(|args|, false), true) == []
  {
    if args != [] {
      SelectNoMark(args[1..]);
      assert Repeat(|args|, false)[1..] == Repeat(|args| - 1, false);
    }
  }

  lemma {:induction false} SelectMarked(args: seq<string>, n: nat, marks: seq<bool>)
    requires n <= |args| && |marks| == |args| - n
    ensures Select(args, Repeat(n, true) + marks, true) == args[..n] + Select(args[n..], marks, true)
    ensures Select(args, Repeat(n, true) + marks, false) == Select(args[n..], marks, false)
  {
    if n == 0 {
      assert Repeat(n, true) + marks == marks;
    } else {
      SelectMarked(args[1..], n - 1, marks);
      assert (Repeat(n, true) + marks)[1..] == Repeat(n - 1, true) + marks;
      assert args[1..][n - 1..] == args[n..] && args[..n] == [args[0]] + args[1..][..n - 1];
    }
  }

  /** Sorting marks every argument once and splits by the marks without reordering. */
  lemma {:induction false} SortedSplitsByMarks(os: string, args: seq<string>)
    ensures var marks := Marks(os, args);
      Sorted(os, args) == (Select(args, marks, true), Select(args, marks, false))
    decreases |args|
  {
    if args != [] {
      if NonOption(args[0]) {
        SortedSplitsByMarks(os, args[1..]);
        assert Marks(os, args)[1..] == Marks(os, args[1..]);
      } else if args[0] == "--" {
        SelectNoMark(args[1..]);
        assert Marks(os, args)[1..] == Repeat(|args| - 1, false);
        assert Select(args, Marks(os, args), true) == [args[0]] == args[..1];
      } else {
        var n := Used(os, args[0][1..], args);
        SortedSplitsByMarks(os, args[n..]);
        SelectMarked(args, n, Marks(os, args[n..]));
      }
    }
  }

  // ---------------------------------------------------------------- exchange

  /** The two blocks of `len` elements at `a` and `b` swapped. */
  function SwapBlocks(s: seq<string>, a: nat, b: nat, len: nat): (r: seq<string>)
    requires a + len <= b && b + len <= |s|
    ensures |r| == |s|
  {
    s[..a] + s[b..b + len] + s[a + len..b] + s[a..a + len] + s[b + len..]
  }

  method DoSwapBlocks(argv: array<string>, a: nat, b: nat, len: nat)
    requires a + len <= b && b + len <= argv.Length
    modifies argv
    ensures argv[..] == SwapBlocks(old(argv[..]), a, b, len)
  {
    ghost var was := argv[..];
    for i := 0 to len
      invariant forall k :: 0 <= k < argv.Length && !(a <= k < a + i) && !(b <= k < b + i) ==> argv[k] == was[k]
      invariant forall k :: a <= k < a + i ==> argv[k] == was[k + (b - a)]
      invariant forall k :: b <= k < b + i ==> argv[k] == was[k - (b - a)]
    {
      var tem := argv[a + i];
      argv[a + i] := argv[b + i];
      argv[b + i] := tem;
    }
    SwappedPointwise(was, argv[..], a, b, len);
  }

  lemma SwappedPointwise(s: seq<string>, t: seq<string>, a: nat, b: nat, len: nat)
    requires a + len <= b && b + len <= |s| == |t|
    requires forall k :: 0 <= k < |s| && !(a <= k < a + len) && !(b <= k < b + len) ==> t[k] == s[k]
    requires forall k :: a <= k < a + len ==> t[k] == s[k + (b - a)]
    requires forall k :: b <= k < b + len ==> t[k] == s[k - (b - a)]
    ensures t == SwapBlocks(s, a, b, len)
  {
    var r := SwapBlocks(s, a, b, len);
    forall k | 0 <= k < |t|
      ensures t[k] == r[k]
    {
      if k < a {
      } else if k < a + len {
        assert r[k] == s[b..b + len][k - a];
      } else if k < b {
        assert r[k] == s[a + len..b][k - (a + len)];
      } else if k < b + len {
        assert r[k] == s[a..a + len][k - b];
      }
    }
  }

  /** Adjacent segments `s[bottom..middle]` and `s[middle..top]` exchanged. */
  function Exchanged(s: seq<string>, bottom: nat, middle: nat, top: nat): (r: seq<string>)
    requires bottom <= middle <= top <= |s|
    ensures |r| == |s|
  {
    s[..bottom] + s[middle..top] + s[bottom..middle] + s[top..]
  }

  lemma ExchangeShortBottom(s: seq<string>, bottom: nat, middle: nat, top: nat)
    requires bottom <= middle <= top <= |s| && middle - bottom <= top - middle
    ensures var len := middle - bottom;
      Exchanged(SwapBlocks(s, bottom, top - len, len), bottom, middle, top - len) == Exchanged(s, bottom, middle, top)
  {}

  lemma ExchangeShortTop(s: seq<string>, bottom: nat, middle: nat, top: nat)
    requires bottom <= middle <= top <= |s| && top - middle <= middle - bottom
    ensures var len := top - middle;
      Exchanged(SwapBlocks(s, bottom, middle, len), bottom + len, middle, top) == Exchanged(s, bottom, middle, top)
  {}

  lemma NothingToExchange(s: seq<string>, bottom: nat, middle: nat, top: nat)
    requires bottom <= middle <= top <= |s| && (bottom == middle || middle == top)
    ensures Exchanged(s, bottom, middle, top) == s
  {}

  // ---------------------------------------------------------------- between calls

  /** Where the scan stands: `args[first..last]` are the operands held back, `args[last..optind]`
      the options since, and `unread` what is left of the option element at `optind`. */
  datatype Position = Position(first: nat, last: nat, optind: nat, unread: string)

  predicate WellPlaced(args: seq<string>, p: Position) {
    p.first <= p.last <= p.optind <= |args| && (p.unread != [] ==> p.optind < |args|)
  }

  /** The options and operands among the arguments that are still to be read. */
  function Remaining(os: string, args: seq<string>, p: Position): (seq<string>, seq<string>)
    requires WellPlaced(args, p)
  {
    if p.unread == [] then Sorted(os, args[p.optind..])
    else
      var n := Used(os, p.unread, args[p.optind..]);
      var (options, operands) := Sorted(os, args[p.optind + n..]);
      (args[p.optind..p.optind + n] + options, operands)
  }

  /** The program name and all options, in order, as the scan will leave them. */
  function Options(os: string, args: seq<string>, p: Position): seq<string>
    requires WellPlaced(args, p)
  {
    args[..p.first] + args[p.last..p.optind] + Remaining(os, args, p).0
  }

  function Operands(os: string, args: seq<string>, p: Position): seq<string>
    requires WellPlaced(args, p)
  {
    args[p.first..p.last] + Remaining(os, args, p).1
  }

  function Answers(os: string, args: seq<string>, p: Position): seq<Event>
    requires WellPlaced(args, p)
  {
    Events(os, p.unread, args[if p.unread == [] then p.optind else p.optind + 1..])
  }

  predicate SameWork(os: string, args: seq<string>, p: Position, args': seq<string>, p': Position)
    requires WellPlaced(args, p) && WellPlaced(args', p')
  {
    Options(os, args', p') == Options(os, args, p) && Operands(os, args', p') == Operands(os, args, p)
  }

  /** Exchanging puts the options before the operands held back. */
  lemma ExchangeKeepsWork(os: string, args: seq<string>, p: Position)
    requires WellPlaced(args, p)
    ensures var args' := Exchanged(args, p.first, p.last, p.optind);
      var p' := p.(first := p.first + (p.optind - p.last), last := p.optind);
      && WellPlaced(args', p') && SameWork(os, args, p, args', p')
      && args'[p.optind..] == args[p.optind..]
      && Answers(os, args', p') == Answers(os, args, p)
  {
    var args' := Exchanged(args, p.first, p.last, p.optind);
    assert forall k :: p.optind <= k <= |args| ==> args'[k..] == args[k..];
    var n := if p.unread == [] then 0 else Used(os, p.unread, args[p.optind..]);
    assert args'[p.optind..p.optind + n] == args[p.optind..][..n] == args[p.optind..p.optind + n];
    var first' := p.first + (p.optind - p.last);
    assert args'[..first'] == args[..p.first] + args[p.last..p.optind];
    assert args'[first'..p.optind] == args[p.first..p.last];
    assert args'[p.optind..p.optind] == [];
  }

  /** When no operand is held back, the options since join the others. */
  lemma JoinOptions(os: string, args: seq<string>, p: Position)
    requires WellPlaced(args, p) && p.first == p.last
    ensures var p' := p.(first := p.optind, last := p.optind);
      SameWork(os, args, p, args, p') && Answers(os, args, p') == Answers(os, args, p)
  {
    assert args[..p.optind] == args[..p.first] + args[p.first..p.optind];
  }

  /** An operand is held back. */
  lemma HoldOperand(os: string, args: seq<string>, first: nat, i: nat)
    requires first <= i < |args| && NonOption(args[i])
    ensures var p, p' := Position(first, i, i, []), Position(first, i + 1, i + 1, []);
      SameWork(os, args, p, args, p') && Answers(os, args, p') == Answers(os, args, p)
  {
    assert args[i..][1..] == args[i + 1..];
    assert args[first..i + 1] == args[first..i] + [args[i]];
  }

  /** An option element is begun. */
  lemma BeginElement(os: string, args: seq<string>, first: nat, i: nat)
    requires first <= i < |args| && !NonOption(args[i]) && args[i] != "--"
    ensures var p := Position(first, i, i, []);
      var p' := p.(unread := args[i][1..]);
      p'.unread != [] && SameWork(os, args, p, args, p') && Answers(os, args, p') == Answers(os, args, p)
  {
    var n := Used(os, args[i][1..], args[i..]);
    assert args[i..][1..] == args[i + 1..] && args[i..][n..] == args[i + n..] && args[i..][..n] == args[i..i + n];
  }

  /** Before the first call. */
  lemma WorkAtFirst(os: string, args: seq<string>)
    requires args != []
    ensures var p := Position(1, 1, 1, []);
      && Options(os, args, p) == args[..1] + Sorted(os, args[1..]).0
      && Operands(os, args, p) == Sorted(os, args[1..]).1
      && Answers(os, args, p) == Events(os, [], args[1..])
  {}

  /** The end of the arguments. */
  lemma NothingLeft(os: string, args: seq<string>, first: nat)
    requires first <= |args|
    ensures var p := Position(first, |args|, |args|, []);
      Options(os, args, p) == args[..first] && Operands(os, args, p) == args[first..] && Answers(os, args, p) == []
  {}

  /** `--` is kept among the options and ends them. */
  lemma AtDashDash(os: string, args: seq<string>, first: nat, i: nat)
    requires first <= i < |args| && args[i] == "--"
    ensures var p := Position(first, i, i, []);
      && Options(os, args, p) == args[..first] + [args[i]]
      && Operands(os, args, p) == args[first..i] + args[i + 1..]
      && Answers(os, args, p) == []
    ensures Exchanged(args, first, i, i + 1) == args[..first] + [args[i]] + args[first..i] + args[i + 1..]
  {
    assert args[i..][..1] == [args[i]] && args[i..][1..] == args[i + 1..];
  }

  /** The position after the next option character. */
  function AfterChar(os: string, args: seq<string>, p: Position): (p': Position)
    requires WellPlaced(args, p) && p.unread != []
    ensures p'.optind >= p.optind
  {
    var rest := args[p.optind + 1..];
    var (_, chars', rest') := NextEvent(os, p.unread, rest);
    if chars' != [] then p.(unread := chars')
    else p.(optind := p.optind + 1 + (|rest| - |rest'|), unread := [])
  }

  lemma ReadChar(os: string, args: seq<string>, p: Position)
    requires WellPlaced(args, p) && p.unread != []
    ensures var p' := AfterChar(os, args, p);
      && WellPlaced(args, p') && SameWork(os, args, p, args, p')
      && Answers(os, args, p) == [NextEvent(os, p.unread, args[p.optind + 1..]).0] + Answers(os, args, p')
  {
    var p' := AfterChar(os, args, p);
    if p'.unread == [] {
      var n := Used(os, p.unread, args[p.optind..]);
      if |p.unread| == 1 {
        assert p.unread[1..] == [] && !TakesNext(os, []);
      }
      assert p'.optind == p.optind + n;
      assert args[p.last..p.optind] + args[p.optind..p.optind + n] == args[p.last..p.optind + n];
    }
  }

  // ---------------------------------------------------------------- the scanner

  /** What a call returns: -1, or an option character (`?` or `:` for an error). */
  datatype Ret = End | Code(c: char)

  /** The static variables of getopt.c. */
  class Scanner {
    const posixlyCorrect: bool
    var initialized: bool
    var optind: nat
    var firstNonopt: nat
    var lastNonopt: nat
    /** The unread characters of the current option element; None for a null pointer. */
    var nextchar: Option<string>
    var ordering: Ordering
    var optarg: Option<string>
    var optopt: char

    constructor (posixlyCorrect: bool)
      ensures this.posixlyCorrect == posixlyCorrect && !initialized && optind == 1
    {
      this.posixlyCorrect := posixlyCorrect;
      initialized, optind, firstNonopt, lastNonopt := false, 1, 0, 0;
      nextchar, ordering, optarg, optopt := None, Permute, None, '?';
    }

    function Unread(): string
      reads this`nextchar
    {
      if nextchar.Some? then nextchar.value else []
    }

    method Exchange(argv: array<string>)
      requires firstNonopt <= lastNonopt <= optind <= argv.Length
      modifies this`firstNonopt, this`lastNonopt, argv
      ensures argv[..] == Exchanged(old(argv[..]), old(firstNonopt), old(lastNonopt), optind)
      ensures firstNonopt == old(firstNonopt) + (optind - old(lastNonopt)) && lastNonopt == optind
    {
      var bottom: nat, middle: nat, top: nat := firstNonopt, lastNonopt, optind;
      hide Exchanged, SwapBlocks;
      ghost var target := Exchanged(argv[..], bottom, middle, top);
      while top > middle && middle > bottom
        invariant bottom <= middle <= top <= argv.Length
        invariant Exchanged(argv[..], bottom, middle, top) == target
        invariant firstNonopt == old(firstNonopt) && lastNonopt == old(lastNonopt)
        decreases top - bottom
      {
        if top - middle > middle - bottom {
          var len := middle - bottom;
          ExchangeShortBottom(argv[..], bottom, middle, top);
          DoSwapBlocks(argv, bottom, top - len, len);
          top := top - len;
        } else {
          var len := top - middle;
          ExchangeShortTop(argv[..], bottom, middle, top);
          DoSwapBlocks(argv, bottom, middle, len);
          bottom := bottom + len;
        }
      }
      NothingToExchange(argv[..], bottom, middle, top);
      firstNonopt := firstNonopt + (optind - lastNonopt);
      lastNonopt := optind;
    }

    /** _getopt_initialize; the option string without an ordering flag is returned. */
    method Initialize(optstring: string) returns (os: string)
      modifies this`firstNonopt, this`lastNonopt, this`nextchar, this`ordering
      ensures firstNonopt == lastNonopt == optind && nextchar == None
      ensures CharAt(optstring, 0) == '-' ==> ordering == ReturnInOrder && os == optstring[1..]
      ensures CharAt(optstring, 0) == '+' ==> ordering == RequireOrder && os == optstring[1..]
      ensures CharAt(optstring, 0) !in {'-', '+'} ==>
        os == optstring && ordering == if posixlyCorrect then RequireOrder else Permute
    {
      firstNonopt, lastNonopt := optind, optind;
      nextchar := None;
      os := optstring;
      if CharAt(optstring, 0) == '-' {
        ordering := ReturnInOrder;
        os := optstring[1..];
      } else if CharAt(optstring, 0) == '+' {
        ordering := RequireOrder;
        os := optstring[1..];
      } else if posixlyCorrect {
        ordering := RequireOrder;
      } else {
        ordering := Permute;
      }
    }

    function At(): Position
      reads this`firstNonopt, this`lastNonopt, this`optind, this`nextchar
    {
      Position(firstNonopt, lastNonopt, optind, Unread())
    }

    /** Where the next call starts from: a first call initializes, and between elements the records
        are corrected for an optind moved back by the user. */
    function Start(): Position
      reads this`initialized, this`firstNonopt, this`lastNonopt, this`optind, this`nextchar
    {
      var i := if optind == 0 then 1 else optind;
      if optind == 0 || !initialized then Position(i, i, i, [])
      else if Unread() != [] then At()
      else Position(if firstNonopt > i then i else firstNonopt, if lastNonopt > i then i else lastNonopt, i, [])
    }

    /** The scan permutes: it has begun so, or the next call will choose so. */
    predicate Permuting(optstring: string)
      reads this`initialized, this`optind, this`ordering
    {
      if optind == 0 || !initialized then CharAt(optstring, 0) !in {'-', '+'} && !posixlyCorrect
      else ordering.Permute?
    }

    /** The PERMUTE block: move the options just read in front of the operands held back, and hold
        back the operands that follow. */
    method HoldOperands(argv: array<string>, ghost os: string)
      requires WellPlaced(argv[..], At()) && Unread() == []
      modifies this`optind, this`firstNonopt, this`lastNonopt, argv
      ensures WellPlaced(argv[..], At()) && lastNonopt == optind >= old(optind) && Unread() == []
      ensures optind < argv.Length ==> !NonOption(argv[optind])
      ensures SameWork(os, old(argv[..]), old(At()), argv[..], At())
      ensures Answers(os, argv[..], At()) == Answers(os, old(argv[..]), old(At()))
    {
      hide Exchanged, Options, Operands, Answers;
      ghost var args0, p0 := argv[..], At();
      if firstNonopt != lastNonopt && lastNonopt != optind {
        ExchangeKeepsWork(os, argv[..], At());
        Exchange(argv);
      } else if lastNonopt != optind {
        JoinOptions(os, argv[..], At());
        firstNonopt := optind;
      }
      lastNonopt := optind;
      assert At() == Position(firstNonopt, optind, optind, []);
      while optind < argv.Length && NonOption(argv[optind])
        invariant firstNonopt <= optind <= argv.Length && old(optind) <= optind
        invariant var p := Position(firstNonopt, optind, optind, []);
          SameWork(os, args0, p0, argv[..], p) && Answers(os, argv[..], p) == Answers(os, args0, p0)
      {
        HoldOperand(os, argv[..], firstNonopt, optind);
        optind := optind + 1;
      }
      lastNonopt := optind;
      assert At() == Position(firstNonopt, optind, optind, []);
    }

    /** What a scan that has ended leaves. */
    ghost predicate Finished(os: string, args: seq<string>, p: Position, args': seq<string>)
      requires WellPlaced(args, p)
      reads this`optind
    {
      && Answers(os, args, p) == []
      && args' == Options(os, args, p) + Operands(os, args, p)
      && optind == |Options(os, args, p)|
    }

    /** With the operands up to `optind` held back: end the scan, or begin the option element. */
    method EndOrBegin(argv: array<string>, ghost os: string) returns (end: bool)
      requires WellPlaced(argv[..], At()) && Unread() == [] && lastNonopt == optind
      requires optind < argv.Length ==> !NonOption(argv[optind])
      modifies this`optind, this`firstNonopt, this`lastNonopt, this`nextchar, argv
      ensures end ==> Finished(os, old(argv[..]), old(At()), argv[..])
      ensures !end ==>
        && argv[..] == old(argv[..]) && optind == old(optind) && Unread() != [] && WellPlaced(argv[..], At())
        && SameWork(os, argv[..], old(At()), argv[..], At())
        && Answers(os, argv[..], At()) == Answers(os, argv[..], old(At()))
    {
      hide Exchanged, Options, Operands, Answers;
      ghost var args0, first0, optind0 := argv[..], firstNonopt, optind;
      assert At() == Position(firstNonopt, optind, optind, []);
      if optind != argv.Length && argv[optind] == "--" {
        AtDashDash(os, argv[..], firstNonopt, optind);
        optind := optind + 1;
        if firstNonopt != lastNonopt && lastNonopt != optind {
          Exchange(argv);
        } else if firstNonopt == lastNonopt {
          firstNonopt := optind;
        }
        lastNonopt := argv.Length;
        optind := argv.Length;
        if firstNonopt == lastNonopt {
          assert args0[first0..optind0] + args0[optind0 + 1..] == [];
        }
      } else if optind == argv.Length {
        NothingLeft(os, argv[..], firstNonopt);
      }
      if optind == argv.Length {
        if firstNonopt != lastNonopt {
          optind := firstNonopt;
        }
        return true;
      }
      BeginElement(os, argv[..], firstNonopt, optind);
      nextchar := Some(argv[optind][1..]);
      return false;
    }

    /** The short-option part: decode the next character of the current element. */
    method DecodeShort(argv: array<string>, os: string) returns (c: char)
      requires WellPlaced(argv[..], At()) && Unread() != [] && NoLongW(os) && optarg == None
      modifies this`optind, this`nextchar, this`optarg, this`optopt
      ensures At() == AfterChar(os, argv[..], old(At()))
      ensures Event(c, optarg) == NextEvent(os, old(Unread()), argv[old(optind) + 1..]).0
      ensures c == '?' && old(KindOf(os, Unread()[0])).Unlisted? ==> optopt == old(Unread()[0])
    {
      c := nextchar.value[0];
      nextchar := Some(nextchar.value[1..]);
      var temp := Index(os, c);
      if nextchar.value == [] {
        optind := optind + 1;
      }
      if temp == None || c == ':' {
        optopt := c;
        return '?';
      }
      var k := temp.value;
      if CharAt(os, k + 1) == ':' {
        if CharAt(os, k + 2) == ':' {
          if nextchar.value != [] {
            optarg := nextchar;
            optind := optind + 1;
          } else {
            optarg := None;
          }
          nextchar := None;
        } else {
          if nextchar.value != [] {
            optarg := nextchar;
            optind := optind + 1;
          } else if optind == argv.Length {
            optopt := c;
            c := if CharAt(os, 0) == ':' then ':' else '?';
          } else {
            optarg := Some(argv[optind]);
            optind := optind + 1;
          }
          nextchar := None;
        }
      }
    }

    /** getopt, when it permutes. */
    method Getopt(argv: array<string>, optstring: string) returns (ret: Ret)
      requires Permuting(optstring) && NoLongW(optstring)
      requires WellPlaced(argv[..], Start())
      modifies this, argv
      ensures ret.End? ==> Finished(optstring, old(argv[..]), old(Start()), argv[..])
      ensures ret.Code? ==>
        && initialized && 0 < optind && Permuting(optstring) && WellPlaced(argv[..], At())
        && SameWork(optstring, old(argv[..]), old(Start()), argv[..], At())
        && Answers(optstring, old(argv[..]), old(Start()))
           == [Event(ret.c, optarg)] + Answers(optstring, argv[..], At())
    {
      hide Options, Operands, Answers, AfterChar, NextEvent, KindOf, NoLongW, Exchanged, Start, Permuting;
      optarg := None;
      var os := Begin(argv, optstring);
      if Unread() == [] {
        HoldOperands(argv, os);
        var end := EndOrBegin(argv, os);
        if end {
          return End;
        }
      }
      ReadChar(os, argv[..], At());
      var c := DecodeShort(argv, os);
      PermutingIsOrdering(optstring);
      return Code(c);
    }

    /** What a call does first: initialize, and between elements bring the records of the operands
        held back into range. */
    method Begin(argv: array<string>, optstring: string) returns (os: string)
      requires Permuting(optstring) && WellPlaced(argv[..], Start())
      modifies this`initialized, this`optind, this`firstNonopt, this`lastNonopt, this`nextchar, this`ordering
      ensures At() == old(Start()) && os == optstring
      ensures initialized && optind > 0 && ordering.Permute?
    {
      os := optstring;
      if optind == 0 || !initialized {
        if optind == 0 {
          optind := 1;
        }
        os := Initialize(optstring);
        initialized := true;
      }
      if Unread() == [] {
        if lastNonopt > optind {
          lastNonopt := optind;
        }
        if firstNonopt > optind {
          firstNonopt := optind;
        }
      }
    }

    lemma PermutingIsOrdering(optstring: string)
      requires initialized && optind > 0
      ensures Permuting(optstring) <==> ordering.Permute?
    {}

    /** Calling getopt until it returns -1: the options with their arguments come first, in their
        original order, then the operands in theirs, with optind at the first operand; and the
        answers are those of a left-to-right reading of the original arguments. */
    method GetAll(argv: array<string>, optstring: string) returns (events: seq<Event>)
      requires argv.Length > 0 && (optind == 0 || (!initialized && optind == 1))
      requires Permuting(optstring) && NoLongW(optstring)
      modifies this, argv
      ensures var (options, operands) := Sorted(optstring, old(argv[1..]));
        && argv[..] == old(argv[..1]) + options + operands
        && optind == 1 + |options|
      ensures events == Events(optstring, [], old(argv[1..]))
    {
      hide Sorted, Events, Permuting, Options, Operands, Answers;
      events := [];
      ghost var args0, p0 := argv[..], Start();
      WorkAtFirst(optstring, args0);
      var ret := Getopt(argv, optstring);
      while !ret.End?
        invariant ret.Code? ==>
          && initialized && 0 < optind && Permuting(optstring) && WellPlaced(argv[..], At())
          && SameWork(optstring, args0, p0, argv[..], At())
          && Answers(optstring, args0, p0)
             == events + [Event(ret.c, optarg)] + Answers(optstring, argv[..], At())
        invariant ret.End? ==>
          && events == Answers(optstring, args0, p0)
          && argv[..] == Options(optstring, args0, p0) + Operands(optstring, args0, p0)
          && optind == |Options(optstring, args0, p0)|
        decreases |Answers(optstring, args0, p0)| - |events|, !ret.End?
      {
        events := events + [Event(ret.c, optarg)];
        ret := Getopt(argv, optstring);
      }
    }
  }
}
