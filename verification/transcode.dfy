/** The character encoders and the two converters between UTF-16 and UTF-8 of xmltok.c. */
module Transcode {
  import opened Common

  type Scalar = c: bv32 | c < 0xD800 || 0xE000 <= c < 0x110000

  /** XmlUtf8Encode for a legal character number (section 3 of RFC 3629). */
  function Utf8Encode(c: bv32): (r: seq<byte>)
    requires c < 0x110000
    ensures 1 <= |r| <= 4
  {
    if c < 0x80 then [c as byte]
    else if c < 0x800 then [((c >> 6) | 0xC0) as byte, ((c & 0x3F) | 0x80) as byte]
    else if c < 0x10000 then
      [((c >> 12) | 0xE0) as byte, (((c >> 6) & 0x3F) | 0x80) as byte, ((c & 0x3F) | 0x80) as byte]
    else
      [((c >> 18) | 0xF0) as byte, (((c >> 12) & 0x3F) | 0x80) as byte,
       (((c >> 6) & 0x3F) | 0x80) as byte, ((c & 0x3F) | 0x80) as byte]
  }

  /** XmlUtf16Encode for a legal character number (section 2 of RFC 2781). */
  function Utf16Encode(c: bv32): (r: seq<bv16>)
    requires c < 0x110000
    ensures 1 <= |r| <= 2
  {
    if c < 0x10000 then [c as bv16]
    else LessBaseBound(c); [HighHalf(LessBase(c)), LowHalf(LessBase(c))]
  }

  function LessBase(c: bv32): bv32 { c - 0x10000 }

  lemma LessBaseBound(c: bv32)
    requires 0x10000 <= c < 0x110000
    ensures LessBase(c) < 0x100000
  {}

  function HighHalf(d: bv32): bv16
    requires d < 0x100000
  {
    ((d >> 10) + 0xD800) as bv16
  }

  function LowHalf(d: bv32): bv16 { ((d & 0x3FF) + 0xDC00) as bv16 }

  function Utf8All(cs: seq<Scalar>): seq<byte> {
    if cs == [] then [] else Utf8Encode(cs[0]) + Utf8All(cs[1..])
  }

  function Utf16All(cs: seq<Scalar>): seq<bv16> {
    if cs == [] then [] else Utf16Encode(cs[0]) + Utf16All(cs[1..])
  }

  // ---------------------------------------------------------------- UTF-16 to UTF-8

  function Hi(u: bv16): byte { (u >> 8) as byte }

  function Lo(u: bv16): byte { (u & 0xFF) as byte }

  predicate HighSurrogate(u: bv16) { 0xD8 <= Hi(u) <= 0xDB }

  function Plane(hi: byte, lo: byte): byte { (((hi & 0x3) << 2) | ((lo >> 6) & 0x3)) + 1 }

  /** A surrogate pair, each half given by its two bytes. */
  function PairToUtf8(hi: byte, lo: byte, hi2: byte, lo2: byte): (r: seq<byte>)
    ensures |r| == 4
  {
    var plane := Plane(hi, lo);
    [(plane >> 2) | 0xF0,
     ((lo >> 2) & 0xF) | ((plane & 0x3) << 4) | 0x80,
     ((lo & 0x3) << 4) | ((hi2 & 0x3) << 2) | (lo2 >> 6) | 0x80,
     (lo2 & 0x3F) | 0x80]
  }

  function ThreeToUtf8(hi: byte, lo: byte): (r: seq<byte>)
    ensures |r| == 3
  {
    [(hi >> 4) | 0xE0, ((hi & 0xF) << 2) | (lo >> 6) | 0x80, (lo & 0x3F) | 0x80]
  }

  /** The bytes that one turn of the toUtf8 loop writes for the unit `u`, `v` being the unit after
      it (used only when `u` is a high surrogate). */
  function UnitToUtf8(u: bv16, v: bv16): (r: seq<byte>)
    ensures 1 <= |r| <= 4
  {
    var lo, hi := Lo(u), Hi(u);
    if hi == 0 && lo < 0x80 then [lo]
    else if hi <= 7 then [(lo >> 6) | (hi << 2) | 0xC0, (lo & 0x3F) | 0x80]
    else if HighSurrogate(u) then PairToUtf8(hi, lo, Hi(v), Lo(v))
    else ThreeToUtf8(hi, lo)
  }

  function UnitCount(u: bv16): (n: nat)
    ensures 1 <= n <= 2
  {
    if HighSurrogate(u) then 2 else 1
  }

  /** No high surrogate ends the text: the converter reads the unit after one unchecked. */
  predicate PairsComplete(units: seq<bv16>)
  {
    units == [] || (UnitCount(units[0]) <= |units| && PairsComplete(units[UnitCount(units[0])..]))
  }

  function CharToUtf8(units: seq<bv16>): (r: seq<byte>)
    requires units != [] && UnitCount(units[0]) <= |units|
    ensures 1 <= |r| <= 4
  {
    UnitToUtf8(units[0], if HighSurrogate(units[0]) then units[1] else 0)
  }

  /** What toUtf8 does with `room` bytes of output: how many units it takes, and what it writes. */
  function ToUtf8(units: seq<bv16>, room: nat): (r: (nat, seq<byte>))
    requires PairsComplete(units)
    ensures r.0 <= |units| && |r.1| <= room
  {
    if units == [] then (0, [])
    else
      var bytes := CharToUtf8(units);
      if room < |bytes| then (0, [])
      else
        var n := UnitCount(units[0]);
        var (taken, rest) := ToUtf8(units[n..], room - |bytes|);
        (n + taken, bytes + rest)
  }

  /** `*to++ = x` for each of `xs`. */
  method PutUnits<T>(to: array<T>, at: nat, xs: seq<T>)
    requires at + |xs| <= to.Length
    modifies to
    ensures to[..] == old(to[..at]) + xs + old(to[at + |xs|..])
  {
    forall k | 0 <= k < |xs| {
      to[at + k] := xs[k];
    }
  }

  /** Writes `xs` behind what was written before, `out`, into an array that held `was`. */
  method PutBehind<T>(to: array<T>, ghost was: seq<T>, start: nat, ghost out: seq<T>, at: nat, xs: seq<T>)
    requires at == start + |out| && at + |xs| <= to.Length == |was|
    requires to[..] == was[..start] + out + was[at..]
    modifies to
    ensures to[..] == was[..start] + (out + xs) + was[at + |xs|..]
  {
    PutUnits(to, at, xs);
  }

  lemma TakesOneChar(units: seq<bv16>, from: nat, room: nat)
    requires from < |units| && PairsComplete(units[from..])
    ensures var n := UnitCount(units[from]);
      && from + n <= |units| && PairsComplete(units[from + n..])
      && var bytes := CharToUtf8(units[from..]);
         ToUtf8(units[from..], room) == (
           if room < |bytes| then (0, [])
           else var (more, rest) := ToUtf8(units[from + n..], room - |bytes|); (n + more, bytes + rest))
  {
    hide CharToUtf8;
    assert units[from..][UnitCount(units[from])..] == units[from + UnitCount(units[from])..];
  }

  lemma NoUnits(units: seq<bv16>, room: nat)
    requires units == []
    ensures PairsComplete(units) && ToUtf8(units, room) == (0, [])
  {}

  /** The toUtf8 loop: units from `from` on, output into `to[start..]`. */
  method DoToUtf8(units: seq<bv16>, to: array<byte>, start: nat) returns (from: nat, end: nat)
    requires PairsComplete(units) && start <= to.Length
    modifies to
    ensures var (taken, bytes) := ToUtf8(units, to.Length - start);
      from == taken && end == start + |bytes|
      && to[..] == old(to[..start]) + bytes + old(to[end..])
  {
    hide CharToUtf8, HighSurrogate, UnitCount, ToUtf8, PairsComplete;
    from, end := 0, start;
    ghost var was, out := to[..], [];
    assert units[from..] == units;
    while from != |units|
      invariant from <= |units| && end == start + |out| <= to.Length && PairsComplete(units[from..])
      invariant to[..] == was[..start] + out + was[end..]
      invariant var (taken, bytes) := ToUtf8(units, to.Length - start);
        var (more, rest) := ToUtf8(units[from..], to.Length - end);
        taken == from + more && bytes == out + rest
    {
      TakesOneChar(units, from, to.Length - end);
      var n := UnitCount(units[from]);
      var bytes := CharToUtf8(units[from..]);
      if to.Length - end < |bytes| {
        return;
      }
      PutBehind(to, was, start, out, end, bytes);
      from, end, out := from + n, end + |bytes|, out + bytes;
    }
    NoUnits(units[from..], to.Length - end);
  }

  // ---------------------------------------------------------------- UTF-8 to UTF-16

  /** The byte types of utf8tab.h that introduce longer characters. */
  function Utf8Length(b: byte): (n: nat)
    ensures 1 <= n <= 4
  {
    if 0xC0 <= b <= 0xDF then 2 else if 0xE0 <= b <= 0xEF then 3 else if 0xF0 <= b <= 0xF4 then 4 else 1
  }

  /** No character is cut by the end of the text: utf8_toUtf16 does not check. */
  predicate CharsComplete(bytes: seq<byte>)
  {
    bytes == [] || (Utf8Length(bytes[0]) <= |bytes| && CharsComplete(bytes[Utf8Length(bytes[0])..]))
  }

  function JoinTwo(b0: byte, b1: byte): bv16 { (((b0 & 0x1F) as bv16) << 6) | ((b1 & 0x3F) as bv16) }

  function JoinThree(b0: byte, b1: byte, b2: byte): bv16 {
    (((b0 & 0xF) as bv16) << 12) | (((b1 & 0x3F) as bv16) << 6) | ((b2 & 0x3F) as bv16)
  }

  function JoinFour(b0: byte, b1: byte, b2: byte, b3: byte): bv32 {
    (((b0 & 0x7) as bv32) << 18) | (((b1 & 0x3F) as bv32) << 12) | (((b2 & 0x3F) as bv32) << 6) | ((b3 & 0x3F) as bv32)
  }

  function HighWord(n: bv32): bv16 { (((n >> 10) | 0xD800) & 0xFFFF) as bv16 }

  function LowWord(n: bv32): bv16 { ((n & 0x3FF) | 0xDC00) as bv16 }

  /** The units written for the first character of `b`. */
  function CharToUtf16(b: seq<byte>): (r: seq<bv16>)
    requires b != [] && Utf8Length(b[0]) <= |b|
    ensures 1 <= |r| <= Utf8Length(b[0])
  {
    match Utf8Length(b[0])
    case 2 => [JoinTwo(b[0], b[1])]
    case 3 => [JoinThree(b[0], b[1], b[2])]
    case 4 =>
      var n := LessBase(JoinFour(b[0], b[1], b[2], b[3]));
      [HighWord(n), LowWord(n)]
    case _ => [b[0] as bv16]
  }

  predicate Guard(bytes: seq<byte>, room: nat) {
    bytes != [] && room > 0
  }

  /** One turn of the loop of utf8_toUtf16: the bytes and the room that it leaves. A four-byte character
      that meets a single free unit only leaves the switch. */
  function Turn(bytes: seq<byte>, room: nat): (r: (seq<byte>, nat))
    requires CharsComplete(bytes) && Guard(bytes, room)
    ensures CharsComplete(r.0)
  {
    var n := Utf8Length(bytes[0]);
    if n == 4 && room == 1 then (bytes, room) else (bytes[n..], room - |CharToUtf16(bytes)|)
  }

  /** What is left after `k` turns, or after fewer when the loop ends. */
  function Turns(bytes: seq<byte>, room: nat, k: nat): (r: (seq<byte>, nat))
    requires CharsComplete(bytes)
    ensures CharsComplete(r.0)
    decreases k
  {
    if k == 0 || !Guard(bytes, room) then (bytes, room)
    else var next := Turn(bytes, room); Turns(next.0, next.1, k - 1)
  }

  /** The loop comes to a four-byte character with a single free unit. */
  predicate Stalls(bytes: seq<byte>, room: nat)
    requires CharsComplete(bytes)
    decreases |bytes|
  {
    Guard(bytes, room)
    && var n := Utf8Length(bytes[0]);
       if n == 4 && room == 1 then true else Stalls(bytes[n..], room - |CharToUtf16(bytes)|)
  }

  /** Some turn leaves everything as it was although the loop goes on. */
  ghost predicate Sticks(bytes: seq<byte>, room: nat, k: nat)
    requires CharsComplete(bytes)
  {
    var at := Turns(bytes, room, k);
    Guard(at.0, at.1) && Turn(at.0, at.1) == at
  }

  ghost predicate EndsAfter(bytes: seq<byte>, room: nat, k: nat)
    requires CharsComplete(bytes)
  {
    var at := Turns(bytes, room, k);
    !Guard(at.0, at.1)
  }

  /** The turns of the loop lead into one that changes nothing, and go on without end, exactly when the
      loop stalls; otherwise it ends. */
  lemma StallsIffStuck(bytes: seq<byte>, room: nat)
    requires CharsComplete(bytes)
    ensures Stalls(bytes, room) <==> exists k: nat :: Sticks(bytes, room, k)
    ensures !Stalls(bytes, room) <==> exists k: nat :: EndsAfter(bytes, room, k)
  {
    hide *;
    var k := TurnsUntilDecided(bytes, room);
    forall j: nat
      ensures !Stalls(bytes, room) ==> !Sticks(bytes, room, j)
      ensures Stalls(bytes, room) ==> !EndsAfter(bytes, room, j)
    {
      TurnsStayDecided(bytes, room, j);
    }
  }

  /** The number of turns after which the loop ends or sticks. */
  lemma {:induction false} TurnsUntilDecided(bytes: seq<byte>, room: nat) returns (k: nat)
    requires CharsComplete(bytes)
    ensures if Stalls(bytes, room) then Sticks(bytes, room, k) else EndsAfter(bytes, room, k)
    decreases |bytes|
  {
    hide CharToUtf16;
    k := 0;
    if Guard(bytes, room) && Turn(bytes, room) != (bytes, room) {
      var next := Turn(bytes, room);
      var more := TurnsUntilDecided(next.0, next.1);
      k := more + 1;
    }
  }

  lemma {:induction false} TurnsStayDecided(bytes: seq<byte>, room: nat, j: nat)
    requires CharsComplete(bytes)
    ensures Stalls(bytes, room) ==> !EndsAfter(bytes, room, j)
    ensures Sticks(bytes, room, j) ==> Stalls(bytes, room)
    decreases j
  {
    hide CharToUtf16;
    if j > 0 && Guard(bytes, room) {
      var next := Turn(bytes, room);
      TurnsStayDecided(next.0, next.1, j - 1);
    }
  }

  /** U+10000 and a single free unit. */
  lemma {:induction false} OneUnitIsTooFew(k: nat)
    ensures var bytes: seq<byte> := [0xF0, 0x90, 0x80, 0x80];
      && CharsComplete(bytes) && Stalls(bytes, 1) && Turns(bytes, 1, k) == (bytes, 1)
      && bytes == Utf8Encode(0x10000)
  {
    if k > 0 {
      OneUnitIsTooFew(k - 1);
    }
  }

  /** The bytes taken and the units written into `room` units. */
  function ToUtf16(bytes: seq<byte>, room: nat): (r: (nat, seq<bv16>))
    requires CharsComplete(bytes)
    ensures r.0 <= |bytes| && |r.1| <= room
    decreases |bytes|
  {
    if bytes == [] || room == 0 then (0, [])
    else
      var n, units := Utf8Length(bytes[0]), CharToUtf16(bytes);
      if |units| > room then (0, [])
      else
        var rest := ToUtf16(bytes[n..], room - |units|);
        (n + rest.0, units + rest.1)
  }

  /** What a turn does to the outcome. */
  lemma TakesOneUtf8Char(bytes: seq<byte>, from: nat, room: nat)
    requires from < |bytes| && CharsComplete(bytes[from..]) && room > 0
    ensures var n, units := Utf8Length(bytes[from]), CharToUtf16(bytes[from..]);
      && from + n <= |bytes| && CharsComplete(bytes[from + n..])
      && if n == 4 && room == 1 then Stalls(bytes[from..], room) && ToUtf16(bytes[from..], room) == (0, [])
         else
           && |units| <= room && (Stalls(bytes[from..], room) <==> Stalls(bytes[from + n..], room - |units|))
           && var rest := ToUtf16(bytes[from + n..], room - |units|);
              ToUtf16(bytes[from..], room) == (n + rest.0, units + rest.1)
  {
    assert bytes[from..][Utf8Length(bytes[from])..] == bytes[from + Utf8Length(bytes[from])..];
    UnitsOfChar(bytes[from..]);
    hide CharToUtf16, Utf8Length;
  }

  lemma UnitsOfChar(b: seq<byte>)
    requires b != [] && Utf8Length(b[0]) <= |b|
    ensures |CharToUtf16(b)| == if Utf8Length(b[0]) == 4 then 2 else 1
  {
  }

  lemma NothingTaken(bytes: seq<byte>, room: nat)
    requires CharsComplete(bytes) && !Guard(bytes, room)
    ensures ToUtf16(bytes, room) == (0, []) && !Stalls(bytes, room)
  {
  }

  /** utf8_toUtf16, as far as the first turn that changes nothing; the original repeats it for ever. */
  method DoToUtf16(bytes: seq<byte>, to: array<bv16>, start: nat) returns (from: nat, end: nat, stalled: bool)
    requires CharsComplete(bytes) && start <= to.Length
    modifies to
    ensures stalled == Stalls(bytes, to.Length - start)
    ensures var (taken, units) := ToUtf16(bytes, to.Length - start);
      && from == taken && end == start + |units|
      && to[..] == old(to[..start]) + units + old(to[end..])
  {
    hide CharToUtf16, Utf8Length, ToUtf16, CharsComplete, Stalls;
    from, end, stalled := 0, start, false;
    ghost var was, out := to[..], [];
    ghost var target, stalls := ToUtf16(bytes, to.Length - start), Stalls(bytes, to.Length - start);
    assert bytes[from..] == bytes && to[..] == was[..start] + out + was[end..];
    while from != |bytes| && end != to.Length
      invariant from <= |bytes| && end == start + |out| && end <= to.Length && !stalled
      invariant CharsComplete(bytes[from..]) && Stalls(bytes[from..], to.Length - end) == stalls
      invariant to[..] == was[..start] + out + was[end..]
      invariant var rest := ToUtf16(bytes[from..], to.Length - end); target.0 == from + rest.0 && target.1 == out + rest.1
      decreases |bytes| - from
    {
      TakesOneUtf8Char(bytes, from, to.Length - end);
      var n := Utf8Length(bytes[from]);
      if n == 4 && end + 1 == to.Length {
        stalled := true;
        return;
      }
      var units := CharToUtf16(bytes[from..]);
      ghost var rest := ToUtf16(bytes[from + n..], to.Length - end - |units|);
      assert out + (units + rest.1) == (out + units) + rest.1;
      PutBehind(to, was, start, out, end, units);
      from, end, out := from + n, end + |units|, out + units;
    }
    NothingTaken(bytes[from..], to.Length - end);
  }

  // ---------------------------------------------------------------- round trips

  lemma TwoByteUnit(c: bv32)
    requires 0x80 <= c < 0x800
    ensures !HighSurrogate(c as bv16) && UnitToUtf8(c as bv16, 0) == Utf8Encode(c)
  {}

  lemma ThreeByteUnit(c: Scalar)
    requires 0x800 <= c < 0x10000
    ensures !HighSurrogate(c as bv16) && UnitToUtf8(c as bv16, 0) == Utf8Encode(c)
  {
    hide PairToUtf8, ThreeToUtf8, Utf8Encode, Hi, Lo;
    NoSurrogate(c);
    ThreeByteBits(c);
  }

  lemma NoSurrogate(c: Scalar)
    requires 0x800 <= c < 0x10000
    ensures Hi(c as bv16) > 7 && !(0xD8 <= Hi(c as bv16) <= 0xDB)
  {}

  lemma ThreeByteBits(c: bv32)
    requires 0x800 <= c < 0x10000
    ensures ThreeToUtf8(Hi(c as bv16), Lo(c as bv16)) == Utf8Encode(c)
  {}

  /** The bytes of a surrogate pair for `d` carry its 20 bits. */
  lemma PairBits(d: bv32)
    requires d < 0x100000
    ensures var u, v := HighHalf(d), LowHalf(d);
      && HighSurrogate(u) && Plane(Hi(u), Lo(u)) == ((d >> 16) + 1) as byte
      && Lo(u) & 0x3F == ((d >> 10) & 0x3F) as byte
      && Hi(v) & 0x3 == ((d >> 8) & 0x3) as byte && Lo(v) == (d & 0xFF) as byte
  {}

  /** Taking 0x10000 from a character number leaves its low 16 bits and takes one from its plane. */
  lemma LowBits(c: bv32)
    requires 0x10000 <= c < 0x110000
    ensures var d := LessBase(c);
      && d < 0x100000 && (d >> 16) + 1 == c >> 16 && (d >> 10) & 0x3F == (c >> 10) & 0x3F
      && (d >> 8) & 0x3 == (c >> 8) & 0x3 && d & 0xFF == c & 0xFF
  {}

  lemma FourBytes(c: bv32, hi: byte, lo: byte, hi2: byte, lo2: byte)
    requires 0x10000 <= c < 0x110000 && Plane(hi, lo) == (c >> 16) as byte && lo & 0x3F == ((c >> 10) & 0x3F) as byte
    requires hi2 & 0x3 == ((c >> 8) & 0x3) as byte && lo2 == (c & 0xFF) as byte
    ensures PairToUtf8(hi, lo, hi2, lo2) == Utf8Encode(c)
  {
    hide Plane;
  }

  lemma SurrogatePair(c: bv32, d: bv32)
    requires 0x10000 <= c < 0x110000 && d < 0x100000
    requires (d >> 16) + 1 == c >> 16 && (d >> 10) & 0x3F == (c >> 10) & 0x3F
    requires (d >> 8) & 0x3 == (c >> 8) & 0x3 && d & 0xFF == c & 0xFF
    ensures HighSurrogate(HighHalf(d)) && UnitToUtf8(HighHalf(d), LowHalf(d)) == Utf8Encode(c)
  {
    hide Plane, Hi, Lo, Utf8Encode, PairToUtf8, HighHalf, LowHalf;
    PairBits(d);
    var u, v := HighHalf(d), LowHalf(d);
    FourBytes(c, Hi(u), Lo(u), Hi(v), Lo(v));
  }

  lemma EncodedPair(c: bv32)
    requires 0x10000 <= c < 0x110000
    ensures var units := Utf16Encode(c);
      |units| == 2 && HighSurrogate(units[0]) && UnitToUtf8(units[0], units[1]) == Utf8Encode(c)
  {
    hide HighHalf, LowHalf, UnitToUtf8, Utf8Encode, HighSurrogate, LessBase;
    LowBits(c);
    SurrogatePair(c, LessBase(c));
  }

  lemma SingleUnit(c: Scalar)
    requires c < 0x10000
    ensures !HighSurrogate(c as bv16) && UnitToUtf8(c as bv16, 0) == Utf8Encode(c)
  {
    if c >= 0x800 {
      ThreeByteUnit(c);
    } else if c >= 0x80 {
      TwoByteUnit(c);
    }
  }

  lemma OneCharToUtf8(c: Scalar, rest: seq<bv16>)
    ensures var units := Utf16Encode(c) + rest;
      && UnitCount(units[0]) == |Utf16Encode(c)|
      && CharToUtf8(units) == Utf8Encode(c)
  {
    hide HighHalf, LowHalf, UnitToUtf8, Utf8Encode, HighSurrogate;
    if c < 0x10000 {
      SingleUnit(c);
    } else {
      EncodedPair(c);
    }
  }

  lemma Utf8Leads(c: Scalar)
    ensures Utf8Length(Utf8Encode(c)[0]) == |Utf8Encode(c)|
  {}

  lemma DecodeTwo(c: bv32)
    requires 0x80 <= c < 0x800
    ensures CharToUtf16(Utf8Encode(c)) == [c as bv16]
  {}

  lemma ThreeFields(c: bv32)
    requires 0x800 <= c < 0x10000
    ensures (((((c >> 12) | 0xE0) as byte) & 0xF) as bv16) << 12 == (c as bv16) & 0xF000
    ensures ((((((c >> 6) & 0x3F) | 0x80) as byte) & 0x3F) as bv16) << 6 == (c as bv16) & 0xFC0
    ensures ((((c & 0x3F) | 0x80) as byte) & 0x3F) as bv16 == (c as bv16) & 0x3F
  {}

  lemma ThreeFieldsJoin(u: bv16)
    ensures (u & 0xF000) | (u & 0xFC0) | (u & 0x3F) == u
  {}

  lemma JoinThreeInverts(c: bv32)
    requires 0x800 <= c < 0x10000
    ensures var b := Utf8Encode(c); |b| == 3 && JoinThree(b[0], b[1], b[2]) == c as bv16
  {
    ThreeFields(c);
    ThreeFieldsJoin(c as bv16);
  }

  lemma DecodeThree(c: Scalar)
    requires 0x800 <= c < 0x10000
    ensures CharToUtf16(Utf8Encode(c)) == [c as bv16]
  {
    hide Utf8Encode, Utf8Length, JoinTwo, JoinThree, JoinFour, HighWord, LowWord;
    Utf8Leads(c);
    JoinThreeInverts(c);
  }

  lemma Fields(c: bv32)
    requires 0x10000 <= c < 0x110000
    ensures ((((c >> 18) | 0xF0) as byte & 0x7) as bv32) << 18 == c & 0x1C0000
    ensures (((((c >> 12) & 0x3F) | 0x80) as byte & 0x3F) as bv32) << 12 == c & 0x3F000
    ensures (((((c >> 6) & 0x3F) | 0x80) as byte & 0x3F) as bv32) << 6 == c & 0xFC0
    ensures (((c & 0x3F) | 0x80) as byte & 0x3F) as bv32 == c & 0x3F
  {}

  lemma FieldsJoin(c: bv32)
    requires c < 0x110000
    ensures (c & 0x1C0000) | (c & 0x3F000) | (c & 0xFC0) | (c & 0x3F) == c
  {}

  lemma JoinInverts(c: bv32)
    requires 0x10000 <= c < 0x110000
    ensures var b := Utf8Encode(c); |b| == 4 && JoinFour(b[0], b[1], b[2], b[3]) == c
  {
    Fields(c);
    FieldsJoin(c);
  }

  lemma WordsAreHalves(d: bv32)
    requires d < 0x100000
    ensures HighWord(d) == HighHalf(d) && LowWord(d) == LowHalf(d)
  {}

  lemma DecodeFour(c: bv32)
    requires 0x10000 <= c < 0x110000
    ensures CharToUtf16(Utf8Encode(c)) == Utf16Encode(c)
  {
    hide Utf8Encode, Utf8Length, JoinTwo, JoinThree, JoinFour, HighWord, LowWord, HighHalf, LowHalf, LessBase;
    Utf8Leads(c);
    JoinInverts(c);
    LessBaseBound(c);
    WordsAreHalves(LessBase(c));
  }

  lemma DecodeOne(c: bv32)
    requires c < 0x80
    ensures CharToUtf16(Utf8Encode(c)) == [c as bv16]
  {}

  lemma OneCharDecides(b: seq<byte>, rest: seq<byte>)
    requires b != [] && Utf8Length(b[0]) <= |b|
    ensures CharToUtf16(b + rest) == CharToUtf16(b)
  {
    hide Utf8Length, JoinTwo, JoinThree, JoinFour, HighWord, LowWord;
  }

  lemma OneCharToUtf16(c: Scalar, rest: seq<byte>)
    ensures var bytes := Utf8Encode(c) + rest;
      Utf8Length(bytes[0]) == |Utf8Encode(c)| && CharToUtf16(bytes) == Utf16Encode(c)
  {
    hide Utf8Encode, Utf8Length, CharToUtf16, HighHalf, LowHalf;
    Utf8Leads(c);
    OneCharDecides(Utf8Encode(c), rest);
    if c >= 0x10000 {
      DecodeFour(c);
    } else if c >= 0x800 {
      DecodeThree(c);
    } else if c >= 0x80 {
      DecodeTwo(c);
    } else {
      DecodeOne(c);
    }
  }

  lemma {:induction false} SplitAt(cs: seq<Scalar>, k: nat)
    requires k <= |cs|
    ensures Utf16All(cs) == Utf16All(cs[..k]) + Utf16All(cs[k..])
    ensures Utf8All(cs) == Utf8All(cs[..k]) + Utf8All(cs[k..])
  {
    hide Utf16Encode, Utf8Encode;
    if k > 0 {
      SplitAt(cs[1..], k - 1);
      assert cs[..k][1..] == cs[1..][..k - 1] && cs[1..][k - 1..] == cs[k..];
    }
  }

  lemma FirstCharToUtf8(cs: seq<Scalar>, room: nat)
    requires cs != [] && PairsComplete(Utf16All(cs[1..]))
    ensures PairsComplete(Utf16All(cs))
    ensures var bytes := Utf8Encode(cs[0]);
      ToUtf8(Utf16All(cs), room) == (
        if room < |bytes| then (0, [])
        else
          var (taken, rest) := ToUtf8(Utf16All(cs[1..]), room - |bytes|);
          (|Utf16Encode(cs[0])| + taken, bytes + rest))
  {
    hide Utf16Encode, Utf8Encode, CharToUtf8, UnitCount;
    OneCharToUtf8(cs[0], Utf16All(cs[1..]));
    assert Utf16All(cs)[|Utf16Encode(cs[0])|..] == Utf16All(cs[1..]);
  }

  /** UTF-16 to UTF-8 stops only between characters: with any room it writes the encodings of a
      prefix `cs[..k]`, the longest that fits, and takes exactly the units of that prefix, so that
      a later call that starts from the remaining units writes the remaining bytes. */
  lemma {:induction false} ToUtf8StopsBetweenCharacters(cs: seq<Scalar>, room: nat) returns (k: nat)
    ensures PairsComplete(Utf16All(cs)) && k <= |cs|
    ensures ToUtf8(Utf16All(cs), room) == (|Utf16All(cs[..k])|, Utf8All(cs[..k]))
    ensures k < |cs| ==> room < |Utf8All(cs[..k + 1])|
    ensures Utf16All(cs)[|Utf16All(cs[..k])|..] == Utf16All(cs[k..])
    ensures Utf8All(cs[..k]) + Utf8All(cs[k..]) == Utf8All(cs)
  {
    hide Utf16Encode, Utf8Encode, ToUtf8, PairsComplete;
    k := 0;
    if cs == [] {
      NoUnits([], room);
    } else {
      var n := |Utf8Encode(cs[0])|;
      var k' := ToUtf8StopsBetweenCharacters(cs[1..], if n <= room then room - n else 0);
      FirstCharToUtf8(cs, room);
      assert cs[..1] == [cs[0]];
      if n <= room {
        k := k' + 1;
        assert cs[..k][1..] == cs[1..][..k'];
        if k < |cs| {
          assert cs[..k + 1][1..] == cs[1..][..k' + 1];
        }
      } else {
        assert Utf8All(cs[..1]) == Utf8Encode(cs[0]) + Utf8All([]);
      }
    }
    SplitAt(cs, k);
  }

  lemma {:induction false} EncodedIsComplete(cs: seq<Scalar>)
    ensures CharsComplete(Utf8All(cs))
  {
    hide Utf8Encode, Utf16Encode, CharToUtf16, Utf8Length;
    if cs != [] {
      OneCharToUtf16(cs[0], Utf8All(cs[1..]));
      assert Utf8All(cs)[|Utf8Encode(cs[0])|..] == Utf8All(cs[1..]);
      EncodedIsComplete(cs[1..]);
    }
  }

  lemma FirstCharToUtf16(cs: seq<Scalar>, room: nat)
    requires cs != [] && room > 0
    ensures CharsComplete(Utf8All(cs)) && CharsComplete(Utf8All(cs[1..]))
    ensures var units := Utf16Encode(cs[0]);
      && (Stalls(Utf8All(cs), room) <==> |units| > room || Stalls(Utf8All(cs[1..]), room - |units|))
      && ToUtf16(Utf8All(cs), room) ==
         if |units| > room then (0, [])
         else
           var rest := ToUtf16(Utf8All(cs[1..]), room - |units|);
           (|Utf8Encode(cs[0])| + rest.0, units + rest.1)
  {
    hide Utf16Encode, Utf8Encode, CharToUtf16, Utf8Length, ToUtf16, Stalls, CharsComplete;
    EncodedIsComplete(cs);
    EncodedIsComplete(cs[1..]);
    OneCharToUtf16(cs[0], Utf8All(cs[1..]));
    var bytes := Utf8All(cs);
    assert bytes[|Utf8Encode(cs[0])|..] == Utf8All(cs[1..]) && bytes[0..] == bytes;
    UnitsOfChar(bytes);
    TakesOneUtf8Char(bytes, 0, room);
  }

  /** UTF-8 to UTF-16 with any room, too: the units of the longest prefix of characters that fits are
      written and the bytes of that prefix are taken. It does not end exactly when one unit is left
      for a character that needs two. */
  lemma {:induction false} ToUtf16StopsBetweenCharacters(cs: seq<Scalar>, room: nat) returns (k: nat)
    ensures CharsComplete(Utf8All(cs)) && k <= |cs|
    ensures ToUtf16(Utf8All(cs), room) == (|Utf8All(cs[..k])|, Utf16All(cs[..k]))
    ensures k < |cs| ==> room < |Utf16All(cs[..k])| + |Utf16Encode(cs[k])|
    ensures Stalls(Utf8All(cs), room) <==> k < |cs| && room == |Utf16All(cs[..k])| + 1
    decreases |cs|
  {
    hide Utf16Encode, Utf8Encode, ToUtf16, Stalls, CharsComplete;
    EncodedIsComplete(cs);
    k := 0;
    if cs == [] || room == 0 {
      NoRoom(cs, room);
    } else {
      FirstCharToUtf16(cs, room);
      var n := |Utf16Encode(cs[0])|;
      if n <= room {
        var k' := ToUtf16StopsBetweenCharacters(cs[1..], room - n);
        k := k' + 1;
        assert cs[..k][1..] == cs[1..][..k'] && cs[..k][0] == cs[0];
      }
    }
  }

  lemma NoRoom(cs: seq<Scalar>, room: nat)
    requires (cs == [] || room == 0) && CharsComplete(Utf8All(cs))
    ensures ToUtf16(Utf8All(cs), room) == (0, []) && !Stalls(Utf8All(cs), room)
  {
    hide Utf8Encode;
  }

  /** UTF-8 to UTF-16 ends and recovers the units of every sequence of characters for which there is
      room. */
  lemma ToUtf16InvertsUtf8(cs: seq<Scalar>, room: nat)
    requires room >= |Utf16All(cs)|
    ensures CharsComplete(Utf8All(cs)) && !Stalls(Utf8All(cs), room)
    ensures ToUtf16(Utf8All(cs), room) == (|Utf8All(cs)|, Utf16All(cs))
  {
    hide ToUtf16, Stalls, CharsComplete, Utf8Encode, Utf16Encode;
    var k := ToUtf16StopsBetweenCharacters(cs, room);
    if k < |cs| {
      SplitAt(cs, k);
    }
    assert cs[..|cs|] == cs;
  }

  /** With room for everything, the two converters are inverse to each other. */
  lemma TranscodingRoundTrip(cs: seq<Scalar>, room: nat, unitRoom: nat)
    requires room >= |Utf8All(cs)| && unitRoom >= |Utf16All(cs)|
    ensures PairsComplete(Utf16All(cs)) && CharsComplete(Utf8All(cs))
    ensures var bytes := ToUtf8(Utf16All(cs), room).1;
      && ToUtf8(Utf16All(cs), room) == (|Utf16All(cs)|, Utf8All(cs))
      && !Stalls(bytes, unitRoom) && ToUtf16(bytes, unitRoom) == (|bytes|, Utf16All(cs))
  {
    hide ToUtf8, ToUtf16, Stalls, PairsComplete, CharsComplete, Utf8Encode, Utf16Encode;
    var k := ToUtf8StopsBetweenCharacters(cs, room);
    if k < |cs| {
      SplitAt(cs, k + 1);
    }
    assert cs[..|cs|] == cs;
    ToUtf16InvertsUtf8(cs, unitRoom);
  }
}
