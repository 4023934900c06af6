/** The input side of xmlparse.c: XML_Parse, XML_GetBuffer and XML_ParseBuffer hand the processor a
    window on the stream that starts at the first byte not yet consumed. */
module PushParser {
  import opened Common

  const INIT_BUFFER_SIZE: nat := 1024

  /** What a processor reports for a region: whether there was an error, how much of it is consumed,
      and where in it the current event starts. */
  datatype Outcome = Outcome(error: bool, consumed: nat, event: Option<nat>)

  type Processor = seq<byte> -> Outcome

  /** Processors stay inside the region they are handed. */
  ghost predicate StaysInside(p: Processor) {
    forall region ::
      p(region).consumed <= |region| && (p(region).event.Some? ==> p(region).event.value <= |region|)
  }

  /** A call of the processor: the stream offset of the region, the region, and the outcome. */
  datatype Handed = Handed(at: nat, region: seq<byte>, outcome: Outcome)

  class Parser {
    /** Null until some input has to be kept; the pointers into it are offsets. */
    var buffer: array?<byte>
    var bufferPtr: nat
    var bufferEnd: nat
    var parseEndByteIndex: nat
    /** Offsets in the memory of the region handed last. */
    var parseEndPtr: int
    var eventPtr: Option<int>
    /** The processor is errorProcessor. */
    var failed: bool
    ghost var received: seq<byte>
    ghost var consumed: nat
    ghost var calls: seq<Handed>

    constructor ()
      ensures Valid() && !failed && received == [] && consumed == 0 && calls == [] && fresh(Repr())
    {
      buffer, bufferPtr, bufferEnd, parseEndByteIndex, parseEndPtr := null, 0, 0, 0, 0;
      eventPtr, failed, received, consumed, calls := None, false, [], 0, [];
    }

    ghost function Repr(): set<object>
      reads this
    {
      if buffer == null then {this} else {this, buffer}
    }

    function BufferLim(): nat
      reads this`buffer
    {
      if buffer == null then 0 else buffer.Length
    }

    ghost predicate InBounds()
      reads this`buffer, this`bufferPtr, this`bufferEnd
    {
      bufferPtr <= bufferEnd <= BufferLim()
    }

    /** The bytes kept. */
    ghost function Pending(): seq<byte>
      requires InBounds()
      reads this`buffer, this`bufferPtr, this`bufferEnd, buffer
    {
      if buffer == null then [] else buffer[bufferPtr..bufferEnd]
    }

    /** Until an error, the bytes kept are the bytes received and not yet consumed. */
    ghost predicate Valid()
      reads this, buffer
    {
      && InBounds() && Recorded()
      && (!failed ==> consumed <= |received| && Pending() == received[consumed..])
    }

    ghost predicate Recorded()
      reads this`received, this`calls, this`parseEndByteIndex, this`parseEndPtr, this`eventPtr
    {
      && parseEndByteIndex == |received|
      && (calls != [] ==> EventIsAt(calls[|calls| - 1]))
      && AllShow(calls, received)
    }

    /** The regions are stretches of the stream. */
    static ghost predicate AllShow(calls: seq<Handed>, received: seq<byte>) {
      forall i :: 0 <= i < |calls| ==> Shows(calls[i], received)
    }

    static ghost predicate Shows(h: Handed, received: seq<byte>) {
      h.at + |h.region| <= |received| && received[h.at..h.at + |h.region|] == h.region
    }

    static lemma AllShowStill(calls: seq<Handed>, received: seq<byte>, more: seq<byte>, call: Handed)
      requires AllShow(calls, received)
      requires call.at <= |received| && call.region == received[call.at..] + more
      ensures AllShow(calls + [call], received + more)
    {
      forall i | 0 <= i < |calls|
        ensures Shows(calls[i], received + more)
      {
        var h := calls[i];
        assert Shows(h, received);
        assert (received + more)[h.at..h.at + |h.region|] == received[h.at..h.at + |h.region|];
      }
      assert (received + more)[call.at..] == call.region;
    }

    /** The event pointer is as far from the end of the region as the outcome says. */
    ghost predicate EventIsAt(h: Handed)
      reads this`received, this`parseEndPtr, this`eventPtr
    {
      && (eventPtr.Some? <==> h.outcome.event.Some?)
      && h.at + |h.region| == |received|
      && (eventPtr.Some? ==> parseEndPtr - eventPtr.value == |h.region| - h.outcome.event.value)
    }

    /** XML_GetCurrentByteIndex. */
    function GetCurrentByteIndex(): int
      reads this
    {
      if eventPtr.Some? then parseEndByteIndex - (parseEndPtr - eventPtr.value) else -1
    }

    /** The byte index is the offset of the event in the stream. */
    lemma ByteIndexIsStreamOffset()
      requires Valid() && calls != []
      ensures var h := calls[|calls| - 1];
        if h.outcome.event.None? then GetCurrentByteIndex() == -1
        else GetCurrentByteIndex() == h.at + h.outcome.event.value
    {
    }

    /** Makes room for `len` bytes behind the bytes kept: as is, by moving them down, or in a new
        buffer of at least twice the size. */
    method GetBuffer(len: nat) returns (at: nat)
      requires Valid()
      modifies this`buffer, this`bufferPtr, this`bufferEnd, buffer
      ensures Valid() && Pending() == old(Pending())
      ensures at == bufferEnd && bufferEnd + len <= BufferLim()
      ensures buffer == old(buffer) || fresh(buffer)
    {
      ghost var pending := Pending();
      if len > BufferLim() - bufferEnd {
        var neededSize := len + (bufferEnd - bufferPtr);
        if neededSize <= BufferLim() {
          MoveDown();
        } else {
          var bufferSize := BufferLim() - bufferPtr;
          if bufferSize == 0 {
            bufferSize := INIT_BUFFER_SIZE;
          }
          bufferSize := DoubleUntil(bufferSize, neededSize);
          NewBuffer(bufferSize);
        }
      }
      at := bufferEnd;
    }

    /** At least one doubling. */
    static method DoubleUntil(size: nat, needed: nat) returns (r: nat)
      requires size > 0
      ensures r >= needed && r >= 2 * size && (r == 2 * size || r < 2 * needed)
    {
      r := size * 2;
      while r < needed
        invariant r >= 2 * size && (r == 2 * size || r < 2 * needed)
        decreases needed - r
      {
        r := r * 2;
      }
    }

    /** memmove. */
    method MoveDown()
      requires Valid() && buffer != null
      modifies this`bufferPtr, this`bufferEnd, buffer
      ensures Valid() && Pending() == old(Pending()) && bufferPtr == 0 && bufferEnd == old(bufferEnd - bufferPtr)
    {
      ghost var pending := Pending();
      forall k | 0 <= k < bufferEnd - bufferPtr {
        buffer[k] := buffer[bufferPtr + k];
      }
      bufferPtr, bufferEnd := 0, bufferEnd - bufferPtr;
      assert Pending() == pending;
    }

    method NewBuffer(size: nat)
      requires Valid() && bufferEnd - bufferPtr <= size
      modifies this`buffer, this`bufferPtr, this`bufferEnd
      ensures Valid() && Pending() == old(Pending()) && bufferPtr == 0 && bufferEnd == old(bufferEnd - bufferPtr)
      ensures fresh(buffer) && BufferLim() == size
    {
      ghost var pending := Pending();
      var newBuf := new byte[size](_ => 0);
      forall k | 0 <= k < bufferEnd - bufferPtr {
        newBuf[k] := buffer[bufferPtr + k];
      }
      buffer, bufferPtr, bufferEnd := newBuf, 0, bufferEnd - bufferPtr;
      assert Pending() == pending;
    }

    /** What the caller has put behind the bytes kept. */
    ghost function Behind(len: nat): (s: seq<byte>)
      requires bufferEnd + len <= BufferLim()
      reads this`buffer, this`bufferEnd, buffer
      ensures |s| == len
    {
      if buffer == null then [] else buffer[bufferEnd..bufferEnd + len]
    }

    /** The call that hands over `more` after the bytes kept. */
    ghost function NextCall(more: seq<byte>, p: Processor): Handed
      requires InBounds() && consumed <= |received|
      reads this
    {
      var region := received[consumed..] + more;
      Handed(consumed, region, p(region))
    }

    /** What a parse of `more` does to the record of the stream. */
    twostate predicate Advances(more: seq<byte>, isFinal: bool, p: Processor, ok: bool)
      requires old(Valid()) && !old(failed)
      reads this
    {
      var call := old(NextCall(more, p));
      && received == old(received) + more
      && calls == old(calls) + [call]
      && ok == !call.outcome.error && failed == call.outcome.error
      && (ok && !isFinal ==> consumed == old(consumed) + call.outcome.consumed)
    }

    /** The processor gets the bytes kept and `more`; the region starts at offset `start` of its memory. */
    method Process(region: seq<byte>, start: nat, len: nat, ghost more: seq<byte>, p: Processor) returns (outcome: Outcome)
      requires Recorded() && consumed <= |received| && region == received[consumed..] + more && |more| == len
      requires StaysInside(p)
      modifies this`parseEndByteIndex, this`parseEndPtr, this`eventPtr, this`failed, this`received, this`calls
      ensures Recorded() && received == old(received) + more
      ensures outcome == p(region) && calls == old(calls) + [Handed(consumed, region, outcome)]
      ensures failed == outcome.error
    {
      hide AllShow;
      parseEndByteIndex := parseEndByteIndex + len;
      parseEndPtr := start + |region|;
      outcome := p(region);
      AllShowStill(calls, received, more, Handed(consumed, region, outcome));
      received, calls := received + more, calls + [Handed(consumed, region, outcome)];
      eventPtr := if outcome.event.Some? then Some(start + outcome.event.value) else None;
      failed := outcome.error;
    }

    /** Adds to the bytes kept the `len` bytes behind them, and hands them all over. */
    method ParseBuffer(len: nat, isFinal: bool, p: Processor) returns (ok: bool)
      requires Valid() && bufferEnd + len <= BufferLim() && StaysInside(p)
      modifies this`bufferPtr, this`bufferEnd, this`parseEndByteIndex, this`parseEndPtr, this`eventPtr, this`failed
      modifies this`received, this`consumed, this`calls
      ensures Valid()
      ensures old(failed) ==> !ok && failed && received == old(received) && calls == old(calls)
      ensures !old(failed) ==> Advances(old(Behind(len)), isFinal, p, ok)
    {
      hide Recorded, Pending, Behind;
      if failed {
        return false;
      }
      ghost var more := Behind(len);
      var region := TakeIn(len);
      var outcome := Process(region, bufferPtr, len, more, p);
      ok := !outcome.error;
      assert received[consumed..] == region;
      if ok && !isFinal {
        Consume(outcome.consumed, region);
      }
    }

    method TakeIn(len: nat) returns (region: seq<byte>)
      requires InBounds() && bufferEnd + len <= BufferLim()
      modifies this`bufferEnd
      ensures InBounds() && region == Pending() == old(Pending() + Behind(len))
    {
      bufferEnd := bufferEnd + len;
      region := if buffer == null then [] else buffer[bufferPtr..bufferEnd];
    }

    method Consume(n: nat, ghost region: seq<byte>)
      requires InBounds() && Pending() == region && n <= |region|
      requires consumed <= |received| && received[consumed..] == region
      modifies this`bufferPtr, this`consumed
      ensures InBounds() && consumed == old(consumed) + n <= |received| && Pending() == received[consumed..]
    {
      bufferPtr := bufferPtr + n;
      consumed := consumed + n;
      assert Pending() == region[n..] == received[consumed..];
    }

    /** Keeps what the processor left of `rest`, in the buffer if it fits there. */
    method KeepLeftOver(rest: seq<byte>, len: nat)
      requires InBounds() && bufferPtr == bufferEnd && |rest| <= len
      modifies this`buffer, this`bufferPtr, this`bufferEnd, buffer
      ensures InBounds() && Pending() == rest
      ensures buffer == old(buffer) || fresh(buffer)
    {
      if rest != [] {
        if buffer == null || |rest| > BufferLim() {
          buffer := new byte[len * 2](_ => 0);
        }
        forall k | 0 <= k < |rest| {
          buffer[k] := rest[k];
        }
        bufferPtr, bufferEnd := 0, |rest|;
        assert buffer[bufferPtr..bufferEnd] == rest;
      }
    }

    /** XML_Parse with nothing kept: the caller's own bytes are handed over. */
    method ParseDirectly(s: seq<byte>, isFinal: bool, p: Processor) returns (ok: bool)
      requires Valid() && !failed && bufferPtr == bufferEnd && StaysInside(p)
      modifies this, buffer
      ensures Valid() && Advances(s, isFinal, p, ok)
      ensures buffer == old(buffer) || fresh(buffer)
    {
      hide Recorded;
      assert received[consumed..] + s == s;
      var outcome := Process(s, 0, |s|, s, p);
      ok := !outcome.error;
      if ok {
        if isFinal {
          consumed := |received|;
        } else {
          assert received[consumed..] == s;
          consumed := consumed + outcome.consumed;
          KeepLeftOver(s[outcome.consumed..], |s|);
        }
      }
    }

    /** memcpy to what GetBuffer returned. */
    method Put(s: seq<byte>)
      requires Valid() && bufferEnd + |s| <= BufferLim()
      modifies buffer
      ensures Valid() && Pending() == old(Pending()) && Behind(|s|) == s
    {
      if buffer != null {
        forall k | 0 <= k < |s| {
          buffer[bufferEnd + k] := s[k];
        }
        assert Pending() == old(Pending());
      }
    }

    method Parse(s: seq<byte>, isFinal: bool, p: Processor) returns (ok: bool)
      requires Valid() && StaysInside(p)
      modifies this, buffer
      ensures Valid()
      ensures buffer == old(buffer) || fresh(buffer)
      ensures s == [] && !isFinal ==>
        ok && received == old(received) && calls == old(calls) && failed == old(failed) && consumed == old(consumed)
      ensures old(failed) && (s != [] || isFinal) ==> !ok && failed && received == old(received) && calls == old(calls)
      ensures !old(failed) && (s != [] || isFinal) ==> Advances(s, isFinal, p, ok)
    {
      hide Recorded;
      if s == [] && !isFinal {
        return true;
      }
      if failed {
        return false;
      }
      if s == [] {
        ok := ParseBuffer(0, isFinal, p);
      } else if bufferPtr == bufferEnd {
        ok := ParseDirectly(s, isFinal, p);
      } else {
        var _ := GetBuffer(|s|);
        Put(s);
        ok := ParseBuffer(|s|, isFinal, p);
      }
    }

    /** GetBuffer, the caller's copying, and ParseBuffer. */
    method ParseInPlace(room: nat, bytes: seq<byte>, isFinal: bool, p: Processor) returns (ok: bool)
      requires Valid() && !failed && |bytes| <= room && StaysInside(p)
      modifies this, buffer
      ensures Valid() && Advances(bytes, isFinal, p, ok)
      ensures buffer == old(buffer) || fresh(buffer)
    {
      hide Recorded;
      var _ := GetBuffer(room);
      Put(bytes);
      ok := ParseBuffer(|bytes|, isFinal, p);
    }
  }

  /** A way to bring a chunk: as bytes of the caller, or put in the parser's own buffer. */
  datatype Chunk = Direct(bytes: seq<byte>, isFinal: bool) | Buffered(room: nat, bytes: seq<byte>, isFinal: bool)

  ghost predicate Fits(c: Chunk) {
    c.Buffered? ==> |c.bytes| <= c.room
  }

  /** XML_Parse does nothing with an empty chunk that is not the last. */
  predicate MakesCall(c: Chunk) {
    c.Buffered? || c.bytes != [] || c.isFinal
  }

  method Bring(parser: Parser, c: Chunk, p: Processor) returns (ok: bool)
    requires parser.Valid() && !parser.failed && Fits(c) && StaysInside(p)
    modifies parser, parser.buffer
    ensures parser.Valid() && ok == !parser.failed
    ensures parser.buffer == old(parser.buffer) || fresh(parser.buffer)
    ensures parser.received == old(parser.received) + c.bytes && old(parser.consumed) <= |old(parser.received)|
    ensures MakesCall(c) ==>
      var call := CallOn(parser.received, old(parser.consumed), p);
      && parser.calls == old(parser.calls) + [call] && ok == !call.outcome.error
      && (ok && !c.isFinal ==> parser.consumed == old(parser.consumed) + call.outcome.consumed)
    ensures !MakesCall(c) ==>
      ok && parser.calls == old(parser.calls) && parser.consumed == old(parser.consumed)
  {
    hide Parser.Recorded;
    ghost var received, at := parser.received, parser.consumed;
    assert (received + c.bytes)[at..] == received[at..] + c.bytes;
    match c {
    case Direct(bytes, isFinal) => ok := parser.Parse(bytes, isFinal, p);
    case Buffered(room, bytes, isFinal) => ok := parser.ParseInPlace(room, bytes, isFinal, p);
    }
  }

  ghost function Stream(chunks: seq<Chunk>): seq<byte> {
    if chunks == [] then [] else Stream(chunks[..|chunks| - 1]) + chunks[|chunks| - 1].bytes
  }

  ghost predicate AllInside(processors: seq<Processor>) {
    forall i :: 0 <= i < |processors| ==> StaysInside(processors[i])
  }

  /** The calls that a chunking leads to, and the offset up to which they consume the stream. */
  datatype Script = Script(calls: seq<Handed>, next: nat)

  /** Each chunk that makes a call hands over the stream so far, from what was consumed on. */
  ghost function Expected(chunks: seq<Chunk>, processors: seq<Processor>): (r: Script)
    requires |chunks| == |processors| && AllInside(processors)
    ensures r.next <= |Stream(chunks)|
    decreases |chunks|
  {
    if chunks == [] then Script([], 0)
    else
      var n := |chunks| - 1;
      assert AllInside(processors[..n]);
      var before := Expected(chunks[..n], processors[..n]);
      if !MakesCall(chunks[n]) then before
      else
        var call := CallOn(Stream(chunks), before.next, processors[n]);
        assert StaysInside(processors[n]);
        Script(before.calls + [call], before.next + call.outcome.consumed)
  }

  ghost function CallOn(received: seq<byte>, at: nat, p: Processor): Handed
    requires at <= |received|
  {
    Handed(at, received[at..], p(received[at..]))
  }

  /** No chunk but the last one is final. */
  predicate EndsAtFinal(chunks: seq<Chunk>) {
    forall i :: 0 <= i < |chunks| - 1 ==> !chunks[i].isFinal
  }

  predicate GoesOn(chunks: seq<Chunk>) {
    forall i :: 0 <= i < |chunks| ==> !chunks[i].isFinal
  }

  /** The calls made are those expected of the chunks, and all but possibly the last succeeded. */
  ghost predicate AsExpected(
      received: seq<byte>, calls: seq<Handed>, consumed: nat, ok: bool, chunks: seq<Chunk>, processors: seq<Processor>)
    requires |chunks| == |processors| && AllInside(processors)
  {
    && received == Stream(chunks)
    && calls == Expected(chunks, processors).calls
    && (ok && GoesOn(chunks) ==> consumed == Expected(chunks, processors).next)
    && (forall j :: 0 <= j < |calls| ==> (calls[j].outcome.error <==> !ok && j == |calls| - 1))
    && (!ok ==> calls != [])
  }

  /** Over any chunking, ended by a final chunk or still going on, exactly the expected calls are made, up
      to the first one that fails; `taken` is the number of chunks that came in. */
  method Run(parser: Parser, chunks: seq<Chunk>, processors: seq<Processor>) returns (ok: bool, taken: nat)
    requires parser.Valid() && !parser.failed && parser.received == [] && parser.calls == []
    requires |chunks| == |processors| && AllInside(processors)
    requires EndsAtFinal(chunks) && forall i :: 0 <= i < |chunks| ==> Fits(chunks[i])
    modifies parser, parser.buffer
    ensures parser.Valid() && ok == !parser.failed
    ensures taken <= |chunks| && (ok ==> taken == |chunks|) && AllInside(processors[..taken])
    ensures AsExpected(parser.received, parser.calls, parser.consumed, ok, chunks[..taken], processors[..taken])
  {
    hide Parser.Recorded, AsExpected, Parser.Pending;
    ok, taken := true, 0;
    assert chunks[..0] == [] && processors[..0] == [];
    NothingExpected();
    while taken < |chunks|
      invariant 0 <= taken <= |chunks| && AllInside(processors[..taken])
      invariant ok && parser.Valid() && !parser.failed
      invariant parser.buffer == old(parser.buffer) || fresh(parser.buffer)
      invariant AsExpected(parser.received, parser.calls, parser.consumed, true, chunks[..taken], processors[..taken])
    {
      ghost var received, calls, consumed := parser.received, parser.calls, parser.consumed;
      AllInsideAt(processors, taken);
      ok := Bring(parser, chunks[taken], processors[taken]);
      ChunkTaken(chunks, processors, taken, received, calls, consumed,
        parser.received, parser.calls, parser.consumed, ok);
      taken := taken + 1;
      if !ok {
        return;
      }
    }
  }

  lemma AllInsideAt(processors: seq<Processor>, i: nat)
    requires AllInside(processors) && i < |processors|
    ensures StaysInside(processors[i]) && AllInside(processors[..i]) && AllInside(processors[..i + 1])
  {
  }

  /** A chunk that comes in makes the next expected call. */
  lemma ChunkTaken(
      chunks: seq<Chunk>, processors: seq<Processor>, i: nat,
      received: seq<byte>, calls: seq<Handed>, consumed: nat,
      received': seq<byte>, calls': seq<Handed>, consumed': nat, ok: bool)
    requires |chunks| == |processors| && i < |chunks| && AllInside(processors) && AllInside(processors[..i])
    requires AsExpected(received, calls, consumed, true, chunks[..i], processors[..i]) && EndsAtFinal(chunks)
    requires received' == received + chunks[i].bytes && consumed <= |received|
    requires if !MakesCall(chunks[i]) then ok && calls' == calls && consumed' == consumed
             else
               var call := CallOn(received', consumed, processors[i]);
               calls' == calls + [call] && ok == !call.outcome.error
               && (ok && !chunks[i].isFinal ==> consumed' == consumed + call.outcome.consumed)
    ensures AllInside(processors[..i + 1])
    ensures AsExpected(received', calls', consumed', ok, chunks[..i + 1], processors[..i + 1])
  {
    hide Stream, Expected;
    ExpectedSnoc(chunks, processors, i);
  }

  lemma NothingExpected()
    ensures AsExpected([], [], 0, true, [], [])
  {
  }

  lemma ExpectedSnoc(chunks: seq<Chunk>, processors: seq<Processor>, i: nat)
    requires |chunks| == |processors| && i < |chunks| && AllInside(processors)
    ensures AllInside(processors[..i]) && AllInside(processors[..i + 1]) && StaysInside(processors[i])
    ensures Stream(chunks[..i + 1]) == Stream(chunks[..i]) + chunks[i].bytes
    ensures var before := Expected(chunks[..i], processors[..i]);
      before.next <= |Stream(chunks[..i])| && Expected(chunks[..i + 1], processors[..i + 1]) ==
      if !MakesCall(chunks[i]) then before
      else
        var call := CallOn(Stream(chunks[..i]) + chunks[i].bytes, before.next, processors[i]);
        Script(before.calls + [call], before.next + call.outcome.consumed)
  {
    assert chunks[..i + 1][..i] == chunks[..i] && processors[..i + 1][..i] == processors[..i];
  }

  // ---------------------------------------------------------------- what is expected

  function CallCount(chunks: seq<Chunk>): nat {
    if chunks == [] then 0
    else CallCount(chunks[..|chunks| - 1]) + if MakesCall(chunks[|chunks| - 1]) then 1 else 0
  }

  /** Chunk `i`, if it makes a call, makes the one whose number is that of the calls before it: its region
      is the stream up to and with the chunk, from the offset where the region is, its outcome is what
      the processor of the chunk makes of that, and it starts where the call before was consumed up
      to, the first one at the start of the stream. */
  lemma {:induction false} CallOfChunk(chunks: seq<Chunk>, processors: seq<Processor>, i: nat)
    requires |chunks| == |processors| && AllInside(processors) && i < |chunks|
    ensures var calls := Expected(chunks, processors).calls;
      && |calls| == CallCount(chunks)
      && (MakesCall(chunks[i]) ==>
            var j := CallCount(chunks[..i]);
            && j < |calls| && calls[j].at == StartOf(calls, j) <= |Stream(chunks[..i + 1])|
            && calls[j].region == Stream(chunks[..i + 1])[calls[j].at..]
            && calls[j].outcome == processors[i](calls[j].region))
    decreases |chunks|
  {
    hide Stream, Expected;
    var n := |chunks| - 1;
    assert chunks[..n + 1] == chunks;
    CountsCalls(chunks, processors);
    if i == n {
      if MakesCall(chunks[n]) {
        CallOfLastChunk(chunks, processors);
      }
    } else {
      CallOfChunk(chunks[..n], processors[..n], i);
      CallsStay(chunks, processors);
      assert chunks[..n][..i] == chunks[..i] && chunks[..n][..i + 1] == chunks[..i + 1];
    }
  }

  lemma CallsStay(chunks: seq<Chunk>, processors: seq<Processor>)
    requires |chunks| == |processors| > 0 && AllInside(processors)
    ensures var n := |chunks| - 1;
      AllInside(processors[..n]) &&
      var before, calls := Expected(chunks[..n], processors[..n]).calls, Expected(chunks, processors).calls;
      |before| <= |calls| && forall j :: 0 <= j < |before| ==> calls[j] == before[j]
  {
    hide Stream, Expected;
    var n := |chunks| - 1;
    ExpectedSnoc(chunks, processors, n);
    assert chunks[..n + 1] == chunks && processors[..n + 1] == processors;
  }

  lemma CallOfLastChunk(chunks: seq<Chunk>, processors: seq<Processor>)
    requires |chunks| == |processors| > 0 && AllInside(processors) && MakesCall(chunks[|chunks| - 1])
    ensures var calls := Expected(chunks, processors).calls;
      var n, j := |chunks| - 1, |calls| - 1;
      && j >= 0 && j == CallCount(chunks[..n]) && calls[j].at == StartOf(calls, j) <= |Stream(chunks)|
      && calls[j].region == Stream(chunks)[calls[j].at..] && calls[j].outcome == processors[n](calls[j].region)
  {
    hide Stream, Expected;
    var n := |chunks| - 1;
    ExpectedSnoc(chunks, processors, n);
    assert chunks[..n + 1] == chunks && processors[..n + 1] == processors;
    LastConsumed(chunks[..n], processors[..n]);
    CountsCalls(chunks[..n], processors[..n]);
  }

  lemma {:induction false} CountsCalls(chunks: seq<Chunk>, processors: seq<Processor>)
    requires |chunks| == |processors| && AllInside(processors)
    ensures |Expected(chunks, processors).calls| == CallCount(chunks)
    decreases |chunks|
  {
    hide Stream;
    if chunks != [] {
      var n := |chunks| - 1;
      ExpectedSnoc(chunks, processors, n);
      assert chunks[..n + 1] == chunks && processors[..n + 1] == processors;
      CountsCalls(chunks[..n], processors[..n]);
    }
  }

  /** Where a call starts: the first one at 0, and each other one where the one before was consumed. */
  ghost function StartOf(calls: seq<Handed>, j: nat): nat
    requires j <= |calls|
  {
    if j == 0 then 0 else calls[j - 1].at + calls[j - 1].outcome.consumed
  }

  lemma {:induction false} LastConsumed(chunks: seq<Chunk>, processors: seq<Processor>)
    requires |chunks| == |processors| && AllInside(processors)
    ensures var r := Expected(chunks, processors); r.next == StartOf(r.calls, |r.calls|)
    decreases |chunks|
  {
    hide Stream;
    if chunks != [] {
      var n := |chunks| - 1;
      ExpectedSnoc(chunks, processors, n);
      assert chunks[..n + 1] == chunks && processors[..n + 1] == processors;
      LastConsumed(chunks[..n], processors[..n]);
    }
  }
}
