/** The string pool of xmlparse.c: strings are built at the end of a block and finished in place;
    blocks grow, are recycled through a free list, and finished strings never move. */
module StringPools {
  import opened Common

  const INIT_BLOCK_SIZE: nat := 1024

  /** A BLOCK is the array that follows its header; its size is the length of the array. */
  type Block = array<byte>

  /** A finished string: where it is, and what it says. */
  datatype Finished = Finished(block: Block, offset: nat, bytes: seq<byte>)

  class StringPool {
    /** The lists through `next`, first block first. The unfinished string is in the first block of
        `blocks`. */
    var blocks: seq<Block>
    var freeBlocks: seq<Block>
    /** Offsets in the first block; with no block they stand for null pointers. */
    var start: nat
    var ptr: nat
    ghost var finished: seq<Finished>

    ghost predicate Valid()
      reads this, blocks
      ensures Valid() ==> start <= ptr <= End()
    {
      && (forall i :: 0 <= i < |blocks| ==> blocks[i].Length >= INIT_BLOCK_SIZE)
      && (forall i :: 0 <= i < |freeBlocks| ==> freeBlocks[i].Length >= INIT_BLOCK_SIZE)
      && OnOneList(blocks, freeBlocks)
      && start <= ptr <= End()
      && (forall f :: f in finished ==> InPlace(f))
    }

    /** Each block is on exactly one of the lists, once. */
    static ghost predicate OnOneList(xs: seq<Block>, ys: seq<Block>) {
      && (forall i, j :: 0 <= i < j < |xs| ==> xs[i] != xs[j])
      && (forall i, j :: 0 <= i < j < |ys| ==> ys[i] != ys[j])
      && (forall i, j :: 0 <= i < |xs| && 0 <= j < |ys| ==> xs[i] != ys[j])
    }

    /** A finished string lies in a used block, before the unfinished one. */
    ghost predicate InPlace(f: Finished)
      reads this, blocks
    {
      && f.bytes != [] && f.block in blocks && f.offset + |f.bytes| <= f.block.Length
      && f.block[f.offset..f.offset + |f.bytes|] == f.bytes
      && (f.block == blocks[0] ==> f.offset + |f.bytes| <= start)
    }

    /** The blocks of both lists. */
    ghost function Footprint(): set<Block>
      reads this`blocks, this`freeBlocks
    {
      (set b | b in blocks) + (set b | b in freeBlocks)
    }

    function End(): nat
      reads this
    {
      if blocks == [] then 0 else blocks[0].Length
    }

    ghost function Unfinished(): seq<byte>
      requires start <= ptr <= End()
      reads this, blocks
    {
      if blocks == [] then [] else blocks[0][start..ptr]
    }

    constructor ()
      ensures Valid() && Unfinished() == [] && finished == [] && blocks == [] && freeBlocks == []
    {
      blocks, freeBlocks, start, ptr, finished := [], [], 0, 0, [];
    }

    /** Some used block holds no finished string while the unfinished one starts at its beginning. */
    lemma HeadIsFree(f: Finished)
      requires Valid() && blocks != [] && start == 0 && f in finished
      ensures f.block in blocks[1..]
    {
      var i :| 0 <= i < |blocks| && blocks[i] == f.block;
      assert InPlace(f) && i > 0;
      assert blocks[1..][i - 1] == f.block;
    }

    static method CopyChars(src: Block, at: nat, n: nat, dst: Block)
      requires src != dst && at + n <= src.Length && n <= dst.Length
      modifies dst
      ensures dst[..n] == src[at..at + n]
    {
      forall k | 0 <= k < n {
        dst[k] := src[at + k];
      }
    }

    /** The first free block becomes the first used one. */
    method TakeFree()
      requires Valid() && freeBlocks != [] && blocks == []
      modifies this`blocks, this`freeBlocks, this`start, this`ptr
      ensures Valid() && start == ptr == 0 < End()
      ensures blocks == old(freeBlocks[..1]) && freeBlocks == old(freeBlocks[1..])
      ensures finished == old(finished)
    {
      blocks, freeBlocks, start, ptr := freeBlocks[..1], freeBlocks[1..], 0, 0;
    }

    /** The unfinished string moves to the first free block, which goes in front of the used ones. */
    method MoveToFree()
      requires Valid() && freeBlocks != [] && blocks != [] && End() - start < freeBlocks[0].Length
      modifies this`blocks, this`freeBlocks, this`start, this`ptr, freeBlocks
      ensures Valid() && start == 0 && ptr < End()
      ensures blocks == old(freeBlocks[..1] + blocks) && freeBlocks == old(freeBlocks[1..])
      ensures finished == old(finished) && Unfinished() == old(Unfinished())
    {
      var tem := freeBlocks[0];
      ghost var unfinished := Unfinished();
      CopyChars(blocks[0], start, End() - start, tem);
      assert tem[..ptr - start] == unfinished;
      blocks, freeBlocks := [tem] + blocks, freeBlocks[1..];
      start, ptr := 0, ptr - start;
    }

    /** The first block, which holds nothing but the unfinished string, is reallocated with twice its size. */
    method DoubleFirst()
      requires Valid() && blocks != [] && start == 0
      modifies this`blocks
      ensures Valid() && ptr < End() == 2 * old(End())
      ensures fresh(blocks[0]) && blocks[1..] == old(blocks[1..])
      ensures Unfinished() == old(Unfinished())
    {
      ghost var unfinished := Unfinished();
      var bigger := new byte[End() * 2](_ => 0);
      CopyChars(blocks[0], 0, End(), bigger);
      assert bigger[..ptr] == unfinished;
      forall f | f in finished
        ensures f.block in blocks[1..]
      {
        HeadIsFree(f);
      }
      blocks := [bigger] + blocks[1..];
    }

    /** A new block goes in front, and the unfinished string moves to it. */
    method AddBlock()
      requires Valid() && (blocks != [] ==> start > 0)
      modifies this`blocks, this`start, this`ptr
      ensures Valid() && start == 0 && ptr < End()
      ensures blocks != [] && fresh(blocks[0]) && blocks[1..] == old(blocks)
      ensures var left := old(End() - start); End() == if left < INIT_BLOCK_SIZE then INIT_BLOCK_SIZE else left * 2
      ensures Unfinished() == old(Unfinished())
    {
      ghost var unfinished := Unfinished();
      var size := End() - start;
      size := if size < INIT_BLOCK_SIZE then INIT_BLOCK_SIZE else size * 2;
      var tem := new byte[size](_ => 0);
      if blocks != [] {
        CopyChars(blocks[0], start, ptr - start, tem);
      }
      assert tem[..ptr - start] == unfinished;
      blocks := [tem] + blocks;
      start, ptr := 0, ptr - start;
    }

    /** Room for one more character, and every finished string where it was. Only a first block that
        holds no finished string can be given back to the allocator. */
    method Grow()
      requires Valid()
      modifies this`blocks, this`freeBlocks, this`start, this`ptr, freeBlocks
      ensures Valid() && ptr < End()
      ensures Unfinished() == old(Unfinished())
      ensures forall b :: b in blocks ==> b in old(blocks) || b in old(freeBlocks) || fresh(b)
      ensures forall b :: b in freeBlocks ==> b in old(freeBlocks)
      ensures forall b :: b in old(freeBlocks) ==> b in blocks || b in freeBlocks
      ensures forall b :: b in old(blocks) ==> b in blocks || (old(start) == 0 && b in old(blocks[..1]))
    {
      if freeBlocks != [] {
        if blocks == [] {
          TakeFree();
          return;
        }
        if End() - start < freeBlocks[0].Length {
          MoveToFree();
          return;
        }
      }
      if blocks != [] && start == 0 {
        DoubleFirst();
      } else {
        AddBlock();
      }
    }

    method AppendChar(c: byte)
      requires Valid()
      modifies this`blocks, this`freeBlocks, this`start, this`ptr, Footprint()
      ensures Valid()
      ensures Unfinished() == old(Unfinished()) + [c]
      ensures fresh(Footprint() - old(Footprint()))
    {
      if ptr == End() {
        Grow();
      }
      assert blocks[0] in Footprint() && blocks[0] in blocks;
      PutChar(c);
    }

    method PutChar(c: byte)
      requires Valid() && ptr < End()
      modifies this`ptr, blocks[0]
      ensures Valid()
      ensures Unfinished() == old(Unfinished()) + [c]
    {
      ghost var unfinished := Unfinished();
      blocks[0][ptr] := c;
      ptr := ptr + 1;
      assert Unfinished() == unfinished + [c];
    }

    method LastChar() returns (c: byte)
      requires Valid() && start < ptr
      ensures c == Unfinished()[ptr - start - 1]
    {
      c := blocks[0][ptr - 1];
    }

    method Chop()
      requires Valid() && start < ptr
      modifies this`ptr
      ensures Valid()
      ensures Unfinished() == old(Unfinished()[..ptr - start - 1])
    {
      ptr := ptr - 1;
    }

    method Discard()
      requires Valid()
      modifies this`ptr
      ensures Valid() && Unfinished() == []
    {
      ptr := start;
    }

    /** The unfinished string stays where it is from now on. */
    method Finish()
      requires Valid()
      modifies this`start, this`finished
      ensures Valid() && Unfinished() == [] && start == ptr
      ensures finished == old(if Unfinished() == [] then finished
                              else finished + [Finished(blocks[0], start, Unfinished())])
    {
      if start != ptr {
        finished := finished + [Finished(blocks[0], start, Unfinished())];
      }
      start := ptr;
    }

    /** All blocks become free: in the same order when no block was free, else the used ones, reversed,
        in front. */
    method Clear()
      requires Valid()
      modifies this`blocks, this`freeBlocks, this`start, this`ptr, this`finished
      ensures Valid() && Unfinished() == [] && finished == [] && blocks == []
      ensures freeBlocks == old(if freeBlocks == [] then blocks else Reversed(blocks) + freeBlocks)
      ensures Footprint() == old(Footprint())
    {
      if freeBlocks == [] {
        freeBlocks := blocks;
      } else {
        freeBlocks := PushAll(blocks, freeBlocks);
      }
      blocks, start, ptr, finished := [], 0, 0, [];
    }

    /** Moves the blocks of one list, one by one, to the front of the other. */
    static method PushAll(used: seq<Block>, free: seq<Block>) returns (r: seq<Block>)
      requires OnOneList(used, free)
      ensures r == Reversed(used) + free
      ensures OnOneList([], r)
      ensures forall b :: b in r <==> b in used || b in free
      ensures forall i :: 0 <= i < |r| ==> r[i] in used || r[i] in free
    {
      var p := used;
      r := free;
      while p != []
        invariant OnOneList(p, r)
        invariant Reversed(p) + r == Reversed(used) + free
      {
        assert Reversed(p) + r == Reversed(p[1..]) + ([p[0]] + r);
        r := [p[0]] + r;
        p := p[1..];
      }
      assert r == Reversed(used) + free;
      ReversedKeeps(used);
    }

    static lemma {:induction false} ReversedKeeps(s: seq<Block>)
      ensures |Reversed(s)| == |s|
      ensures forall b :: b in Reversed(s) <==> b in s
    {
      if s != [] {
        ReversedKeeps(s[1..]);
      }
    }

    static ghost function Reversed(s: seq<Block>): seq<Block> {
      if s == [] then [] else Reversed(s[1..]) + [s[0]]
    }

    static lemma NullIsLast(s: seq<byte>, i: nat)
      requires IsCString(s)
      ensures i < |s| ==> (s[i] == 0 <==> i == |s| - 1)
      ensures s != []
    {
    }

    /** Appends `s` up to and with its null character. */
    method AppendString(s: seq<byte>)
      requires Valid() && IsCString(s)
      modifies this`blocks, this`freeBlocks, this`start, this`ptr, Footprint()
      ensures Valid() && Unfinished() == old(Unfinished()) + s
      ensures fresh(Footprint() - old(Footprint()))
    {
      hide Valid, Unfinished, IsCString;
      NullIsLast(s, 0);
      ghost var unfinished := Unfinished();
      var i := 0;
      AppendChar(s[0]);
      assert s[..1] == [s[0]];
      while s[i] != 0
        invariant 0 <= i < |s| && (s[i] == 0 <==> i == |s| - 1)
        invariant Valid() && Unfinished() == unfinished + s[..i + 1]
        invariant fresh(Footprint() - old(Footprint()))
        decreases |s| - i
      {
        i := i + 1;
        NullIsLast(s, i);
        AppendChar(s[i]);
        assert s[..i] + [s[i]] == s[..i + 1];
        assert unfinished + s[..i] + [s[i]] == unfinished + (s[..i] + [s[i]]);
      }
      assert s[..i + 1] == s;
    }

    /** The string `s`, which ends at its null character, is appended to the unfinished one and the
        whole is finished. */
    method CopyString(s: seq<byte>) returns (at: nat)
      requires Valid() && IsCString(s)
      modifies this, Footprint()
      ensures Valid() && Unfinished() == [] && blocks != []
      ensures finished == old(finished) + [Finished(blocks[0], at, old(Unfinished()) + s)]
    {
      AppendString(s);
      at := start;
      Finish();
    }
  }

  /** What a user of the pool can do; a character is chopped after a look at it, as
      storeAttributeValue does for the space at the end of a value. */
  datatype Op = AppendChar(c: byte) | ChopLast(c: byte) | Discard | Finish | Grow | Clear

  /** The strings a pool stands for: the finished ones since the last Clear, and the unfinished one. */
  datatype Strings = Strings(finished: seq<seq<byte>>, unfinished: seq<byte>)

  ghost function Apply(s: Strings, op: Op): Strings {
    match op
    case AppendChar(c) => s.(unfinished := s.unfinished + [c])
    case ChopLast(c) =>
      var n := |s.unfinished|;
      if n == 0 || s.unfinished[n - 1] != c then s else s.(unfinished := s.unfinished[..n - 1])
    case Discard => s.(unfinished := [])
    case Finish => if s.unfinished == [] then s else Strings(s.finished + [s.unfinished], [])
    case Grow => s
    case Clear => Strings([], [])
  }

  ghost function ApplyAll(s: Strings, ops: seq<Op>): Strings {
    if ops == [] then s else Apply(ApplyAll(s, ops[..|ops| - 1]), ops[|ops| - 1])
  }

  ghost function Texts(finished: seq<Finished>): (texts: seq<seq<byte>>)
    ensures |texts| == |finished|
    ensures forall i :: 0 <= i < |finished| ==> texts[i] == finished[i].bytes
  {
    seq(|finished|, i requires 0 <= i < |finished| => finished[i].bytes)
  }

  ghost function Meaning(pool: StringPool): Strings
    requires pool.Valid()
    reads pool, pool.blocks
  {
    Strings(Texts(pool.finished), pool.Unfinished())
  }

  method Perform(pool: StringPool, op: Op)
    requires pool.Valid()
    modifies pool, pool.Footprint()
    ensures pool.Valid() && Meaning(pool) == Apply(old(Meaning(pool)), op)
    ensures !op.Clear? ==> old(pool.finished) <= pool.finished
    ensures fresh(pool.Footprint() - old(pool.Footprint()))
  {
    match op
    case AppendChar(c) => pool.AppendChar(c);
    case ChopLast(c) =>
      if pool.start < pool.ptr {
        var last := pool.LastChar();
        if last == c {
          pool.Chop();
        }
      }
    case Discard => pool.Discard();
    case Finish => pool.Finish();
    case Grow => pool.Grow();
    case Clear => pool.Clear();
  }

  /** Over any run, the pool holds the strings it should, and, with no Clear, every string finished
      before the run is still a finished string, in the same place, with the same bytes. */
  method Run(pool: StringPool, ops: seq<Op>)
    requires pool.Valid()
    modifies pool, pool.Footprint()
    ensures pool.Valid() && Meaning(pool) == ApplyAll(old(Meaning(pool)), ops)
    ensures Clear !in ops ==> forall f :: f in old(pool.finished) ==> f in pool.finished && pool.InPlace(f)
  {
    var i := 0;
    while i < |ops|
      invariant 0 <= i <= |ops|
      invariant pool.Valid() && Meaning(pool) == ApplyAll(old(Meaning(pool)), ops[..i])
      invariant Clear !in ops[..i] ==> old(pool.finished) <= pool.finished
      invariant fresh(pool.Footprint() - old(pool.Footprint()))
    {
      Perform(pool, ops[i]);
      assert ops[..i + 1][..i] == ops[..i] && ops[..i + 1][i] == ops[i];
      i := i + 1;
    }
    assert ops[..i] == ops;
  }
}
