/** The naming tables: gennmtab.c packs two tables of 65536 flags into pages and bitmaps, and the
    macros of xmltok.c look characters up in them. */
module NamingTables {
  import opened Common
  import Transcode

  /** The flags for name start characters, then those for name characters. */
  predicate AreFlags(tab: seq<bool>) {
    |tab| == 2 * 65536
  }

  predicate Bit(w: bv32, b: bv8)
    requires b < 32
  {
    w & (1 << b) != 0
  }

  lemma OrBit(w: bv32, k: bv8, b: bv8)
    requires k < 32 && b < 32
    ensures ((w | (1 << k)) & (1 << b) != 0) == (w & (1 << b) != 0 || b == k)
  {
  }

  lemma SetBit(w: bv32, k: bv8, b: bv8)
    requires k < 32 && b < 32
    ensures Bit(WithBit(w, k), b) == (Bit(w, b) || b == k)
  {
    OrBit(w, k, b);
  }

  lemma ConstantBits(b: bv8)
    requires b < 32
    ensures !Bit(0, b) && Bit(0xFFFFFFFF, b)
  {
  }

  /** A byte picks one of eight words and one of its bits. */
  lemma SplitByte(lo: bv8)
    ensures lo as int == 32 * ((lo >> 5) as int) + (lo & 0x1F) as int
    ensures 0 <= (lo >> 5) as int < 8 && lo & 0x1F < 32
  {
  }

  /** The flag of the character at `j` in a page of 256. */
  predicate FlagAt(tab: seq<bool>, page: nat, j: nat)
    requires AreFlags(tab) && page < 512 && j < 256
  {
    tab[page * 256 + j]
  }

  predicate Flag(tab: seq<bool>, page: nat, lo: bv8)
    requires AreFlags(tab) && page < 512
  {
    FlagAt(tab, page, lo as int)
  }

  ghost predicate SamePage(tab: seq<bool>, i: nat, j: nat)
    requires AreFlags(tab) && i < 512 && j < 512
  {
    tab[i * 256..i * 256 + 256] == tab[j * 256..j * 256 + 256]
  }

  ghost predicate IsMixed(tab: seq<bool>, i: nat)
    requires AreFlags(tab) && i < 512
  {
    exists j :: 0 <= j < 256 && FlagAt(tab, i, j) != FlagAt(tab, i, 0)
  }

  /** A page needs a bitmap of its own if it is not constant and, in the second table, not the page at
      the same place in the first one. */
  ghost predicate NeedsBitmap(tab: seq<bool>, i: nat)
    requires AreFlags(tab) && i < 512
  {
    IsMixed(tab, i) && !(i >= 256 && SamePage(tab, i - 256, i))
  }

  ghost function Needed(tab: seq<bool>, n: nat): nat
    requires AreFlags(tab) && n <= 512
  {
    if n == 0 then 0 else Needed(tab, n - 1) + if NeedsBitmap(tab, n - 1) then 1 else 0
  }

  /** The eight words of a bitmap, bit by bit. */
  ghost predicate Represents(bitmap: seq<bv32>, n: nat, tab: seq<bool>, page: nat)
    requires AreFlags(tab) && page < 512 && 8 * n + 8 <= |bitmap|
  {
    forall lo: bv8 :: LookUp(bitmap, n, lo) == Flag(tab, page, lo)
  }

  predicate LookUp(bitmap: seq<bv32>, n: nat, lo: bv8)
    requires 8 * n + 8 <= |bitmap|
  {
    SplitByte(lo);
    Bit(bitmap[8 * n + (lo >> 5) as int], lo & 0x1F)
  }

  /** The first `k` bits are the flags from `base` on, the others are zero. */
  ghost predicate HasBits(val: bv32, k: bv8, tab: seq<bool>, base: nat)
    requires base + 32 <= |tab|
  {
    forall b: bv8 :: b < 32 ==> Bit(val, b) == (b < k && tab[base + b as int])
  }

  function WithBit(val: bv32, k: bv8): bv32
    requires k < 32
  {
    val | (1 << k)
  }

  lemma LessNext(b: bv8, k: bv8)
    requires k < 32
    ensures b < k + 1 <==> b < k || b == k
  {
  }

  lemma HasBitsStep(val: bv32, k: bv8, tab: seq<bool>, base: nat)
    requires base + 32 <= |tab| && k < 32 && HasBits(val, k, tab, base)
    ensures tab[base + k as int] ==> HasBits(WithBit(val, k), k + 1, tab, base)
    ensures !tab[base + k as int] ==> HasBits(val, k + 1, tab, base)
  {
    hide Bit, WithBit;
    forall b: bv8 | b < 32
      ensures tab[base + k as int] ==> Bit(WithBit(val, k), b) == (b < k + 1 && tab[base + b as int])
      ensures !tab[base + k as int] ==> Bit(val, b) == (b < k + 1 && tab[base + b as int])
    {
      SetBit(val, k, b);
      LessNext(b, k);
    }
  }

  method Word(tab: seq<bool>, base: nat) returns (val: bv32)
    requires base + 32 <= |tab|
    ensures HasBits(val, 32, tab, base)
  {
    val := 0;
    var k: bv8 := 0;
    forall b: bv8 | b < 32
      ensures !Bit(val, b)
    {
      ConstantBits(b);
    }
    while k < 32
      invariant k <= 32 && HasBits(val, k, tab, base)
      decreases 32 - k
    {
      HasBitsStep(val, k, tab, base);
      if tab[base + k as int] {
        val := WithBit(val, k);
      }
      k := k + 1;
    }
  }

  method EmitPage(tab: seq<bool>, i: nat, bitmap: seq<bv32>) returns (r: seq<bv32>)
    requires AreFlags(tab) && i < 512 && |bitmap| % 8 == 0
    ensures |r| == |bitmap| + 8 && r[..|bitmap|] == bitmap
    ensures Represents(r, |bitmap| / 8, tab, i)
  {
    hide HasBits, Bit;
    r := bitmap;
    for j := 0 to 8
      invariant |r| == |bitmap| + j && r[..|bitmap|] == bitmap
      invariant forall m :: 0 <= m < j ==> HasBits(r[|bitmap| + m], 32, tab, i * 256 + m * 32)
    {
      var val := Word(tab, i * 256 + j * 32);
      r := r + [val];
    }
    forall lo: bv8
      ensures LookUp(r, |bitmap| / 8, lo) == Flag(tab, i, lo)
    {
      SplitByte(lo);
      var m := (lo >> 5) as int;
      WordBit(r[|bitmap| + m], tab, i * 256 + m * 32, lo & 0x1F);
    }
  }

  lemma WordBit(val: bv32, tab: seq<bool>, base: nat, b: bv8)
    requires base + 32 <= |tab| && b < 32 && HasBits(val, 32, tab, base)
    ensures Bit(val, b) == tab[base + b as int]
  {
  }

  /** The flag that all characters of a page share, or -1. */
  method PageKind(tab: seq<bool>, i: nat) returns (kind: int)
    requires AreFlags(tab) && i < 512
    ensures kind == -1 <==> IsMixed(tab, i)
    ensures kind == -1 || kind == 0 || kind == 1
    ensures kind != -1 ==> forall j :: 0 <= j < 256 ==> FlagAt(tab, i, j) == (kind == 1)
  {
    kind := if FlagAt(tab, i, 0) then 1 else 0;
    var j := 1;
    while j < 256
      invariant 1 <= j <= 256
      invariant kind == if FlagAt(tab, i, 0) then 1 else 0
      invariant forall m :: 0 <= m < j ==> FlagAt(tab, i, m) == (kind == 1)
    {
      if FlagAt(tab, i, j) != (kind == 1) {
        kind := -1;
        break;
      }
      j := j + 1;
    }
  }

  /** The table as printed: its page numbers are unsigned characters. */
  datatype Tables = Tables(bitmap: seq<bv32>, nmstrtPages: seq<nat>, namePages: seq<nat>) {
    predicate InBounds() {
      && |nmstrtPages| == 256 && |namePages| == 256
      && (forall k :: 0 <= k < 256 ==> 8 * nmstrtPages[k] + 8 <= |bitmap|)
      && (forall k :: 0 <= k < 256 ==> 8 * namePages[k] + 8 <= |bitmap|)
    }
  }

  /** While the pages are numbered without a bound: bitmaps 0 and 1 are the constant ones, each page
      has a bitmap that represents it, and each later bitmap was made for a mixed page. */
  ghost predicate Packed(bitmap: seq<bv32>, count: nat, tab: seq<bool>, index: seq<nat>)
    requires AreFlags(tab) && |index| <= 512
  {
    && |bitmap| == 8 * count && count == 2 + Needed(tab, |index|)
    && (forall lo: bv8 :: !LookUp(bitmap, 0, lo) && LookUp(bitmap, 1, lo))
    && (forall k :: 0 <= k < |index| ==> index[k] < count && Represents(bitmap, index[k], tab, k))
    && (forall n :: 2 <= n < count ==> MadeFor(n, tab, index))
  }

  ghost predicate MadeFor(n: nat, tab: seq<bool>, index: seq<nat>)
    requires AreFlags(tab) && |index| <= 512
  {
    exists k :: 0 <= k < |index| && index[k] == n && IsMixed(tab, k)
  }

  lemma MadeForMore(n: nat, tab: seq<bool>, index: seq<nat>, next: nat)
    requires AreFlags(tab) && |index| < 512 && MadeFor(n, tab, index)
    ensures MadeFor(n, tab, index + [next])
  {
    var k :| 0 <= k < |index| && index[k] == n && IsMixed(tab, k);
    assert (index + [next])[k] == n;
  }

  lemma RepresentsMore(bitmap: seq<bv32>, more: seq<bv32>, n: nat, tab: seq<bool>, page: nat)
    requires AreFlags(tab) && page < 512 && 8 * n + 8 <= |bitmap| <= |more| && more[..|bitmap|] == bitmap
    ensures forall lo: bv8 :: LookUp(more, n, lo) == LookUp(bitmap, n, lo)
    ensures Represents(bitmap, n, tab, page) ==> Represents(more, n, tab, page)
  {
    forall lo: bv8
      ensures LookUp(more, n, lo) == LookUp(bitmap, n, lo)
    {
      SplitByte(lo);
    }
  }

  /** A page that needs no bitmap. */
  lemma PackedShared(bitmap: seq<bv32>, count: nat, tab: seq<bool>, index: seq<nat>, next: nat)
    requires AreFlags(tab) && |index| < 512 && Packed(bitmap, count, tab, index)
    requires !NeedsBitmap(tab, |index|) && next < count && Represents(bitmap, next, tab, |index|)
    ensures Packed(bitmap, count, tab, index + [next])
  {
    hide Represents, LookUp, NeedsBitmap, MadeFor;
    forall n | 2 <= n < count
      ensures MadeFor(n, tab, index + [next])
    {
      MadeForMore(n, tab, index, next);
    }
  }

  lemma PackedNew(bitmap: seq<bv32>, more: seq<bv32>, count: nat, tab: seq<bool>, index: seq<nat>)
    requires AreFlags(tab) && |index| < 512 && Packed(bitmap, count, tab, index)
    requires NeedsBitmap(tab, |index|) && |more| == |bitmap| + 8 && more[..|bitmap|] == bitmap
    requires Represents(more, count, tab, |index|)
    ensures Packed(more, count + 1, tab, index + [count])
  {
    hide Represents, LookUp, MadeFor;
    forall n | 2 <= n < count + 1
      ensures MadeFor(n, tab, index + [count])
    {
      if n < count {
        MadeForMore(n, tab, index, count);
      } else {
        MadeForLast(tab, index, count);
      }
    }
    RepresentsMore(bitmap, more, 0, tab, 0);
    RepresentsMore(bitmap, more, 1, tab, 0);
    forall k | 0 <= k < |index|
      ensures Represents(more, index[k], tab, k)
    {
      RepresentsMore(bitmap, more, index[k], tab, k);
    }
  }

  lemma MadeForLast(tab: seq<bool>, index: seq<nat>, n: nat)
    requires AreFlags(tab) && |index| < 512 && IsMixed(tab, |index|)
    ensures MadeFor(n, tab, index + [n])
  {
    assert (index + [n])[|index|] == n;
  }

  lemma SamePageRepresents(bitmap: seq<bv32>, n: nat, tab: seq<bool>, i: nat, j: nat)
    requires AreFlags(tab) && i < 512 && j < 512 && 8 * n + 8 <= |bitmap|
    requires SamePage(tab, i, j) && Represents(bitmap, n, tab, i)
    ensures Represents(bitmap, n, tab, j)
  {
    forall lo: bv8
      ensures LookUp(bitmap, n, lo) == Flag(tab, j, lo)
    {
      assert tab[i * 256..i * 256 + 256][lo as int] == tab[j * 256..j * 256 + 256][lo as int];
    }
  }

  lemma ConstantRepresents(bitmap: seq<bv32>, kind: nat, tab: seq<bool>, i: nat)
    requires AreFlags(tab) && i < 512 && 16 <= |bitmap| && kind <= 1
    requires forall lo: bv8 :: !LookUp(bitmap, 0, lo) && LookUp(bitmap, 1, lo)
    requires forall j :: 0 <= j < 256 ==> FlagAt(tab, i, j) == (kind == 1)
    ensures Represents(bitmap, kind, tab, i)
  {
  }

  lemma FirstBitmaps(bitmap: seq<bv32>)
    requires |bitmap| == 16
    requires forall i :: 0 <= i < 8 ==> bitmap[i] == 0
    requires forall i :: 8 <= i < 16 ==> bitmap[i] == 0xFFFFFFFF
    ensures forall lo: bv8 :: !LookUp(bitmap, 0, lo) && LookUp(bitmap, 1, lo)
  {
    forall lo: bv8
      ensures !LookUp(bitmap, 0, lo) && LookUp(bitmap, 1, lo)
    {
      SplitByte(lo);
      ConstantBits(lo & 0x1F);
    }
  }

  /** Emits the bitmaps, numbers the pages, and cuts the numbers to unsigned characters. */
  method PrintTabs(tab: seq<bool>) returns (tables: Tables, ghost index: seq<nat>)
    requires AreFlags(tab)
    ensures tables.InBounds() && |index| == 512 && Packed(tables.bitmap, 2 + Needed(tab, 512), tab, index)
    ensures forall k :: 0 <= k < 256 ==> tables.nmstrtPages[k] == index[k] % 256
    ensures forall k :: 0 <= k < 256 ==> tables.namePages[k] == index[256 + k] % 256
  {
    hide Packed, Represents, NeedsBitmap, SamePage;
    var nBitmaps := 2;
    var pageIndex := new nat[512];
    var bitmap: seq<bv32> := [0, 0, 0, 0, 0, 0, 0, 0, 0xFFFFFFFF, 0xFFFFFFFF, 0xFFFFFFFF, 0xFFFFFFFF,
                              0xFFFFFFFF, 0xFFFFFFFF, 0xFFFFFFFF, 0xFFFFFFFF];
    FirstBitmaps(bitmap);
    index := [];
    PackedNothing(bitmap, tab);
    for i := 0 to 512
      invariant |index| == i && Packed(bitmap, nBitmaps, tab, index)
      invariant forall k :: 0 <= k < i ==> pageIndex[k] == index[k] % 256
    {
      var kind := PageKind(tab, i);
      PackedBounds(bitmap, nBitmaps, tab, index);
      if i >= 256 && tab[(i - 256) * 256..(i - 256) * 256 + 256] == tab[i * 256..i * 256 + 256] {
        pageIndex[i] := pageIndex[i - 256];
        PackedSame(bitmap, nBitmaps, tab, index);
        index := index + [index[i - 256]];
      } else if kind == -1 {
        var more := EmitPage(tab, i, bitmap);
        pageIndex[i] := nBitmaps % 256;
        NeedsIfMixed(tab, i);
        PackedNew(bitmap, more, nBitmaps, tab, index);
        index := index + [nBitmaps];
        nBitmaps, bitmap := nBitmaps + 1, more;
      } else {
        pageIndex[i] := kind;
        PackedConstant(bitmap, nBitmaps, tab, index, kind);
        index := index + [kind];
      }
    }
    PackedBounds(bitmap, nBitmaps, tab, index);
    tables := Tables(bitmap, pageIndex[..256], pageIndex[256..]);
  }

  lemma PackedNothing(bitmap: seq<bv32>, tab: seq<bool>)
    requires AreFlags(tab) && |bitmap| == 16
    requires forall lo: bv8 :: !LookUp(bitmap, 0, lo) && LookUp(bitmap, 1, lo)
    ensures Packed(bitmap, 2, tab, [])
  {
  }

  lemma PackedBounds(bitmap: seq<bv32>, count: nat, tab: seq<bool>, index: seq<nat>)
    requires AreFlags(tab) && |index| <= 512 && Packed(bitmap, count, tab, index)
    ensures |bitmap| == 8 * count && count == 2 + Needed(tab, |index|)
    ensures forall k :: 0 <= k < |index| ==> index[k] < count && 8 * index[k] + 8 <= |bitmap|
  {
  }

  lemma NeedsIfMixed(tab: seq<bool>, i: nat)
    requires AreFlags(tab) && i < 512 && IsMixed(tab, i)
    requires !(i >= 256 && tab[(i - 256) * 256..(i - 256) * 256 + 256] == tab[i * 256..i * 256 + 256])
    ensures NeedsBitmap(tab, i)
  {
  }

  lemma PackedSame(bitmap: seq<bv32>, count: nat, tab: seq<bool>, index: seq<nat>)
    requires AreFlags(tab) && 256 <= |index| < 512 && Packed(bitmap, count, tab, index)
    requires tab[(|index| - 256) * 256..(|index| - 256) * 256 + 256] == tab[|index| * 256..|index| * 256 + 256]
    ensures Packed(bitmap, count, tab, index + [index[|index| - 256]])
  {
    hide Represents, LookUp, MadeFor;
    var i := |index|;
    SamePageRepresents(bitmap, index[i - 256], tab, i - 256, i);
    PackedShared(bitmap, count, tab, index, index[i - 256]);
  }

  lemma PackedConstant(bitmap: seq<bv32>, count: nat, tab: seq<bool>, index: seq<nat>, kind: nat)
    requires AreFlags(tab) && |index| < 512 && Packed(bitmap, count, tab, index) && kind <= 1
    requires forall j :: 0 <= j < 256 ==> FlagAt(tab, |index|, j) == (kind == 1)
    ensures Packed(bitmap, count, tab, index + [kind])
  {
    hide Represents, LookUp, MadeFor;
    ConstantRepresents(bitmap, kind, tab, |index|);
    PackedShared(bitmap, count, tab, index, kind);
  }

  // ---------------------------------------------------------------- the lookups

  /** UCS2_GET_NAMING. */
  predicate Ucs2GetNaming(bitmap: seq<bv32>, pages: seq<nat>, hi: bv8, lo: bv8)
    requires |pages| == 256 && forall k :: 0 <= k < 256 ==> 8 * pages[k] + 8 <= |bitmap|
  {
    LookUp(bitmap, pages[hi as int], lo)
  }

  /** Both lookups give the flags of the plain tables at every code unit. */
  ghost predicate Agrees(tables: Tables, tab: seq<bool>)
    requires AreFlags(tab) && tables.InBounds()
  {
    forall hi: bv8, lo: bv8 ::
      && Ucs2GetNaming(tables.bitmap, tables.nmstrtPages, hi, lo) == Flag(tab, hi as int, lo)
      && Ucs2GetNaming(tables.bitmap, tables.namePages, hi, lo) == Flag(tab, 256 + hi as int, lo)
  }

  lemma PackedPage(bitmap: seq<bv32>, count: nat, tab: seq<bool>, index: seq<nat>, k: nat)
    requires AreFlags(tab) && |index| == 512 && k < 512 && Packed(bitmap, count, tab, index)
    ensures index[k] < count && 8 * index[k] + 8 <= |bitmap| && Represents(bitmap, index[k], tab, k)
  {
  }

  /** With at most 254 bitmaps besides the constant ones every page number fits, and all lookups are
      right; with more, page number 256 is cut to 0, and the page it was made for reads as empty. */
  lemma AgreesIffBitmapsFit(tab: seq<bool>, tables: Tables, index: seq<nat>)
    requires AreFlags(tab) && tables.InBounds() && |index| == 512
    requires Packed(tables.bitmap, 2 + Needed(tab, 512), tab, index)
    requires forall k :: 0 <= k < 256 ==> tables.nmstrtPages[k] == index[k] % 256
    requires forall k :: 0 <= k < 256 ==> tables.namePages[k] == index[256 + k] % 256
    ensures Agrees(tables, tab) <==> Needed(tab, 512) <= 254
  {
    if Needed(tab, 512) <= 254 {
      FittingPagesAgree(tab, tables, index);
    } else {
      assert MadeFor(256, tab, index);
      var k :| 0 <= k < 512 && index[k] == 256 && IsMixed(tab, k);
      CutPageDisagrees(tab, tables, k);
    }
  }

  lemma FittingPagesAgree(tab: seq<bool>, tables: Tables, index: seq<nat>)
    requires AreFlags(tab) && tables.InBounds() && |index| == 512
    requires Packed(tables.bitmap, 2 + Needed(tab, 512), tab, index) && Needed(tab, 512) <= 254
    requires forall k :: 0 <= k < 256 ==> tables.nmstrtPages[k] == index[k] % 256
    requires forall k :: 0 <= k < 256 ==> tables.namePages[k] == index[256 + k] % 256
    ensures Agrees(tables, tab)
  {
    hide Packed, LookUp, Flag, Needed;
    forall hi: bv8, lo: bv8
      ensures Ucs2GetNaming(tables.bitmap, tables.nmstrtPages, hi, lo) == Flag(tab, hi as int, lo)
      ensures Ucs2GetNaming(tables.bitmap, tables.namePages, hi, lo) == Flag(tab, 256 + hi as int, lo)
    {
      PackedPage(tables.bitmap, 2 + Needed(tab, 512), tab, index, hi as int);
      PackedPage(tables.bitmap, 2 + Needed(tab, 512), tab, index, 256 + hi as int);
    }
  }

  lemma CutPageDisagrees(tab: seq<bool>, tables: Tables, k: nat)
    requires AreFlags(tab) && tables.InBounds() && k < 512 && IsMixed(tab, k)
    requires |tables.bitmap| >= 8 && forall lo: bv8 :: !LookUp(tables.bitmap, 0, lo)
    requires (if k < 256 then tables.nmstrtPages[k] else tables.namePages[k - 256]) == 0
    ensures !Agrees(tables, tab)
  {
    hide LookUp;
    var j :| 0 <= j < 256 && FlagAt(tab, k, j) != FlagAt(tab, k, 0);
    var lo := ByteOf(if FlagAt(tab, k, j) then j else 0);
    if k < 256 {
      var hi := ByteOf(k);
      assert !Ucs2GetNaming(tables.bitmap, tables.nmstrtPages, hi, lo) && Flag(tab, hi as int, lo);
    } else {
      var hi := ByteOf(k - 256);
      assert !Ucs2GetNaming(tables.bitmap, tables.namePages, hi, lo) && Flag(tab, 256 + hi as int, lo);
    }
  }

  lemma NextByte(b: bv8)
    requires b as int < 255
    ensures (b + 1) as int == b as int + 1
  {
  }

  lemma ByteOf(n: nat) returns (b: bv8)
    requires n < 256
    ensures b as int == n
  {
    if n == 0 {
      b := 0;
    } else {
      var before := ByteOf(n - 1);
      NextByte(before);
      b := before + 1;
    }
  }

  /** UTF8_GET_NAMING2: page, word and bit straight from the two bytes. */
  predicate Utf8GetNaming2(bitmap: seq<bv32>, pages: seq<nat>, b0: byte, b1: byte)
    requires |pages| == 256 && forall k :: 0 <= k < 256 ==> 8 * pages[k] + 8 <= |bitmap|
  {
    var word := ((b0 & 3) << 1) + ((b1 >> 5) & 1);
    WordInRange(b0, b1);
    Bit(bitmap[8 * pages[((b0 >> 2) & 7) as int] + word as int], b1 & 0x1F)
  }

  /** UTF8_GET_NAMING3. */
  predicate Utf8GetNaming3(bitmap: seq<bv32>, pages: seq<nat>, b0: byte, b1: byte, b2: byte)
    requires |pages| == 256 && forall k :: 0 <= k < 256 ==> 8 * pages[k] + 8 <= |bitmap|
  {
    var word := ((b1 & 3) << 1) + ((b2 >> 5) & 1);
    WordInRange(b1, b2);
    Bit(bitmap[8 * pages[(((b0 & 0xF) << 4) + ((b1 >> 2) & 0xF)) as int] + word as int], b2 & 0x1F)
  }

  lemma WordInRange(a: byte, b: byte)
    ensures ((((a & 3) << 1) + ((b >> 5) & 1)) as int) < 8 && b & 0x1F < 32
  {
  }

  lemma TwoBytes(b0: byte, b1: byte)
    ensures var c := Transcode.JoinTwo(b0, b1);
      && Transcode.Hi(c) == (b0 >> 2) & 7
      && Transcode.Lo(c) >> 5 == ((b0 & 3) << 1) + ((b1 >> 5) & 1)
      && Transcode.Lo(c) & 0x1F == b1 & 0x1F
  {
  }

  lemma ThreeBytes(b0: byte, b1: byte, b2: byte)
    ensures var c := Transcode.JoinThree(b0, b1, b2);
      && Transcode.Hi(c) == ((b0 & 0xF) << 4) + ((b1 >> 2) & 0xF)
      && Transcode.Lo(c) >> 5 == ((b1 & 3) << 1) + ((b2 >> 5) & 1)
      && Transcode.Lo(c) & 0x1F == b2 & 0x1F
  {
  }

  /** The lookups in UTF-8 bytes are the lookup at the character they stand for. */
  lemma Utf8LooksUpDecoded(bitmap: seq<bv32>, pages: seq<nat>, b0: byte, b1: byte, b2: byte)
    requires |pages| == 256 && forall k :: 0 <= k < 256 ==> 8 * pages[k] + 8 <= |bitmap|
    ensures var c := Transcode.JoinTwo(b0, b1);
      Utf8GetNaming2(bitmap, pages, b0, b1) == Ucs2GetNaming(bitmap, pages, Transcode.Hi(c), Transcode.Lo(c))
    ensures var c := Transcode.JoinThree(b0, b1, b2);
      Utf8GetNaming3(bitmap, pages, b0, b1, b2) == Ucs2GetNaming(bitmap, pages, Transcode.Hi(c), Transcode.Lo(c))
  {
    hide Bit, Transcode.JoinTwo, Transcode.JoinThree, Transcode.Hi, Transcode.Lo;
    TwoBytes(b0, b1);
    ThreeBytes(b0, b1, b2);
    SplitByte(Transcode.Lo(Transcode.JoinTwo(b0, b1)));
    SplitByte(Transcode.Lo(Transcode.JoinThree(b0, b1, b2)));
  }

  // ---------------------------------------------------------------- the generator

  /** An end of zero marks a single character. */
  datatype Range = Range(start: nat, end: nat)

  predicate InRange(c: nat, r: Range) {
    if r.end != 0 then r.start <= c <= r.end else c == r.start
  }

  predicate InRanges(c: nat, ranges: seq<Range>) {
    exists i :: 0 <= i < |ranges| && InRange(c, ranges[i])
  }

  predicate RangesFit(ranges: seq<Range>) {
    forall i :: 0 <= i < |ranges| ==> ranges[i].start < 65536 && ranges[i].end < 65536
  }

  method SetTab(tab: array<bool>, at: nat, ranges: seq<Range>)
    requires at + 65536 <= tab.Length && RangesFit(ranges)
    modifies tab
    ensures forall k :: at <= k < at + 65536 ==> tab[k] == (old(tab[k]) || InRanges(k - at, ranges))
    ensures forall k :: 0 <= k < tab.Length && !(at <= k < at + 65536) ==> tab[k] == old(tab[k])
  {
    for i := 0 to |ranges|
      invariant forall k :: at <= k < at + 65536 ==> tab[k] == (old(tab[k]) || InRanges(k - at, ranges[..i]))
      invariant forall k :: 0 <= k < tab.Length && !(at <= k < at + 65536) ==> tab[k] == old(tab[k])
    {
      SetRange(tab, at, ranges[i]);
      assert ranges[..i + 1] == ranges[..i] + [ranges[i]];
      forall c: nat
        ensures InRanges(c, ranges[..i + 1]) <==> InRanges(c, ranges[..i]) || InRange(c, ranges[i])
      {
        InRangesSnoc(c, ranges[..i], ranges[i]);
      }
    }
    assert ranges[..|ranges|] == ranges;
  }

  lemma InRangesSnoc(c: nat, ranges: seq<Range>, r: Range)
    ensures InRanges(c, ranges + [r]) <==> InRanges(c, ranges) || InRange(c, r)
  {
    if InRanges(c, ranges) {
      var i :| 0 <= i < |ranges| && InRange(c, ranges[i]);
      assert (ranges + [r])[i] == ranges[i];
    }
    assert (ranges + [r])[|ranges|] == r;
  }

  method SetRange(tab: array<bool>, at: nat, r: Range)
    requires at + 65536 <= tab.Length && r.start < 65536 && r.end < 65536
    modifies tab
    ensures forall k :: at <= k < at + 65536 ==> tab[k] == (old(tab[k]) || InRange(k - at, r))
    ensures forall k :: 0 <= k < tab.Length && !(at <= k < at + 65536) ==> tab[k] == old(tab[k])
  {
    if r.end != 0 {
      var j := r.start;
      while j <= r.end
        invariant r.start <= j && (j <= r.end + 1 || j == r.start)
        invariant forall k :: 0 <= k < tab.Length ==> tab[k] == (old(tab[k]) || at + r.start <= k < at + j)
      {
        tab[at + j] := true;
        j := j + 1;
      }
    } else {
      tab[at + r.start] := true;
    }
  }

  /** The generator: name characters are the name start characters and those of the second list. */
  method Generate(nmstrt: seq<Range>, name: seq<Range>) returns (tables: Tables, ghost tab: seq<bool>)
    requires RangesFit(nmstrt) && RangesFit(name)
    ensures AreFlags(tab) && tables.InBounds()
    ensures forall c :: 0 <= c < 65536 ==> tab[c] == InRanges(c, nmstrt)
    ensures forall c :: 0 <= c < 65536 ==> tab[65536 + c] == (InRanges(c, nmstrt) || InRanges(c, name))
    ensures Agrees(tables, tab) <==> Needed(tab, 512) <= 254
  {
    var flags := new bool[2 * 65536](_ => false);
    SetTab(flags, 0, nmstrt);
    forall c | 0 <= c < 65536 {
      flags[65536 + c] := flags[c];
    }
    SetTab(flags, 65536, name);
    tab := flags[..];
    forall c | 0 <= c < 65536
      ensures tab[65536 + c] == (InRanges(c, nmstrt) || InRanges(c, name))
    {
      assert InRanges(65536 + c - 65536, name) == InRanges(c, name);
    }
    ghost var index;
    tables, index := PrintTabs(flags[..]);
    AgreesIffBitmapsFit(tab, tables, index);
  }

  // ---------------------------------------------------------------- too many bitmaps

  /** The first character of every page, alone. */
  function PageStarts(): (ranges: seq<Range>)
    ensures |ranges| == 256 && forall p :: 0 <= p < 256 ==> ranges[p] == Range(256 * p, 0)
  {
    seq(256, p requires 0 <= p < 256 => Range(256 * p, 0))
  }

  lemma InPageStarts(c: nat)
    requires c < 65536
    ensures InRanges(c, PageStarts()) <==> c % 256 == 0
  {
    if c % 256 == 0 {
      assert InRange(c, PageStarts()[c / 256]);
    }
  }

  lemma {:induction false} EachPageNeeds(tab: seq<bool>, n: nat)
    requires AreFlags(tab) && n <= 256
    requires forall c :: 0 <= c < 65536 ==> tab[c] == (c % 256 == 0)
    ensures Needed(tab, n) == n
  {
    if n > 0 {
      EachPageNeeds(tab, n - 1);
      assert FlagAt(tab, n - 1, 1) != FlagAt(tab, n - 1, 0);
    }
  }

  lemma {:induction false} NeededGrows(tab: seq<bool>, m: nat, n: nat)
    requires AreFlags(tab) && m <= n <= 512
    ensures Needed(tab, m) <= Needed(tab, n)
    decreases n
  {
    if m < n {
      NeededGrows(tab, m, n - 1);
    }
  }

  lemma PageStartsNeedTooMany(tab: seq<bool>)
    requires AreFlags(tab) && forall c :: 0 <= c < 65536 ==> tab[c] == InRanges(c, PageStarts())
    ensures Needed(tab, 512) >= 256
  {
    hide InRanges, PageStarts;
    forall c | 0 <= c < 65536
      ensures tab[c] == (c % 256 == 0)
    {
      InPageStarts(c);
    }
    EachPageNeeds(tab, 256);
    NeededGrows(tab, 256, 512);
  }

  /** The tables made for these ranges, as name start characters, give a wrong flag at some code unit. */
  method GenerateForPageStarts() returns (tables: Tables, ghost tab: seq<bool>)
    ensures AreFlags(tab) && tables.InBounds()
    ensures forall c :: 0 <= c < 65536 ==> tab[c] == InRanges(c, PageStarts())
    ensures !Agrees(tables, tab)
  {
    hide Agrees, Needed, InRanges;
    tables, tab := Generate(PageStarts(), []);
    PageStartsNeedTooMany(tab);
  }
}
