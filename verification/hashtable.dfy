/** The open-addressing hash table of expat: linear probing downwards, doubling at half full. */
module HashTables {
  import opened Common

  /** A key without its terminating NUL. */
  type Key = k: seq<byte> | 0 !in k

  class Named {
    const name: Key

    constructor (name: Key)
      ensures this.name == name
    {
      this.name := name;
    }
  }

  const INIT_SIZE: nat := 64

  // ---------------------------------------------------------------- keys

  /** Byte `i` of a NUL-terminated string. */
  function ByteAt(s: Key, i: nat): byte { if i < |s| then s[i] else 0 }

  method KeyEq(s1: Key, s2: Key) returns (equal: bool)
    ensures equal == (s1 == s2)
  {
    var i := 0;
    while ByteAt(s1, i) == ByteAt(s2, i)
      invariant i <= |s1| && i <= |s2| && s1[..i] == s2[..i]
      decreases |s1| - i
    {
      if ByteAt(s1, i) == 0 {
        return true;
      }
      i := i + 1;
    }
    return false;
  }

  const WORD: nat := 0x1_0000_0000_0000_0000

  /** The hash of a prefix read so far, in 64-bit unsigned arithmetic. */
  function HashFrom(s: seq<byte>, h: nat): (r: nat)
    requires h < WORD
    ensures r < WORD
    decreases |s|
  {
    if s == [] then h else HashFrom(s[1..], (h * 32 + h + s[0] as nat) % WORD)
  }

  method Hash(s: Key) returns (h: nat)
    ensures h == HashFrom(s, 0)
  {
    h := 0;
    var i := 0;
    while ByteAt(s, i) != 0
      invariant i <= |s| && h < WORD && HashFrom(s[i..], h) == HashFrom(s, 0)
      decreases |s| - i
    {
      assert s[i..][1..] == s[i + 1..];
      h := (h * 32 + h + s[i] as nat) % WORD;
      i := i + 1;
    }
  }

  // ---------------------------------------------------------------- slots

  type Slots = seq<Named?>

  predicate PowerOfTwo(n: nat) { n == 1 || (n > 1 && n % 2 == 0 && PowerOfTwo(n / 2)) }

  /** The bitwise `and` of two numbers. */
  function BitAnd(a: nat, b: nat): nat {
    if a == 0 || b == 0 then 0 else 2 * BitAnd(a / 2, b / 2) + (a % 2) * (b % 2)
  }

  /** `h & (size - 1)` is a remainder when the size is a power of two. */
  lemma {:induction false} MaskIsRemainder(h: nat, size: nat)
    requires PowerOfTwo(size)
    ensures BitAnd(h, size - 1) == h % size
    decreases size
  {
    if size > 1 {
      MaskIsRemainder(h / 2, size / 2);
      assert (size - 1) / 2 == size / 2 - 1 && (size - 1) % 2 == 1;
      HalvesOfRemainder(h, size / 2);
    }
  }

  lemma HalvesOfRemainder(h: nat, half: nat)
    requires half > 0
    ensures h % (2 * half) == 2 * ((h / 2) % half) + h % 2
  {
    var q, r := h / (2 * half), h % (2 * half);
    assert h == 2 * (q * half) + r by {
      assert (2 * half) * q == 2 * (q * half);
    }
    assert h / 2 == q * half + r / 2;
    RemainderIs(h / 2, half, q, r / 2);
  }

  lemma RemainderIs(a: nat, n: nat, q: nat, r: nat)
    requires r < n && a == q * n + r
    ensures a % n == r
  {
    var k := a / n - q;
    assert k * n == (a / n) * n - q * n;
    assert a == (a / n) * n + a % n;
    assert k * n + n > 0 && k * n < n;
  }

  /** Where the search for a key begins: `hash & (size - 1)`, see MaskIsRemainder. */
  function Home(key: Key, size: nat): (i: nat)
    requires size > 0
    ensures i < size
  {
    HashFrom(key, 0) % size
  }

  function Below(i: nat, size: nat): (r: nat)
    requires i < size
    ensures r < size
  {
    if i == 0 then size - 1 else i - 1
  }

  /** The number of steps down, around the end, from `home` to `i`. */
  function Distance(home: nat, i: nat, size: nat): (d: nat)
    requires home < size && i < size
    ensures d < size
  {
    if i <= home then home - i else home - i + size
  }

  /** Every slot that a search from `home` passes before `i` is in use. */
  predicate Chained(slots: Slots, home: nat, i: nat)
    requires home < |slots| && i < |slots|
  {
    forall j :: 0 <= j < |slots| && Distance(home, j, |slots|) < Distance(home, i, |slots|) ==> slots[j] != null
  }

  predicate Placed(slots: Slots) {
    forall i :: 0 <= i < |slots| && slots[i] != null ==> Chained(slots, Home(slots[i].name, |slots|), i)
  }

  predicate Distinct(slots: Slots) {
    forall i, j :: 0 <= i < j < |slots| && slots[i] != null && slots[j] != null ==> slots[i].name != slots[j].name
  }

  function InUse(slots: Slots): nat {
    if slots == [] then 0 else InUse(slots[..|slots| - 1]) + if slots[|slots| - 1] != null then 1 else 0
  }

  /** The entries in the order of the slots. */
  function Entries(slots: Slots): seq<Named> {
    if slots == [] then []
    else
      var rest := Entries(slots[..|slots| - 1]);
      if slots[|slots| - 1] != null then rest + [slots[|slots| - 1]] else rest
  }

  ghost function EntrySet(slots: Slots): set<Named> {
    set i | 0 <= i < |slots| && slots[i] != null :: slots[i]
  }

  /** The map that a table stands for. */
  ghost function ModelOf(slots: Slots): map<Key, Named>
    requires Distinct(slots)
  {
    map e | e in EntrySet(slots) :: e.name := e
  }

  lemma {:induction false} FreeSlotExists(slots: Slots) returns (free: nat)
    requires InUse(slots) < |slots|
    ensures free < |slots| && slots[free] == null
  {
    if slots[|slots| - 1] == null {
      free := |slots| - 1;
    } else {
      free := FreeSlotExists(slots[..|slots| - 1]);
    }
  }

  lemma {:induction false} InUseAfterStore(slots: Slots, i: nat, e: Named)
    requires i < |slots| && slots[i] == null
    ensures InUse(slots[i := e]) == InUse(slots) + 1
  {
    var last := |slots| - 1;
    if i < last {
      InUseAfterStore(slots[..last], i, e);
      assert slots[i := e][..last] == slots[..last][i := e];
    } else {
      assert slots[i := e][..last] == slots[..last];
    }
  }

  lemma {:induction false} NoneInUse(slots: Slots)
    requires forall i :: 0 <= i < |slots| ==> slots[i] == null
    ensures InUse(slots) == 0
  {
    if slots != [] {
      NoneInUse(slots[..|slots| - 1]);
    }
  }

  /** An entry stored in the first free slot of its search. */
  lemma StoreKeepsPlaced(slots: Slots, i: nat, e: Named)
    requires i < |slots| && slots[i] == null && Placed(slots)
    requires Chained(slots, Home(e.name, |slots|), i)
    ensures Placed(slots[i := e])
    ensures EntrySet(slots[i := e]) == EntrySet(slots) + {e}
  {
    var slots' := slots[i := e];
    forall j | 0 <= j < |slots'| && slots'[j] != null
      ensures Chained(slots', Home(slots'[j].name, |slots'|), j)
    {
      if j != i {
        assert Chained(slots, Home(slots[j].name, |slots|), j);
      }
    }
    assert slots'[i] == e;
    forall x | x in EntrySet(slots)
      ensures x in EntrySet(slots')
    {
      var j :| 0 <= j < |slots| && slots[j] == x;
      assert slots'[j] == x;
    }
  }

  lemma StoreKeepsDistinct(slots: Slots, i: nat, e: Named)
    requires i < |slots| && Distinct(slots) && forall x :: x in EntrySet(slots) ==> x.name != e.name
    ensures Distinct(slots[i := e])
  {
    assert forall j :: 0 <= j < |slots| && slots[j] != null ==> slots[j] in EntrySet(slots);
  }

  /** A search from `home` has passed only entries with other keys before `i`. */
  ghost predicate Passed(slots: Slots, home: nat, i: nat, key: Key)
    requires home < |slots| && i < |slots|
  {
    forall j :: 0 <= j < |slots| && Distance(home, j, |slots|) < Distance(home, i, |slots|)
      ==> slots[j] != null && slots[j].name != key
  }

  lemma NothingPassed(slots: Slots, home: nat, key: Key)
    requires home < |slots|
    ensures Passed(slots, home, home, key)
  {
  }

  /** One step of the search, which does not go beyond a free slot. */
  lemma PassOne(slots: Slots, home: nat, i: nat, key: Key, free: nat)
    requires home < |slots| && i < |slots| && free < |slots| && slots[free] == null
    requires Passed(slots, home, i, key) && slots[i] != null && slots[i].name != key
    ensures Passed(slots, home, Below(i, |slots|), key)
    ensures Distance(home, i, |slots|) < Distance(home, Below(i, |slots|), |slots|) <= Distance(home, free, |slots|)
  {
    assert Distance(home, i, |slots|) < Distance(home, free, |slots|);
  }

  /** A key is absent when its search meets a free slot. */
  lemma AbsentKey(slots: Slots, key: Key, i: nat)
    requires |slots| > 0 && Placed(slots) && i < |slots| && slots[i] == null
    requires Passed(slots, Home(key, |slots|), i, key)
    ensures Chained(slots, Home(key, |slots|), i)
    ensures forall e :: e in EntrySet(slots) ==> e.name != key
  {
    forall j | 0 <= j < |slots| && slots[j] != null
      ensures slots[j].name != key
    {
      assert Chained(slots, Home(slots[j].name, |slots|), j);
    }
  }

  // ---------------------------------------------------------------- the table

  class HashTable {
    var v: array<Named?>
    var size: nat
    var used: nat
    var usedLim: nat

    ghost predicate Valid()
      reads this, v
    {
      && v.Length == size && used == InUse(v[..])
      && (if size == 0 then usedLim == 0
          else size >= INIT_SIZE && PowerOfTwo(size) && usedLim == size / 2 && used <= usedLim)
      && Placed(v[..]) && Distinct(v[..])
    }

    ghost function Model(): map<Key, Named>
      requires Valid()
      reads this, v
    {
      ModelOf(v[..])
    }

    constructor ()
      ensures Valid() && Model() == map[] && fresh(v)
    {
      size, used, usedLim := 0, 0, 0;
      v := new Named?[0];
    }

    /** The search loop: the slot of the entry with the key, or the free slot where it ends. */
    method Search(name: Key) returns (i: nat)
      requires Valid() && size > 0
      ensures i < size
      ensures v[i] != null ==> v[i].name == name && v[i] in EntrySet(v[..])
      ensures v[i] == null ==>
        Chained(v[..], Home(name, size), i) && forall e :: e in EntrySet(v[..]) ==> e.name != name
    {
      hide InUse, Placed, Distinct, PowerOfTwo, Passed, Below, Distance, Chained;
      var h := Hash(name);
      i := h % size;
      ghost var free := FreeSlotExists(v[..]);
      NothingPassed(v[..], i, name);
      while v[i] != null
        invariant i < size && Passed(v[..], Home(name, size), i, name)
        decreases Distance(Home(name, size), free, size) - Distance(Home(name, size), i, size)
      {
        var equal := KeyEq(name, v[i].name);
        if equal {
          assert v[i] == v[..][i];
          return;
        }
        PassOne(v[..], Home(name, size), i, name, free);
        i := Below(i, size);
      }
      AbsentKey(v[..], name, i);
    }

    /** `v[i] = e` for the free slot where the search for the key of `e` ended. */
    static method PutAt(slots: array<Named?>, i: nat, e: Named)
      requires i < slots.Length && slots[i] == null && Placed(slots[..]) && Distinct(slots[..])
      requires Chained(slots[..], Home(e.name, slots.Length), i)
      requires forall x :: x in EntrySet(slots[..]) ==> x.name != e.name
      modifies slots
      ensures Placed(slots[..]) && Distinct(slots[..])
      ensures EntrySet(slots[..]) == old(EntrySet(slots[..])) + {e} && InUse(slots[..]) == old(InUse(slots[..])) + 1
    {
      hide *;
      ghost var was := slots[..];
      InUseAfterStore(was, i, e);
      StoreKeepsPlaced(was, i, e);
      StoreKeepsDistinct(was, i, e);
      slots[i] := e;
      assert slots[..] == was[i := e];
    }

    /** The rehash loops: every entry of `v` stored in a new array of `newSize` slots. */
    method Rehash(newSize: nat) returns (newV: array<Named?>)
      requires Valid() && size <= newSize && used < newSize
      ensures fresh(newV) && newV.Length == newSize && InUse(newV[..]) == used
      ensures Placed(newV[..]) && Distinct(newV[..]) && EntrySet(newV[..]) == EntrySet(v[..])
    {
      hide Placed, Distinct, InUse, EntrySet, Chained, Home;
      newV := new Named?[newSize](_ => null);
      NothingStored(newV[..]);
      assert v[..0] == [];
      NothingStored(v[..0]);
      for i := 0 to size
        invariant Placed(newV[..]) && Distinct(newV[..])
        invariant EntrySet(newV[..]) == EntrySet(v[..i]) && InUse(newV[..]) == InUse(v[..i])
      {
        NextSlot(v[..], i);
        if v[i] != null {
          var j := FreeSlotFor(newV, v[i].name);
          PutAt(newV, j, v[i]);
        }
      }
      assert v[..size] == v[..];
    }

    /** The probe loop of an insertion, which compares no keys. */
    static method FreeSlotFor(slots: array<Named?>, name: Key) returns (j: nat)
      requires InUse(slots[..]) < slots.Length
      ensures j < slots.Length && slots[j] == null && Chained(slots[..], Home(name, slots.Length), j)
    {
      var size := slots.Length;
      var h := Hash(name);
      j := h % size;
      ghost var free := FreeSlotExists(slots[..]);
      while slots[j] != null
        invariant j < size && Chained(slots[..], Home(name, size), j)
        decreases Distance(Home(name, size), free, size) - Distance(Home(name, size), j, size)
      {
        assert j != free;
        j := Below(j, size);
      }
    }

    /** The first allocation, or doubling when the table is half full: the slot for a new key. */
    method MakeRoom(name: Key, found: nat) returns (i: nat)
      requires Valid()
      requires size > 0 ==> found < size && v[found] == null && Chained(v[..], Home(name, size), found)
      modifies this
      ensures v.Length == size && size >= INIT_SIZE && PowerOfTwo(size) && usedLim == size / 2
      ensures used == old(used) == InUse(v[..]) < usedLim && (v == old(v) || fresh(v))
      ensures Placed(v[..]) && Distinct(v[..]) && EntrySet(v[..]) == old(EntrySet(v[..]))
      ensures i < size && v[i] == null && Chained(v[..], Home(name, size), i)
    {
      hide Placed, Distinct, InUse, EntrySet, Chained, Home;
      if size == 0 {
        NothingStored(v[..]);
        v := new Named?[INIT_SIZE](_ => null);
        NothingStored(v[..]);
        size, usedLim := INIT_SIZE, INIT_SIZE / 2;
        i := FreeSlotFor(v, name);
      } else if used == usedLim {
        var newV := Rehash(size * 2);
        v := newV;
        size := size * 2;
        usedLim := size / 2;
        i := FreeSlotFor(v, name);
      } else {
        i := found;
      }
    }

    /** lookup: the entry with the key, created when there is none and `create` asks for it. */
    method Lookup(name: Key, create: bool) returns (r: Named?)
      requires Valid()
      modifies this, v
      ensures Valid() && (v == old(v) || fresh(v))
      ensures name in old(Model()) ==> r == old(Model())[name] && Model() == old(Model())
      ensures name !in old(Model()) && !create ==> r == null && Model() == old(Model())
      ensures name !in old(Model()) && create ==>
        r != null && fresh(r) && r.name == name && Model() == old(Model())[name := r]
    {
      hide Placed, Distinct, InUse, EntrySet, Chained, Home, ModelOf, PowerOfTwo;
      var i := 0;
      ModelIsEntries(v[..]);
      if size > 0 {
        i := Search(name);
        if v[i] != null {
          return v[i];
        }
      } else {
        NothingStored(v[..]);
      }
      if !create {
        return null;
      }
      i := MakeRoom(name, i);
      SameEntriesSameModel(old(v[..]), v[..]);
      ghost var was := v[..];
      r := new Named(name);
      PutAt(v, i, r);
      used := used + 1;
      ModelGains(was, v[..], r);
    }
  }

  lemma ModelGains(slots: Slots, slots': Slots, r: Named)
    requires Distinct(slots) && Distinct(slots') && EntrySet(slots') == EntrySet(slots) + {r}
    ensures ModelOf(slots') == ModelOf(slots)[r.name := r]
  {
    hide Distinct, EntrySet;
    ModelIsEntries(slots);
    ModelIsEntries(slots');
  }

  /** The model depends only on the set of entries. */
  lemma SameEntriesSameModel(slots: Slots, slots': Slots)
    requires Distinct(slots) && Distinct(slots') && EntrySet(slots') == EntrySet(slots)
    ensures ModelOf(slots') == ModelOf(slots)
  {
    hide Distinct, EntrySet;
    ModelIsEntries(slots);
    ModelIsEntries(slots');
  }

  /** The model's keys are the names of the entries, each name leading to its entry. */
  lemma ModelIsEntries(slots: Slots)
    requires Distinct(slots)
    ensures forall e :: e in EntrySet(slots) ==> e.name in ModelOf(slots) && ModelOf(slots)[e.name] == e
    ensures forall n :: n in ModelOf(slots) ==> ModelOf(slots)[n] in EntrySet(slots) && ModelOf(slots)[n].name == n
  {}

  lemma NothingStored(slots: Slots)
    requires forall i :: 0 <= i < |slots| ==> slots[i] == null
    ensures InUse(slots) == 0 && EntrySet(slots) == {} && Distinct(slots) && Placed(slots)
  {
    NoneInUse(slots);
  }

  /** One more slot of the old array taken into account. */
  lemma NextSlot(slots: Slots, i: nat)
    requires i < |slots| && Distinct(slots)
    ensures slots[i] == null ==>
      EntrySet(slots[..i + 1]) == EntrySet(slots[..i]) && InUse(slots[..i + 1]) == InUse(slots[..i])
    ensures slots[i] != null ==>
      && EntrySet(slots[..i + 1]) == EntrySet(slots[..i]) + {slots[i]}
      && InUse(slots[..i]) + 1 == InUse(slots[..i + 1]) <= InUse(slots)
      && forall x :: x in EntrySet(slots[..i]) ==> x.name != slots[i].name
  {
    EntriesOfPrefix(slots, i);
    InUseOfPrefix(slots, i + 1);
    hide EntrySet;
    assert slots[..i + 1][..i] == slots[..i];
  }

  lemma EntriesOfPrefix(slots: Slots, i: nat)
    requires i < |slots| && Distinct(slots)
    ensures EntrySet(slots[..i + 1]) == EntrySet(slots[..i]) + if slots[i] == null then {} else {slots[i]}
    ensures slots[i] != null ==> forall x :: x in EntrySet(slots[..i]) ==> x.name != slots[i].name
  {
    var less, more := slots[..i], slots[..i + 1];
    assert forall k :: 0 <= k < i ==> less[k] == more[k];
    forall x | x in EntrySet(less)
      ensures x in EntrySet(more)
    {
      var k :| 0 <= k < i && less[k] == x;
      assert more[k] == x;
    }
    if slots[i] != null {
      assert more[i] == slots[i];
    }
  }

  lemma {:induction false} InUseOfPrefix(slots: Slots, i: nat)
    requires i <= |slots|
    ensures InUse(slots[..i]) <= InUse(slots)
    decreases |slots| - i
  {
    if i < |slots| {
      InUseOfPrefix(slots, i + 1);
      assert slots[..i + 1][..i] == slots[..i];
    } else {
      assert slots[..i] == slots;
    }
  }

  // ---------------------------------------------------------------- iteration

  class HashTableIter {
    const v: array<Named?>
    var p: nat

    /** hashTableIterInit. */
    constructor (table: HashTable)
      requires table.Valid()
      ensures v == table.v && p == 0
    {
      v := table.v;
      p := 0;
    }

    method Next() returns (r: Named?)
      requires p <= v.Length
      modifies this
      ensures p <= v.Length
      ensures r == null ==> Entries(v[..]) == Entries(v[..old(p)])
      ensures r != null ==> old(p) < p && Entries(v[..p]) == Entries(v[..old(p)]) + [r]
    {
      while p != v.Length
        invariant p <= v.Length && Entries(v[..p]) == Entries(v[..old(p)])
        decreases v.Length - p
      {
        r := v[p];
        assert v[..p + 1][..p] == v[..p];
        p := p + 1;
        if r != null {
          return;
        }
      }
      assert v[..p] == v[..];
      return null;
    }
  }

  /** Iterating over a table yields each of its entries exactly once. */
  method Iterate(table: HashTable) returns (entries: seq<Named>)
    requires table.Valid()
    ensures |entries| == table.used
    ensures forall i, j :: 0 <= i < j < |entries| ==> entries[i] != entries[j]
    ensures forall e :: e in entries <==> e.name in table.Model() && table.Model()[e.name] == e
  {
    var iter := new HashTableIter(table);
    entries := [];
    while true
      invariant iter.p <= iter.v.Length == table.size && entries == Entries(table.v[..iter.p])
      invariant iter.v == table.v
      decreases table.size - iter.p
    {
      var e := iter.Next();
      if e == null {
        break;
      }
      entries := entries + [e];
    }
    EntriesAreExact(table.v[..]);
    ModelIsEntries(table.v[..]);
  }

  lemma {:induction false} EntriesAreExact(slots: Slots)
    requires Distinct(slots)
    ensures |Entries(slots)| == InUse(slots)
    ensures forall e :: e in Entries(slots) <==> e in EntrySet(slots)
    ensures forall i, j :: 0 <= i < j < |Entries(slots)| ==> Entries(slots)[i] != Entries(slots)[j]
  {
    hide EntrySet;
    if slots != [] {
      var last := |slots| - 1;
      EntriesAreExact(slots[..last]);
      EntriesOfPrefix(slots, last);
      assert slots[..last + 1] == slots;
    } else {
      assert EntrySet([]) == {} by {
        NothingStored([]);
      }
    }
  }
}
