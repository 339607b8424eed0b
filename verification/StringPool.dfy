/**
 The constant string pool: an interning table with reference counts, a free list, a recycle
 list, and two kinds of resize. Every public method is a step of the machine in `Interning`.
 */
module StringPool {
  import opened Basics
  import opened HashChains
  import opened Interning

  const WASM_SYMBOLS_MAX := 0x3FFF_FFFF
  const INITIAL_ENTRIES := 211
  const INITIAL_BUCKETS := 128

  /** One round of FNV-1a over 32 bits. */
  function Mix(h: bv32, b: byte): (r: bv32) {
    (h ^ (b as bv32)) * 16777619
  }

  function HashFrom(str: seq<byte>): (h: bv32)
    decreases |str|
  {
    if str == [] then 2166136261
    else Mix(HashFrom(str[..|str| - 1]), str[|str| - 1])
  }

  function StringHash(str: seq<byte>): (h: nat) {
    HashFrom(str) as nat
  }

  /** The published FNV-1a values of "", "a" and "ab". */
  lemma HashVectors()
    ensures StringHash([]) == 0x811c9dc5 && StringHash([0x61]) == 0xe40c292c && StringHash([0x61, 0x62]) == 0x4d2505ca
  {
    assert [0x61][..0] == [] && [0x61, 0x62][..1] == [0x61];
    assert HashFrom([0x61]) == 0xe40c292c;
  }

  method GetStringHash(str: seq<byte>) returns (hash: nat)
    ensures hash == StringHash(str)
  {
    hide Mix;
    var h: bv32 := 2166136261;
    var i := 0;
    while i < |str|
      invariant 0 <= i <= |str| && h == HashFrom(str[..i])
    {
      assert str[..i + 1][..i] == str[..i];
      h := Mix(h, str[i]);
      i := i + 1;
    }
    assert str[..i] == str;
    hash := h as nat;
  }

  /** Each entry has the hash of its string and a reference. */
  predicate EntryOk(slot: Slot) {
    slot.Live? ==> slot.hash == StringHash(slot.str) && slot.refCount >= 1
  }

  ghost predicate Entries(slots: seq<Slot>) {
    && (forall i: nat :: IsMember(slots, i) ==> EntryOk(slots[i]))
    && (forall i: nat, j: nat :: IsMember(slots, i) && IsMember(slots, j) && slots[i].str == slots[j].str ==> i == j)
  }

  /** The live symbols with their strings and counts. */
  function Contents(slots: seq<Slot>): (live: Live)
    ensures forall i :: i in live <==> IsMember(slots, i)
    ensures forall i :: i in live ==> IsMember(slots, i) && live[i] == Symbol(slots[i].str, slots[i].refCount)
  {
    map i: nat | 0 < i < |slots| && slots[i].Live? :: Symbol(slots[i].str, slots[i].refCount)
  }

  /** Both free lists are lists of free slots and share none. */
  predicate FreeLists(slots: seq<Slot>, freeIndex: nat, free: seq<nat>, recycleIndex: nat, recycled: seq<nat>) {
    && FreeList(slots, freeIndex, free) && FreeList(slots, recycleIndex, recycled)
    && forall i: nat :: i in free ==> i !in recycled
  }

  predicate PowerOfTwo(n: nat) {
    n == 1 || (n > 1 && n % 2 == 0 && PowerOfTwo(n / 2))
  }

  /** The indices `lo` up to `hi`. */
  function Range(lo: nat, hi: nat): (r: seq<nat>)
    requires lo <= hi
  {
    seq(hi - lo, i requires 0 <= i < hi - lo => lo + i)
  }

  /** Every slot is live or on one of the free lists. */
  ghost predicate Accounted(slots: seq<Slot>, free: seq<nat>, recycled: seq<nat>) {
    forall i: nat :: 0 < i < |slots| ==> slots[i].Live? || i in free || i in recycled
  }

  /** The lists after the first free slot is taken; a list that runs out is replaced by the recycled one. */
  predicate Taken(free: seq<nat>, recycled: seq<nat>, free': seq<nat>, recycled': seq<nat>) {
    && |free| > 0
    && if |free| == 1 then free' == recycled && recycled' == [] else free' == free[1..] && recycled' == recycled
  }

  /** Replace the reference count of a live slot. */
  function WithCount(slots: seq<Slot>, i: nat, n: nat): (r: seq<Slot>)
    requires IsMember(slots, i)
  {
    slots[i := slots[i].(refCount := n)]
  }

  lemma CountKeepsTable(slots: seq<Slot>, table: seq<nat>, chains: seq<seq<nat>>, i: nat, n: nat)
    requires IsMember(slots, i) && Holds(slots, table, chains, LiveSet(slots))
    ensures var slots' := WithCount(slots, i, n);
            LiveSet(slots') == LiveSet(slots) && Holds(slots', table, chains, LiveSet(slots'))
  {
    hide Bucket;
    var slots' := WithCount(slots, i, n);
    assert LiveSet(slots') == LiveSet(slots);
    forall j: nat | j < |table|
      ensures Chain(slots', table[j], chains[j]) && HoldsBucket(slots', |table|, chains[j], LiveSet(slots'), j)
    {
      assert Chain(slots, table[j], chains[j]) && HoldsBucket(slots, |table|, chains[j], LiveSet(slots), j);
      forall k: nat | k < |chains[j]|
        ensures ChainAt(slots', chains[j], k)
      {
        assert ChainAt(slots, chains[j], k);
      }
    }
  }

  /** Writing a slot that neither free list contains leaves both alone. */
  lemma FreeListsFrame(slots: seq<Slot>, slots': seq<Slot>, freeIndex: nat, free: seq<nat>, recycleIndex: nat, recycled: seq<nat>)
    requires FreeLists(slots, freeIndex, free, recycleIndex, recycled) && |slots'| == |slots|
    requires forall i: nat :: i < |slots| && slots[i].Free? ==> slots'[i] == slots[i]
    ensures FreeLists(slots', freeIndex, free, recycleIndex, recycled)
  {
    forall i: nat | i in free || i in recycled
      ensures i < |slots| && slots[i].Free?
    {
      if i in free {
        FreeMember(slots, freeIndex, free, i);
      } else {
        FreeMember(slots, recycleIndex, recycled, i);
      }
    }
    FreeListFrame(slots, slots', freeIndex, free);
    FreeListFrame(slots, slots', recycleIndex, recycled);
  }

  /** Take the first free slot; a list that runs out is replaced by the recycled one. */
  lemma TakeFree(slots: seq<Slot>, freeIndex: nat, free: seq<nat>, recycleIndex: nat, recycled: seq<nat>, entry: Slot)
    requires FreeLists(slots, freeIndex, free, recycleIndex, recycled) && freeIndex != 0 && entry.Live?
    ensures 0 < freeIndex < |slots| && slots[freeIndex].Free? && |free| > 0 && free[0] == freeIndex
    ensures var slots', next := slots[freeIndex := entry], slots[freeIndex].next;
            && (next == 0 <==> |free| == 1)
            && (if next == 0 then FreeLists(slots', recycleIndex, recycled, 0, [])
                else FreeLists(slots', next, free[1..], recycleIndex, recycled))
  {
    assert FreeAt(slots, free, 0);
    var slots', next := slots[freeIndex := entry], slots[freeIndex].next;
    assert freeIndex in free;
    FreeListFrame(slots, slots', recycleIndex, recycled);
    if |free| > 1 {
      assert FreeAt(slots, free, 1);
      forall k: nat | k < |free| - 1
        ensures FreeAt(slots', free[1..], k)
      {
        assert FreeAt(slots, free, k + 1) && free[1..][k] == free[k + 1];
      }
    }
  }

  /** Give a slot back to the recycle list. */
  lemma GiveBack(slots: seq<Slot>, freeIndex: nat, free: seq<nat>, recycleIndex: nat, recycled: seq<nat>, i: nat)
    requires FreeLists(slots, freeIndex, free, recycleIndex, recycled) && IsMember(slots, i)
    ensures FreeLists(slots[i := Free(recycleIndex)], freeIndex, free, i, [i] + recycled)
  {
    var slots', list' := slots[i := Free(recycleIndex)], [i] + recycled;
    FreeListsFrame(slots, slots', freeIndex, free, recycleIndex, recycled);
    if i in free {
      FreeMember(slots, freeIndex, free, i);
    }
    if i in recycled {
      FreeMember(slots, recycleIndex, recycled, i);
    }
    forall k: nat | k < |list'|
      ensures FreeAt(slots', list', k)
    {
      if k > 0 {
        assert FreeAt(slots', recycled, k - 1) && list'[k] == recycled[k - 1] && After(list', k) == After(recycled, k - 1);
      }
    }
  }

  /** Symbol `i` is reserved for the `i`-th name, counting from 1. */
  function NameOf(names: seq<seq<byte>>, i: nat): (str: seq<byte>)
    requires 0 < i <= |names|
  {
    names[i - 1]
  }

  predicate Named(live: Live, names: seq<seq<byte>>) {
    forall i: nat :: 0 < i <= |names| ==> i in live && live[i] == Symbol(NameOf(names, i), 1)
  }

  function InitialSymbols(names: seq<seq<byte>>): (live: Live) {
    map i: nat | 0 < i <= |names| :: Symbol(NameOf(names, i), 1)
  }

  /** Where a string is found in the table: its symbol, or 0. */
  predicate FoundAt(live: Live, str: seq<byte>, sym: nat) {
    if sym == 0 then forall x :: x in live ==> live[x].str != str
    else sym in live && live[sym].str == str
  }

  /** Slot 0 stands for the null symbol. */
  predicate NullEntry(slot: Slot) {
    slot.Live? && slot.refCount == 1
  }

  /** The reference counts a pool is expected to have when it is destroyed. */
  predicate Unreferenced(slots: seq<Slot>, reserved: nat) {
    forall i: nat :: i < |slots| && slots[i].Live? ==> slots[i].refCount == if i < reserved then 1 else 0
  }

  /** The tables, lists and counts of a pool are right. */
  ghost predicate Consistent(
    slots: seq<Slot>, table: seq<nat>, chains: seq<seq<nat>>, count: nat,
    freeIndex: nat, free: seq<nat>, recycleIndex: nat, recycled: seq<nat>)
  {
    && |slots| >= INITIAL_ENTRIES && NullEntry(slots[0]) && Entries(slots)
    && Holds(slots, table, chains, LiveSet(slots))
    && FreeLists(slots, freeIndex, free, recycleIndex, recycled)
    && count == |LiveSet(slots)| + 1 && PowerOfTwo(|table|)
  }

  class ConstStringPool {
    var slots: seq<Slot>
    var table: seq<nat>
    var count: nat
    var freeIndex: nat
    var recycleIndex: nat
    const names: seq<seq<byte>>

    ghost var chains: seq<seq<nat>>
    ghost var free: seq<nat>
    ghost var recycled: seq<nat>

    /** Consistent and not overloaded; holds also while the reserved symbols are being added. */
    ghost predicate Ready()
      reads this
    {
      Loaded() && count < 2 * |table|
    }

    /** As `Ready`, without the bound on the load. */
    ghost predicate Loaded()
      reads this
    {
      Consistent(slots, table, chains, count, freeIndex, free, recycleIndex, recycled)
    }

    /** Not initialised, or ready with every reserved symbol in its place. */
    ghost predicate Valid()
      reads this
    {
      if table == [] then slots == []
      else Ready() && Named(Contents(slots), names)
    }

    function Reserved(): (n: nat) {
      |names| + 1
    }

    constructor (names: seq<seq<byte>>)
      ensures this.names == names && Valid() && table == []
    {
      this.names := names;
      slots, table, count, freeIndex, recycleIndex := [], [], 0, 0, 0;
      chains, free, recycled := [], [], [];
    }

    /** The chain walk: the symbol of `str`, found in its bucket or nowhere. */
    method ProbeSymbol(str: seq<byte>) returns (sym: nat)
      requires Ready()
      ensures FoundAt(Contents(slots), str, sym)
    {
      hide HashFrom, PowerOfTwo;
      var hash := GetStringHash(str);
      var b := Bucket(hash, |table|);
      sym := table[b];
      ghost var list, k := chains[b], 0;
      assert Chain(slots, table[b], list) && HoldsBucket(slots, |table|, list, LiveSet(slots), b);
      while sym != 0
        invariant 0 <= k <= |list| && sym == (if k < |list| then list[k] else 0)
        invariant forall j: nat :: j < k ==> list[j] < |slots| && slots[list[j]].Live? && slots[list[j]].str != str
        decreases |list| - k
      {
        assert ChainAt(slots, list, k);
        var p := slots[sym];
        if p.hash == hash && p.str == str {
          return;
        }
        sym := p.hashNext;
        k := k + 1;
      }
      forall x | x in Contents(slots)
        ensures Contents(slots)[x].str != str
      {
        assert EntryOk(slots[x]) && x in LiveSet(slots);
        assert slots[x].str == str ==> x in list;
      }
    }

    /** Move every entry to a table of `newSize` buckets; only the links change. */
    method ResizeHashTbl(newSize: nat)
      requires newSize > 0 && Holds(slots, table, chains, LiveSet(slots))
      modifies `slots, `table, `chains
      ensures SameButLinks(old(slots), slots) && LiveSet(slots) == old(LiveSet(slots))
      ensures |table| == newSize && Holds(slots, table, chains, LiveSet(slots))
    {
      hide Bucket, Chain, HoldsBucket, Moved;
      ghost var s0, c0 := slots, chains;
      var size := |table|;
      var newTable: seq<nat> := seq(newSize, _ => 0);
      ghost var newChains: seq<seq<nat>> := seq(newSize, _ => []);
      EmptyTable(slots, newTable, newChains);
      MovedAll(s0, size);
      var b := 0;
      while b < size
        invariant 0 <= b <= size == |table| && table == old(table) && |newTable| == newSize && chains == c0
        invariant Rehashing(s0, slots, newTable, newChains, Moved(s0, size, b, []))
      {
        ghost var list, k := c0[b], 0;
        assert Chain(s0, table[b], list) && HoldsBucket(s0, size, list, LiveSet(s0), b);
        ChainHead(s0, table[b], list);
        assert list[..0] == [];
        var h := table[b];
        while h != 0
          invariant 0 <= k <= |list| && h == (if k < |list| then list[k] else 0)
          invariant |newTable| == newSize && table == old(table) && chains == c0
          invariant Rehashing(s0, slots, newTable, newChains, Moved(s0, size, b, list[..k]))
          decreases |list| - k
        {
          MoveEntry(s0, size, list, b, k, slots, newTable, newChains);
          var p := slots[h];
          var next := p.hashNext;
          var j := Bucket(p.hash, newSize);
          slots := slots[h := p.(hashNext := newTable[j])];
          newTable := newTable[j := h];
          newChains := newChains[j := [h] + newChains[j]];
          h := next;
          k := k + 1;
        }
        assert list[..k] == list;
        MovedBucket(s0, table, c0, b);
        b := b + 1;
      }
      table, chains := newTable, newChains;
      assert LiveSet(slots) == LiveSet(s0);
    }

    /**
     Grow the slot array by half; the new slots become the free list. The recycle list is
     dropped. `memory` says whether the allocator can provide the array.
     */
    method ResizeEntriesArray(memory: bool) returns (ok: bool)
      requires |slots| == 0 || (|slots| >= INITIAL_ENTRIES && NullEntry(slots[0]))
      requires Holds(slots, table, chains, LiveSet(slots))
      modifies `slots, `count, `freeIndex, `recycleIndex, `free, `recycled
      ensures var newSize := GrownSize(|old(slots)|);
              && ok == (newSize <= WASM_SYMBOLS_MAX && memory)
              && (if !ok then
                    slots == old(slots) && count == old(count) && freeIndex == old(freeIndex)
                    && recycleIndex == old(recycleIndex) && free == old(free) && recycled == old(recycled)
                  else
                    var start := if |old(slots)| == 0 then 1 else |old(slots)|;
                    && |slots| == newSize && NullEntry(slots[0]) && old(slots) <= slots
                    && LiveSet(slots) == old(LiveSet(slots)) && Holds(slots, table, chains, LiveSet(slots))
                    && count == old(count) + (if |old(slots)| == 0 then 1 else 0)
                    && free == Range(start, newSize) && recycled == []
                    && FreeLists(slots, freeIndex, free, recycleIndex, recycled) && freeIndex != 0)
    {
      hide Bucket, HoldsBucket;
      var size := |slots|;
      var newSize := GrownSize(size);
      if newSize > WASM_SYMBOLS_MAX || !memory {
        return false;
      }
      ghost var s0 := slots;
      var grown: seq<Slot> := slots + seq(newSize - size, _ => Free(0));
      var start := size;
      if start == 0 {
        grown := grown[0 := Live(1, 0, 0, [])];
        count := count + 1;
        start := 1;
      }
      freeIndex, recycleIndex := start, 0;
      var i := start;
      while i < newSize
        invariant start <= i <= newSize == |grown| && s0 <= grown && NullEntry(grown[0])
        invariant forall k: nat :: start <= k < newSize ==> grown[k].Free?
        invariant forall k: nat :: start <= k < i ==> grown[k] == Free(if k == newSize - 1 then 0 else k + 1)
      {
        grown := grown[i := Free(if i == newSize - 1 then 0 else i + 1)];
        i := i + 1;
      }
      slots := grown;
      free, recycled := Range(start, newSize), [];
      RangeIsFree(slots, start);
      assert LiveSet(slots) == LiveSet(s0);
      forall j: nat | j < |table|
        ensures Chain(slots, table[j], chains[j]) && HoldsBucket(slots, |table|, chains[j], LiveSet(slots), j)
      {
        ChainFrame(s0, slots, table[j], chains[j]);
        BucketFrame(s0, slots, |table|, chains[j], j);
      }
      ok := true;
    }

    /** Put a new entry in the first free slot and at the head of its chain. */
    method Insert(str: seq<byte>) returns (sym: nat)
      requires Ready() && freeIndex != 0 && FoundAt(Contents(slots), str, 0)
      modifies `slots, `table, `count, `freeIndex, `recycleIndex, `chains, `free, `recycled
      ensures Ready() && sym == old(freeIndex) && sym !in old(Contents(slots)) && |slots| == |old(slots)|
      ensures Contents(slots) == old(Contents(slots))[sym := Symbol(str, 1)]
      ensures Taken(old(free), old(recycled), free, recycled) && old(free)[0] == sym
    {
      hide Bucket, StringHash, Contents, FoundAt, Consistent;
      var hash := GetStringHash(str);
      Inserted(slots, table, chains, count, freeIndex, free, recycleIndex, recycled, str);
      var b := Bucket(hash, |table|);
      var entry := Live(1, hash, table[b], str);
      sym := freeIndex;
      freeIndex := slots[sym].next;
      if freeIndex == 0 {
        freeIndex, recycleIndex := recycleIndex, 0;
        free, recycled := recycled, [];
      } else {
        free := free[1..];
      }
      slots := slots[sym := entry];
      count := count + 1;
      table, chains := table[b := sym], chains[b := [sym] + chains[b]];
      RehashIfFull();
    }

    /** Double the table when there are two entries per bucket. */
    method RehashIfFull()
      requires Loaded() && count <= 2 * |table|
      modifies `slots, `table, `chains
      ensures Ready() && Contents(slots) == old(Contents(slots)) && |slots| == |old(slots)|
    {
      hide Bucket, Holds, FreeLists, PowerOfTwo, Entries, Contents, LiveSet, SameButLinks;
      HoldsSizes(slots, table, chains);
      var resize := |table| * 2;
      if count >= resize {
        ResizeHashTbl(resize);
        Relinked(old(slots), slots, freeIndex, free, recycleIndex, recycled);
        DoublePower(|old(table)|);
      }
    }

    /** Add a reserved name; a name that is already there is an error. */
    method NewSymbolInit(str: seq<byte>) returns (sym: nat)
      requires Ready() && freeIndex != 0
      modifies `slots, `table, `count, `freeIndex, `recycleIndex, `chains, `free, `recycled
      ensures if FoundAt(old(Contents(slots)), str, 0) then
                && Ready() && sym == old(freeIndex) && |slots| == |old(slots)|
                && Contents(slots) == old(Contents(slots))[sym := Symbol(str, 1)]
                && Taken(old(free), old(recycled), free, recycled) && old(free)[0] == sym
              else sym == 0
    {
      hide Bucket, Holds, StringHash, FreeLists, PowerOfTwo, Entries, LiveSet;
      var there := ProbeSymbol(str);
      if there != 0 {
        return 0;
      }
      sym := Insert(str);
    }

    /** Free everything. The source asserts `clean`. */
    method DestroyPool() returns (clean: bool)
      modifies this
      ensures Valid() && table == [] && clean == Unreferenced(old(slots), Reserved())
    {
      clean := true;
      var i := 0;
      while i < |slots|
        invariant 0 <= i <= |slots| && slots == old(slots) && clean == Unreferenced(slots[..i], Reserved())
      {
        if slots[i].Live? {
          clean := clean && slots[i].refCount == if i < Reserved() then 1 else 0;
        }
        i := i + 1;
      }
      assert slots[..i] == slots;
      slots, table, count, freeIndex, recycleIndex := [], [], 0, 0, 0;
      chains, free, recycled := [], [], [];
    }

    /** Set up the tables and intern the reserved names as symbols 1, 2, ...; fails if a name is repeated. */
    method InitPool(memory: bool) returns (ok: bool)
      requires Valid() && |names| < INITIAL_ENTRIES
      modifies this
      ensures Valid()
      ensures old(table) != [] ==> ok && slots == old(slots) && table == old(table)
      ensures old(table) == [] ==>
                && ok == (memory && Distinct(names)) && (ok <==> table != [])
                && (ok ==> Contents(slots) == InitialSymbols(names) && Accounted(slots, free, recycled)
                           && |slots| == INITIAL_ENTRIES && free == Range(Reserved(), INITIAL_ENTRIES) && recycled == [])
    {
      hide Bucket, Holds, StringHash, FreeLists, PowerOfTwo, Entries, LiveSet, Accounted, FoundAt;
      if table != [] {
        return true;
      }
      table, chains := seq(INITIAL_BUCKETS, _ => 0), seq(INITIAL_BUCKETS, _ => []);
      count := 0;
      StartEmpty(table, chains);
      ok := ResizeEntriesArray(memory);
      if !ok {
        var _ := DestroyPool();
        return false;
      }
      Started(slots);
      FreeHead(slots, freeIndex, free, recycleIndex, recycled);
      var i := 0;
      while i < |names|
        invariant 0 <= i <= |names| && Ready() && |slots| == INITIAL_ENTRIES
        invariant free == Range(i + 1, INITIAL_ENTRIES) && recycled == [] && freeIndex == First(free)
        invariant Contents(slots) == InitialSymbols(names[..i]) && Distinct(names[..i])
        invariant Accounted(slots, free, recycled)
      {
        NameFound(names, i);
        ghost var s1, f1, r1 := slots, free, recycled;
        var sym := NewSymbolInit(names[i]);
        if sym == 0 {
          var _ := DestroyPool();
          return false;
        }
        AccountedInsert(s1, f1, r1, slots, free, recycled, sym);
        RangeRest(i + 1, INITIAL_ENTRIES);
        FreeHead(slots, freeIndex, free, recycleIndex, recycled);
        i := i + 1;
      }
      assert names[..i] == names;
    }

    /** The symbol `str` has, with one more reference, or 0. */
    method FindAndHoldSymbol(str: seq<byte>) returns (sym: nat)
      requires Valid() && table != []
      modifies `slots
      ensures Valid() && FoundAt(old(Contents(slots)), str, sym)
      ensures Acquire(old(Contents(slots)), Reserved(), str, sym, Contents(slots))
      ensures (sym == 0 ==> slots == old(slots)) && |slots| == |old(slots)|
      ensures Accounted(slots, free, recycled) <==> old(Accounted(slots, free, recycled))
    {
      hide Bucket, Holds, StringHash, FreeLists, PowerOfTwo, Entries, LiveSet, Accounted;
      sym := ProbeSymbol(str);
      if sym != 0 && sym >= Reserved() {
        Recounted(slots, table, chains, freeIndex, free, recycleIndex, recycled, sym, slots[sym].refCount + 1);
        slots := WithCount(slots, sym, slots[sym].refCount + 1);
      }
    }

    /**
     Intern `str`: the symbol it has, with one more reference, or a new one. 0 means that the
     pool is not initialised or that the string is new and the slot array is full and cannot
     grow.

     The last clause is about lost slots: a slot that is neither live nor on a list is never
     used again. That happens exactly when the array grows while slots wait to be recycled.
     */
    method NewSymbol(str: seq<byte>, memory: bool) returns (sym: nat)
      requires Valid()
      modifies this
      ensures Valid() && Acquire(old(Contents(slots)), Reserved(), str, sym, Contents(slots))
      ensures table == [] <==> old(table) == []
      ensures sym == 0 <==>
              old(table) == []
              || (FoundAt(old(Contents(slots)), str, 0) && old(freeIndex) == 0
                  && (!memory || GrownSize(|old(slots)|) > WASM_SYMBOLS_MAX))
      ensures if sym == 0 || sym in old(Contents(slots)) then
                |slots| == |old(slots)| && free == old(free) && recycled == old(recycled)
              else if old(freeIndex) == 0 then
                && sym == |old(slots)| < |slots| == GrownSize(|old(slots)|)
                && free == Range(sym + 1, |slots|) && recycled == []
              else
                && sym == old(freeIndex) && |slots| == |old(slots)|
                && Taken(old(free), old(recycled), free, recycled)
      ensures old(Accounted(slots, free, recycled)) ==>
                (!Accounted(slots, free, recycled) <==>
                 && old(table) != [] && FoundAt(old(Contents(slots)), str, 0)
                 && old(freeIndex) == 0 && old(recycled) != []
                 && memory && GrownSize(|old(slots)|) <= WASM_SYMBOLS_MAX)
    {
      hide Bucket, Holds, StringHash, FreeLists, PowerOfTwo, Entries, LiveSet, Accounted, Range, GrownSize;
      if table == [] {
        return 0;
      }
      FreeHead(slots, freeIndex, free, recycleIndex, recycled);
      sym := FindAndHoldSymbol(str);
      if sym != 0 {
        return;
      }
      if freeIndex == 0 {
        NoneFree(slots, freeIndex, free, recycleIndex, recycled);
        var ok := ResizeEntriesArray(memory);
        if !ok {
          return 0;
        }
        Extended(old(slots), slots, old(recycled));
        RangeRest(|old(slots)|, |slots|);
      }
      ghost var s1, f1, r1 := slots, free, recycled;
      sym := Insert(str);
      AccountedInsert(s1, f1, r1, slots, free, recycled, sym);
    }

    /** Take `sym` out of its chain: its predecessor, or the bucket's head, points past it. */
    method UnlinkSymbol(sym: nat)
      requires Loaded() && IsMember(slots, sym)
      modifies `slots, `table, `chains
      ensures |slots| == |old(slots)| && slots[sym].Live?
      ensures Holds(slots[sym := Free(recycleIndex)], table, chains, old(LiveSet(slots)) - {sym})
      ensures SameButLinks(old(slots), slots) && |table| == |old(table)|
    {
      hide Bucket, FreeLists, PowerOfTwo, Entries, StringHash, Holds, HoldsBucket, LiveSet, Distinct, Chain;
      HoldsSizes(slots, table, chains);
      var b := Bucket(slots[sym].hash, |table|);
      ghost var list := chains[b];
      ghost var p := Position(slots, table, chains, sym);
      Unlink(slots, table, chains, LiveSet(slots), b, p, Free(recycleIndex));
      chains := chains[b := Without(list, p)];
      var index := table[b];
      LinkAt(slots, table[b], list, p);
      if index == sym {
        OnlyAt(list, 0, p);
        table := table[b := slots[index].hashNext];
      } else {
        ghost var q := 0;
        while true
          invariant 0 <= q < p && index == list[q]
          invariant slots == old(slots) && table == old(table) && chains == old(chains)[b := Without(list, p)]
          decreases p - q
        {
          LinkAt(slots, table[b], list, q);
          var prev := index;
          index := slots[prev].hashNext;
          q := q + 1;
          if index == sym {
            OnlyAt(list, q, p);
            slots := slots[prev := slots[prev].(hashNext := slots[index].hashNext)];
            assert slots == Rewired(old(slots), list, p);
            break;
          }
        }
      }
    }

    /** Unlink a live symbol and put its slot on the recycle list. */
    method RemoveSymbol(sym: nat)
      requires Ready() && IsMember(slots, sym)
      modifies this
      ensures Ready() && Contents(slots) == old(Contents(slots)) - {sym} && |slots| == |old(slots)|
      ensures freeIndex == old(freeIndex) && free == old(free) && recycled == [sym] + old(recycled)
      ensures old(Accounted(slots, free, recycled)) ==> Accounted(slots, free, recycled)
    {
      hide Bucket, Holds, StringHash, FreeLists, PowerOfTwo, Entries, LiveSet, Accounted, SameButLinks, Contents;
      UnlinkSymbol(sym);
      Relinked(old(slots), slots, freeIndex, free, recycleIndex, recycled);
      GiveBack(slots, freeIndex, free, recycleIndex, recycled, sym);
      Removed(slots, sym, recycleIndex, free, recycled);
      slots := slots[sym := Free(recycleIndex)];
      recycleIndex, recycled := sym, [sym] + recycled;
      count := count - 1;
    }

    /** Drop one reference; the last one frees the slot and puts it on the recycle list. */
    method FreeSymbolInternal(sym: nat)
      requires Valid() && sym >= Reserved() && (table != [] ==> sym < |slots|)
      modifies this
      ensures Valid() && Release(old(Contents(slots)), Reserved(), sym, Contents(slots))
      ensures |slots| == |old(slots)| && (table == [] <==> old(table) == [])
      ensures freeIndex == old(freeIndex) && free == old(free)
      ensures recycled ==
              if sym in old(Contents(slots)) && sym !in Contents(slots) then [sym] + old(recycled) else old(recycled)
      ensures old(Accounted(slots, free, recycled)) ==> Accounted(slots, free, recycled)
    {
      hide Bucket, Holds, StringHash, FreeLists, PowerOfTwo, Entries, LiveSet, Accounted, SameButLinks;
      if table == [] || slots[sym].Free? {
        return;
      }
      if slots[sym].refCount > 1 {
        Recounted(slots, table, chains, freeIndex, free, recycleIndex, recycled, sym, slots[sym].refCount - 1);
        slots := WithCount(slots, sym, slots[sym].refCount - 1);
        return;
      }
      RemoveSymbol(sym);
    }

    /** Reserved symbols are never freed. */
    method FreeSymbol(sym: nat)
      requires Valid() && (table != [] ==> sym < |slots|)
      modifies this
      ensures Valid() && Release(old(Contents(slots)), Reserved(), sym, Contents(slots))
      ensures |slots| == |old(slots)| && (table == [] <==> old(table) == [])
      ensures freeIndex == old(freeIndex) && free == old(free)
      ensures recycled ==
              if sym in old(Contents(slots)) && sym !in Contents(slots) then [sym] + old(recycled) else old(recycled)
      ensures old(Accounted(slots, free, recycled)) ==> Accounted(slots, free, recycled)
    {
      if sym >= Reserved() {
        FreeSymbolInternal(sym);
      }
    }

    /** The string of a live symbol; `None` for a dead one or an index out of range. */
    method DumpSymbolString(sym: nat) returns (str: Option<seq<byte>>)
      requires Valid() && 0 < sym < 0x8000_0000
      ensures str == if sym in Contents(slots) then Some(Contents(slots)[sym].str) else None
    {
      if table == [] || sym >= |slots| || slots[sym].Free? {
        return None;
      }
      return Some(slots[sym].str);
    }
  }

  /** What a client does: intern a string, or release the symbol an earlier call returned. */
  datatype Call = New(str: seq<byte>, memory: bool) | FreeResultOf(k: nat)

  /** Event `k` is a symbol the client has been given. */
  predicate Given(events: seq<Event>, k: nat) {
    k < |events| && events[k].Acquired? && events[k].sym != 0
  }

  /**
   What one call adds to the events after the first `n`. Interning adds an acquisition of its
   string, with 0 only if the pool had no memory or is `full`. Releasing adds a release of
   the symbol it names, and nothing if it names none.
   */
  predicate Adds(call: Call, events: seq<Event>, n: nat, n': nat, full: bool) {
    && n <= n' <= |events|
    && match call
       case New(str, memory) =>
         n' == n + 1 && events[n].Acquired? && events[n].str == str && (events[n].sym == 0 ==> !memory || full)
       case FreeResultOf(k) =>
         if Given(events[..n], k) then n' == n + 1 && events[n] == Released(events[k].sym) else n' == n
  }

  /** The events are those of the calls, in order and without omissions; `at[i]` counts those before call `i`. */
  ghost predicate Records(calls: seq<Call>, events: seq<Event>, at: seq<nat>, full: bool) {
    && |at| == |calls| + 1 && at[0] == 0 && at[|calls|] == |events|
    && forall i: nat :: i < |calls| ==> RecordsAt(calls, events, at, full, i)
  }

  ghost predicate RecordsAt(calls: seq<Call>, events: seq<Event>, at: seq<nat>, full: bool, i: nat)
    requires i < |calls| < |at|
  {
    Adds(calls[i], events, at[i], at[i + 1], full)
  }

  lemma RecordsMore(
    calls: seq<Call>, events: seq<Event>, at: seq<nat>, full: bool, call: Call, events': seq<Event>, full': bool)
    requires Records(calls, events, at, full) && events <= events' && (full ==> full')
    requires Adds(call, events', |events|, |events'|, full')
    ensures Records(calls + [call], events', at + [|events'|], full')
  {
    var calls', at' := calls + [call], at + [|events'|];
    forall i: nat | i < |calls'|
      ensures RecordsAt(calls', events', at', full', i)
    {
      if i < |calls| {
        assert RecordsAt(calls, events, at, full, i);
        assert events[..at[i]] == events'[..at[i]];
      }
    }
  }

  /** The slot array cannot grow, or there is none. */
  ghost predicate Full(pool: ConstStringPool)
    reads pool
  {
    pool.table == [] || GrownSize(|pool.slots|) > WASM_SYMBOLS_MAX
  }

  predicate InRange(events: seq<Event>, size: nat) {
    forall j: nat :: j < |events| && events[j].Acquired? ==> events[j].sym < size || events[j].sym == 0
  }

  /** One call: a step of the machine, or nothing. */
  method ReplayCall(pool: ConstStringPool, call: Call, events: seq<Event>) returns (events': seq<Event>)
    requires pool.Valid() && InRange(events, |pool.slots|)
    modifies pool
    ensures pool.Valid() && events <= events' && InRange(events', |pool.slots|) && (old(Full(pool)) ==> Full(pool))
    ensures Adds(call, events', |events|, |events'|, Full(pool))
    ensures if events' == events then Contents(pool.slots) == old(Contents(pool.slots))
            else Step(old(Contents(pool.slots)), pool.Reserved(), events'[|events|], Contents(pool.slots))
  {
    hide Acquire, Release, Entries, Contents, Accounted, GrownSize, Taken, FoundAt, Range, Holds, FreeLists, Named;
    events' := events;
    match call {
      case New(str, memory) =>
        var sym := pool.NewSymbol(str, memory);
        GrowsMore(old(|pool.slots|), |pool.slots|);
        AcquiredInRange(old(Contents(pool.slots)), pool.Reserved(), str, sym, pool.slots);
        events' := events + [Acquired(str, sym)];
      case FreeResultOf(k) =>
        assert events[..|events|] == events;
        if Given(events, k) {
          var sym := events[k].sym;
          pool.FreeSymbol(sym);
          events' := events + [Released(sym)];
          assert events'[..|events|] == events;
        }
    }
  }

  /**
   Any sequence of calls is a run of the machine in `Interning`, so its theorems hold of what
   the client sees: the events are those of the calls.
   */
  method Replay(pool: ConstStringPool, calls: seq<Call>)
    returns (events: seq<Event>, ghost states: seq<Live>, ghost at: seq<nat>)
    requires pool.Valid()
    modifies pool
    ensures pool.Valid() && Records(calls, events, at, Full(pool)) && Run(pool.Reserved(), states, events)
    ensures states[0] == old(Contents(pool.slots)) && Unique(states[0]) && states[|events|] == Contents(pool.slots)
    ensures forall t: nat :: t < |states| ==> Unique(states[t])
  {
    hide Step, Entries, Contents, Records, Adds, Full;
    events, states, at := [], [Contents(pool.slots)], [0];
    RecordsNone(Full(pool));
    if pool.table == [] {
      NoEntries(pool.slots);
    }
    UniqueContents(pool.slots);
    for i := 0 to |calls|
      invariant pool.Valid() && Run(pool.Reserved(), states, events) && Records(calls[..i], events, at, Full(pool))
      invariant states[0] == old(Contents(pool.slots)) && states[|events|] == Contents(pool.slots)
      invariant InRange(events, |pool.slots|)
    {
      ghost var before, full := events, Full(pool);
      events := ReplayCall(pool, calls[i], events);
      RecordsMore(calls[..i], before, at, full, calls[i], events, Full(pool));
      assert calls[..i + 1] == calls[..i] + [calls[i]];
      at := at + [|events|];
      if events != before {
        AddsOne(calls[i], before, events, Full(pool));
        RunMore(pool.Reserved(), states, before, events[|before|], Contents(pool.slots));
        states := states + [Contents(pool.slots)];
      }
    }
    assert calls[..|calls|] == calls;
    forall t: nat | t < |states|
      ensures Unique(states[t])
    {
      RunKeepsUnique(pool.Reserved(), states, events, t);
    }
  }

  lemma AddsOne(call: Call, events: seq<Event>, events': seq<Event>, full: bool)
    requires Adds(call, events', |events|, |events'|, full) && events <= events' && events' != events
    ensures |events'| == |events| + 1 && events' == events + [events'[|events|]]
  {
  }

  lemma RecordsNone(full: bool)
    ensures Records([], [], [0], full)
  {
  }

  lemma GrowsMore(size: nat, size': nat)
    requires size <= size'
    ensures GrownSize(size) <= GrownSize(size')
  {
  }

  /** A pool may be destroyed exactly when the client has released every symbol that is not reserved. */
  lemma DestroyedWhenReleased(pool: ConstStringPool)
    requires pool.Valid()
    ensures Unreferenced(pool.slots, pool.Reserved()) <==> forall x :: x in Contents(pool.slots) ==> x < pool.Reserved()
  {
    hide StringHash, Holds, LiveSet, FreeLists, PowerOfTwo;
    if pool.table != [] {
      assert forall x :: x in Contents(pool.slots) ==> EntryOk(pool.slots[x]);
    }
  }

  lemma UniqueContents(slots: seq<Slot>)
    requires Entries(slots)
    ensures Unique(Contents(slots))
  {
    hide StringHash;
    forall x | x in Contents(slots)
      ensures Contents(slots)[x].refCount >= 1
    {
      assert EntryOk(slots[x]);
    }
  }

  lemma NoEntries(slots: seq<Slot>)
    requires slots == []
    ensures Entries(slots)
  {
  }

  lemma AcquiredInRange(live: Live, reserved: nat, str: seq<byte>, sym: nat, slots: seq<Slot>)
    requires Acquire(live, reserved, str, sym, Contents(slots))
    ensures sym < |slots| || sym == 0
  {
    if sym != 0 {
      assert sym in Contents(slots);
    }
  }

  lemma RunMore(reserved: nat, states: seq<Live>, events: seq<Event>, e: Event, live: Live)
    requires Run(reserved, states, events) && Step(states[|events|], reserved, e, live)
    ensures Run(reserved, states + [live], events + [e])
  {
    hide Step;
  }

  /** A string longer than `n` bytes. */
  function Longer(n: nat): (str: seq<byte>)
    ensures |str| == n + 1
  {
    seq(n + 1, _ => 0)
  }

  /**
   A run that loses a slot, for any reserved names: fill the array, release a symbol, intern
   another string.
   */
  method LoseSlot(names: seq<seq<byte>>, longest: nat) returns (pool: ConstStringPool)
    requires Distinct(names) && |names| + 1 < INITIAL_ENTRIES && forall i :: 0 <= i < |names| ==> |names[i]| <= longest
    ensures pool.Valid() && pool.table != [] && !Accounted(pool.slots, pool.free, pool.recycled)
  {
    hide Acquire, Release, Entries, Contents, Accounted, FoundAt, Holds, FreeLists, LiveSet, PowerOfTwo, Named;
    pool := new ConstStringPool(names);
    var ok := pool.InitPool(true);
    RangeRest(|names| + 1, INITIAL_ENTRIES);
    InitialWithin(names, longest);
    var n, sym := longest, 0;
    while pool.freeIndex != 0
      invariant fresh(pool) && pool.names == names && pool.Valid() && pool.table != []
      invariant |pool.slots| == INITIAL_ENTRIES && pool.recycled == [] && Accounted(pool.slots, pool.free, [])
      invariant Within(Contents(pool.slots), n)
      invariant if sym == 0 then pool.free != [] else HeldOnce(Contents(pool.slots), |names| + 1, sym)
      decreases |pool.free|
    {
      ghost var live := Contents(pool.slots);
      sym := pool.NewSymbol(Longer(n), true);
      AcquiredLonger(live, names, n, sym, Contents(pool.slots));
      n := n + 1;
    }
    FreeHead(pool.slots, pool.freeIndex, pool.free, pool.recycleIndex, pool.recycled);
    NoneFree(pool.slots, pool.freeIndex, pool.free, pool.recycleIndex, pool.recycled);
    ghost var live := Contents(pool.slots);
    pool.FreeSymbol(sym);
    ReleasedLast(live, |names| + 1, sym, Contents(pool.slots), n);
    var _ := pool.NewSymbol(Longer(n), true);
  }

  /** No string is longer than `n`. */
  ghost predicate Within(live: Live, n: nat) {
    forall x :: x in live ==> |live[x].str| <= n
  }

  ghost predicate HeldOnce(live: Live, reserved: nat, sym: nat) {
    reserved <= sym && sym in live && live[sym].refCount == 1
  }

  lemma InitialWithin(names: seq<seq<byte>>, longest: nat)
    requires forall i :: 0 <= i < |names| ==> |names[i]| <= longest
    ensures Within(InitialSymbols(names), longest)
  {
  }

  lemma AcquiredLonger(live: Live, names: seq<seq<byte>>, n: nat, sym: nat, live': Live)
    requires Within(live, n) && Named(live, names)
    ensures FoundAt(live, Longer(n), 0)
    ensures sym != 0 && Acquire(live, |names| + 1, Longer(n), sym, live') ==>
              sym !in live && Within(live', n + 1) && HeldOnce(live', |names| + 1, sym)
  {
  }

  lemma ReleasedLast(live: Live, reserved: nat, sym: nat, live': Live, n: nat)
    requires HeldOnce(live, reserved, sym) && Release(live, reserved, sym, live') && Within(live, n)
    ensures sym in live && sym !in live' && FoundAt(live', Longer(n), 0)
  {
  }

  /** The next size of the slot array. */
  function GrownSize(size: nat): (n: nat)
    ensures n >= INITIAL_ENTRIES && (size >= 2 ==> n > size)
    ensures n > INITIAL_ENTRIES ==> n == size + size / 2
  {
    if size * 3 / 2 < INITIAL_ENTRIES then INITIAL_ENTRIES else size * 3 / 2
  }

  lemma RangeIsFree(slots: seq<Slot>, start: nat)
    requires 0 < start < |slots|
    requires forall k: nat :: start <= k < |slots| ==> slots[k] == Free(if k == |slots| - 1 then 0 else k + 1)
    ensures FreeLists(slots, start, Range(start, |slots|), 0, [])
  {
    var list := Range(start, |slots|);
    forall k: nat | k < |list|
      ensures FreeAt(slots, list, k)
    {
      assert list[k] == start + k;
    }
  }

  lemma BucketFrame(s0: seq<Slot>, slots: seq<Slot>, size: nat, list: seq<nat>, j: nat)
    requires size > 0 && s0 <= slots && LiveSet(slots) == LiveSet(s0) && HoldsBucket(s0, size, list, LiveSet(s0), j)
    ensures HoldsBucket(slots, size, list, LiveSet(slots), j)
  {
    hide Bucket;
    forall i: nat | IsMember(slots, i)
      ensures IsMember(s0, i) && slots[i] == s0[i]
    {
      assert i in LiveSet(slots);
    }
  }

  lemma InsertedEntry(slots: seq<Slot>, i: nat, entry: Slot)
    requires Entries(slots) && 0 < i < |slots| && slots[i].Free? && entry.Live? && EntryOk(entry) && entry.refCount == 1
    requires FoundAt(Contents(slots), entry.str, 0)
    ensures Entries(slots[i := entry]) && Contents(slots[i := entry]) == Contents(slots)[i := Symbol(entry.str, 1)]
    ensures i !in Contents(slots) && i !in LiveSet(slots)
    ensures LiveSet(slots[i := entry]) == LiveSet(slots) + {i} && |LiveSet(slots[i := entry])| == |LiveSet(slots)| + 1
  {
    hide EntryOk;
    var slots' := slots[i := entry];
    assert LiveSet(slots') == LiveSet(slots) + {i};
    forall j: nat, k: nat | IsMember(slots', j) && IsMember(slots', k) && slots'[j].str == slots'[k].str
      ensures j == k
    {
      assert j != i ==> j in Contents(slots);
      assert k != i ==> k in Contents(slots);
    }
    assert Contents(slots') == Contents(slots)[i := Symbol(entry.str, 1)];
  }

  /** Writing an entry for `str` in the first free slot and linking it keeps the pool consistent. */
  lemma Inserted(
    slots: seq<Slot>, table: seq<nat>, chains: seq<seq<nat>>, count: nat,
    freeIndex: nat, free: seq<nat>, recycleIndex: nat, recycled: seq<nat>, str: seq<byte>)
    requires Consistent(slots, table, chains, count, freeIndex, free, recycleIndex, recycled)
    requires freeIndex != 0 && FoundAt(Contents(slots), str, 0)
    ensures |table| == |chains| > 0 && 0 < freeIndex < |slots| && slots[freeIndex].Free? && |free| > 0 && free[0] == freeIndex
    ensures slots[freeIndex].next == 0 <==> |free| == 1
    ensures var b := Bucket(StringHash(str), |table|);
            var slots' := slots[freeIndex := Live(1, StringHash(str), table[b], str)];
            var table', chains' := table[b := freeIndex], chains[b := [freeIndex] + chains[b]];
            && freeIndex !in Contents(slots) && Contents(slots') == Contents(slots)[freeIndex := Symbol(str, 1)]
            && if |free| == 1 then Consistent(slots', table', chains', count + 1, recycleIndex, recycled, 0, [])
               else Consistent(slots', table', chains', count + 1, slots[freeIndex].next, free[1..], recycleIndex, recycled)
  {
    hide Bucket, Holds, StringHash, FreeLists, PowerOfTwo, Entries, Contents, LiveSet, FoundAt;
    HoldsSizes(slots, table, chains);
    var b := Bucket(StringHash(str), |table|);
    var entry := Live(1, StringHash(str), table[b], str);
    TakeFree(slots, freeIndex, free, recycleIndex, recycled, entry);
    InsertedEntry(slots, freeIndex, entry);
    Push(slots, table, chains, LiveSet(slots), freeIndex, entry);
  }

  lemma HoldsSizes(slots: seq<Slot>, table: seq<nat>, chains: seq<seq<nat>>)
    requires Holds(slots, table, chains, LiveSet(slots))
    ensures |table| == |chains| > 0
  {
  }

  /** Only links have changed, so the symbols and the free lists have not. */
  lemma Relinked(a: seq<Slot>, b: seq<Slot>, freeIndex: nat, free: seq<nat>, recycleIndex: nat, recycled: seq<nat>)
    requires SameButLinks(a, b) && Entries(a) && FreeLists(a, freeIndex, free, recycleIndex, recycled)
    ensures Entries(b) && Contents(b) == Contents(a) && |b| == |a| && FreeLists(b, freeIndex, free, recycleIndex, recycled)
    ensures LiveSet(b) == LiveSet(a) && (|a| > 0 && NullEntry(a[0]) ==> NullEntry(b[0]))
    ensures Accounted(b, free, recycled) <==> Accounted(a, free, recycled)
  {
    hide StringHash;
    assert LiveSet(b) == LiveSet(a);
    assert forall i: nat :: IsMember(b, i) ==> IsMember(a, i) && EntryOk(a[i]);
    assert Contents(b) == Contents(a);
    FreeListsFrame(a, b, freeIndex, free, recycleIndex, recycled);
  }

  lemma DoublePower(n: nat)
    requires PowerOfTwo(n)
    ensures PowerOfTwo(n * 2)
  {
    assert n * 2 / 2 == n;
  }

  /** Changing a count keeps the tables and the lists, and changes one symbol. */
  lemma Recounted(
    slots: seq<Slot>, table: seq<nat>, chains: seq<seq<nat>>,
    freeIndex: nat, free: seq<nat>, recycleIndex: nat, recycled: seq<nat>, i: nat, n: nat)
    requires IsMember(slots, i) && n >= 1 && Entries(slots) && Holds(slots, table, chains, LiveSet(slots))
    requires FreeLists(slots, freeIndex, free, recycleIndex, recycled)
    ensures var slots' := WithCount(slots, i, n);
            && Entries(slots') && LiveSet(slots') == LiveSet(slots) && Holds(slots', table, chains, LiveSet(slots'))
            && FreeLists(slots', freeIndex, free, recycleIndex, recycled)
            && Contents(slots') == Contents(slots)[i := Symbol(slots[i].str, n)]
            && (Accounted(slots', free, recycled) <==> Accounted(slots, free, recycled))
  {
    hide StringHash;
    var slots' := WithCount(slots, i, n);
    CountKeepsTable(slots, table, chains, i, n);
    FreeListsFrame(slots, slots', freeIndex, free, recycleIndex, recycled);
    hide Holds, LiveSet;
    assert forall j: nat :: IsMember(slots', j) ==> IsMember(slots, j) && EntryOk(slots[j]);
    assert Contents(slots') == Contents(slots)[i := Symbol(slots[i].str, n)];
  }

  lemma NoneFree(slots: seq<Slot>, freeIndex: nat, free: seq<nat>, recycleIndex: nat, recycled: seq<nat>)
    requires FreeLists(slots, freeIndex, free, recycleIndex, recycled) && freeIndex == 0
    ensures free == [] && forall i: nat :: i in recycled ==> 0 < i < |slots| && slots[i].Free?
  {
    assert |free| > 0 ==> FreeAt(slots, free, 0);
    forall i: nat | i in recycled
      ensures 0 < i < |slots| && slots[i].Free?
    {
      FreeMember(slots, recycleIndex, recycled, i);
    }
  }

  /** Growing adds no symbol; it loses the recycled slots, and only those. */
  lemma Extended(s0: seq<Slot>, slots: seq<Slot>, recycled: seq<nat>)
    requires 0 < |s0| && s0 <= slots && LiveSet(slots) == LiveSet(s0) && Entries(s0)
    requires forall i: nat :: i in recycled ==> 0 < i < |s0| && s0[i].Free?
    ensures Entries(slots) && Contents(slots) == Contents(s0)
    ensures Accounted(s0, [], recycled) ==> (Accounted(slots, Range(|s0|, |slots|), []) <==> recycled == [])
  {
    hide EntryOk;
    forall i: nat | IsMember(slots, i)
      ensures IsMember(s0, i) && slots[i] == s0[i]
    {
      assert i in LiveSet(slots);
    }
    assert Contents(slots) == Contents(s0);
    var range := Range(|s0|, |slots|);
    forall i: nat | |s0| <= i < |slots|
      ensures i in range
    {
      assert range[i - |s0|] == i;
    }
    if recycled != [] {
      assert recycled[0] in recycled && !slots[recycled[0]].Live? && recycled[0] !in range;
    }
  }

  /** Taking a slot from the free list loses none. */
  lemma AccountedInsert(
    s1: seq<Slot>, free1: seq<nat>, recycled1: seq<nat>, s2: seq<Slot>, free2: seq<nat>, recycled2: seq<nat>, sym: nat)
    requires |s1| == |s2| && Taken(free1, recycled1, free2, recycled2) && free1[0] == sym && sym in Contents(s2)
    requires forall i: nat :: i != sym ==> (i in Contents(s2) <==> i in Contents(s1))
    ensures Accounted(s1, free1, recycled1) <==> Accounted(s2, free2, recycled2)
  {
    forall i: nat | 0 < i < |s1|
      ensures (s1[i].Live? || i in free1 || i in recycled1) <==> (s2[i].Live? || i in free2 || i in recycled2)
    {
      assert i != sym ==> (IsMember(s2, i) <==> IsMember(s1, i));
      assert free1 == [sym] + free1[1..];
    }
  }

  /** Where a live symbol is in its chain. */
  lemma Position(slots: seq<Slot>, table: seq<nat>, chains: seq<seq<nat>>, sym: nat) returns (p: nat)
    requires Holds(slots, table, chains, LiveSet(slots)) && IsMember(slots, sym)
    ensures var b := Bucket(slots[sym].hash, |table|);
            p < |chains[b]| && chains[b][p] == sym && Chain(slots, table[b], chains[b]) && Distinct(chains[b])
  {
    hide Bucket;
    var b := Bucket(slots[sym].hash, |table|);
    assert Chain(slots, table[b], chains[b]) && HoldsBucket(slots, |table|, chains[b], LiveSet(slots), b);
    assert sym in LiveSet(slots) && sym in chains[b];
    p :| p < |chains[b]| && chains[b][p] == sym;
  }

  lemma LinkAt(slots: seq<Slot>, head: nat, list: seq<nat>, k: nat)
    requires Chain(slots, head, list) && k < |list|
    ensures ChainAt(slots, list, k) && head == list[0]
  {
  }

  lemma OnlyAt(list: seq<nat>, i: nat, j: nat)
    requires Distinct(list) && i < |list| && j < |list| && list[i] == list[j]
    ensures i == j
  {
  }

  /** A live slot turned free: one symbol less. */
  lemma Removed(slots: seq<Slot>, i: nat, next: nat, free: seq<nat>, recycled: seq<nat>)
    requires IsMember(slots, i) && Entries(slots)
    ensures var slots' := slots[i := Free(next)];
            && Entries(slots') && Contents(slots') == Contents(slots) - {i}
            && LiveSet(slots') == LiveSet(slots) - {i} && |LiveSet(slots')| == |LiveSet(slots)| - 1
            && (Accounted(slots, free, recycled) ==> Accounted(slots', free, [i] + recycled))
  {
    hide EntryOk;
    var slots' := slots[i := Free(next)];
    assert LiveSet(slots') == LiveSet(slots) - {i};
    assert Contents(slots') == Contents(slots) - {i};
    assert i in [i] + recycled && forall j: nat :: j in recycled ==> j in [i] + recycled;
  }

  lemma StartEmpty(table: seq<nat>, chains: seq<seq<nat>>)
    requires |table| == |chains| == INITIAL_BUCKETS
    requires forall j: nat :: j < |table| ==> table[j] == 0 && chains[j] == []
    ensures LiveSet([]) == {} && Holds([], table, chains, LiveSet([])) && PowerOfTwo(|table|)
  {
    assert PowerOfTwo(2) && PowerOfTwo(4) && PowerOfTwo(8) && PowerOfTwo(16) && PowerOfTwo(32) && PowerOfTwo(64);
    assert LiveSet([]) == {};
    EmptyTable([], table, chains);
  }

  lemma Started(slots: seq<Slot>)
    requires LiveSet(slots) == {} && |slots| > 0
    ensures Entries(slots) && Contents(slots) == InitialSymbols([]) && Accounted(slots, Range(1, |slots|), [])
  {
    assert forall i: nat :: IsMember(slots, i) ==> i in LiveSet(slots);
    var range := Range(1, |slots|);
    forall i: nat | 0 < i < |slots|
      ensures i in range
    {
      assert range[i - 1] == i;
    }
  }

  /** The next name is new exactly when the names so far and it are distinct. */
  lemma NameFound(names: seq<seq<byte>>, i: nat)
    requires i < |names| && Distinct(names[..i])
    ensures FoundAt(InitialSymbols(names[..i]), names[i], 0) <==> Distinct(names[..i + 1])
    ensures !Distinct(names[..i + 1]) ==> !Distinct(names)
    ensures InitialSymbols(names[..i])[i + 1 := Symbol(names[i], 1)] == InitialSymbols(names[..i + 1])
  {
    var live := InitialSymbols(names[..i]);
    if FoundAt(live, names[i], 0) {
      assert forall k: nat :: k < i ==> NameOf(names[..i], k + 1) == names[k] && live[k + 1].str == names[k];
    } else {
      var x :| x in live && live[x].str == names[i];
      assert names[..i + 1][x - 1] == names[..i + 1][i];
    }
    assert names[..i + 1][..i] == names[..i];
  }

  lemma RangeRest(lo: nat, hi: nat)
    requires lo < hi
    ensures Range(lo, hi)[0] == lo && Range(lo, hi)[1..] == Range(lo + 1, hi) && |Range(lo, hi)| == hi - lo
    ensures Range(hi, hi) == []
  {
  }

  lemma FreeHead(slots: seq<Slot>, freeIndex: nat, free: seq<nat>, recycleIndex: nat, recycled: seq<nat>)
    requires FreeLists(slots, freeIndex, free, recycleIndex, recycled)
    ensures freeIndex == First(free)
  {
  }

  lemma EmptyTable(slots: seq<Slot>, table: seq<nat>, chains: seq<seq<nat>>)
    requires |table| == |chains| > 0
    requires forall j: nat :: j < |table| ==> table[j] == 0 && chains[j] == []
    ensures Holds(slots, table, chains, {})
  {
  }

  lemma ChainHead(slots: seq<Slot>, head: nat, list: seq<nat>)
    requires Chain(slots, head, list)
    ensures head == First(list) && (|list| > 0 ==> head != 0) && forall k: nat :: k < |list| ==> list[k] != 0
  {
    forall k: nat | k < |list|
      ensures list[k] != 0
    {
      assert ChainAt(slots, list, k);
    }
    if |list| > 0 {
      assert list[0] != 0;
    }
  }
}
