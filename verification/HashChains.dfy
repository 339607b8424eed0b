/**
 The interning pool's storage as values: an array of slots that are live entries or links
 of a free list, and a hash table whose chains run through the entries.

 `Holds` is the invariant: each chain is a linked list without repetition that contains
 exactly the members of its bucket.
 */
module HashChains {
  import opened Basics

  datatype Slot =
    | Free(next: nat)
    | Live(refCount: nat, hash: nat, hashNext: nat, str: seq<byte>)

  /** The bucket of a hash; the table size is a power of two, so masking is the remainder. */
  function Bucket(hash: nat, size: nat): (b: nat)
    requires size > 0
    ensures b < size
  {
    hash % size
  }

  /** The list element after position `k`, 0 at the end. */
  function After(list: seq<nat>, k: nat): (i: nat) {
    if k + 1 < |list| then list[k + 1] else 0
  }

  function First(list: seq<nat>): (i: nat) {
    if list == [] then 0 else list[0]
  }

  /** Position `k` of a chain of live entries. */
  predicate ChainAt(slots: seq<Slot>, list: seq<nat>, k: nat)
    requires k < |list|
  {
    0 < list[k] < |slots| && slots[list[k]].Live? && slots[list[k]].hashNext == After(list, k)
  }

  /** `list` is the chain of live entries starting at `head`. */
  predicate Chain(slots: seq<Slot>, head: nat, list: seq<nat>) {
    && head == First(list) && Distinct(list)
    && forall k: nat :: k < |list| ==> ChainAt(slots, list, k)
  }

  /** Position `k` of a free list. */
  predicate FreeAt(slots: seq<Slot>, list: seq<nat>, k: nat)
    requires k < |list|
  {
    0 < list[k] < |slots| && slots[list[k]].Free? && slots[list[k]].next == After(list, k)
  }

  /** `list` is the free list starting at `head`. */
  predicate FreeList(slots: seq<Slot>, head: nat, list: seq<nat>) {
    && head == First(list) && Distinct(list)
    && forall k: nat :: k < |list| ==> FreeAt(slots, list, k)
  }

  predicate IsMember(slots: seq<Slot>, i: int) {
    0 < i < |slots| && slots[i].Live?
  }

  function LiveSet(slots: seq<Slot>): (s: set<nat>)
    ensures forall i :: i in s <==> IsMember(slots, i)
  {
    set i: nat | 0 < i < |slots| && slots[i].Live?
  }

  /** The members of chain `j` are the elements of `members` that hash to bucket `j`. */
  predicate HoldsBucket(slots: seq<Slot>, size: nat, list: seq<nat>, members: set<nat>, j: nat)
    requires size > 0
  {
    && (forall i: nat :: i in list ==> i in members && IsMember(slots, i) && Bucket(slots[i].hash, size) == j)
    && (forall i: nat :: i in members && IsMember(slots, i) && Bucket(slots[i].hash, size) == j ==> i in list)
  }

  predicate Holds(slots: seq<Slot>, table: seq<nat>, chains: seq<seq<nat>>, members: set<nat>) {
    && |table| == |chains| > 0
    && (forall i: nat :: i in members ==> IsMember(slots, i))
    && forall j: nat :: j < |table| ==>
         Chain(slots, table[j], chains[j]) && HoldsBucket(slots, |table|, chains[j], members, j)
  }

  lemma FreeMember(slots: seq<Slot>, head: nat, list: seq<nat>, i: nat)
    requires FreeList(slots, head, list) && i in list
    ensures 0 < i < |slots| && slots[i].Free?
  {
    var k :| 0 <= k < |list| && list[k] == i;
    assert FreeAt(slots, list, k);
  }

  /** A chain does not see changes outside it. */
  lemma ChainFrame(slots: seq<Slot>, slots': seq<Slot>, head: nat, list: seq<nat>)
    requires Chain(slots, head, list) && |slots| <= |slots'|
    requires forall i: nat :: i in list && i < |slots| ==> slots'[i] == slots[i]
    ensures Chain(slots', head, list)
  {
    forall k: nat | k < |list|
      ensures ChainAt(slots', list, k)
    {
      assert ChainAt(slots, list, k) && list[k] in list;
    }
  }

  lemma FreeListFrame(slots: seq<Slot>, slots': seq<Slot>, head: nat, list: seq<nat>)
    requires FreeList(slots, head, list) && |slots| <= |slots'|
    requires forall i: nat :: i in list && i < |slots| ==> slots'[i] == slots[i]
    ensures FreeList(slots', head, list)
  {
    forall k: nat | k < |list|
      ensures FreeAt(slots', list, k)
    {
      assert FreeAt(slots, list, k) && list[k] in list;
    }
  }

  /** Put an entry in front of its chain: `i` must not be in it yet. */
  lemma PushChain(slots: seq<Slot>, head: nat, list: seq<nat>, i: nat, entry: Slot)
    requires Chain(slots, head, list) && 0 < i < |slots| && i !in list
    requires entry.Live? && entry.hashNext == head
    ensures Chain(slots[i := entry], i, [i] + list)
  {
    var slots', list' := slots[i := entry], [i] + list;
    forall k: nat | k < |list'|
      ensures ChainAt(slots', list', k)
    {
      if k > 0 {
        assert list'[k] == list[k - 1] && list[k - 1] in list && After(list', k) == After(list, k - 1);
        assert ChainAt(slots, list, k - 1);
      }
    }
  }

  lemma Push(slots: seq<Slot>, table: seq<nat>, chains: seq<seq<nat>>, members: set<nat>, i: nat, entry: Slot)
    requires Holds(slots, table, chains, members) && 0 < i < |slots| && i !in members
    requires entry.Live? && entry.hashNext == table[Bucket(entry.hash, |table|)]
    ensures var b := Bucket(entry.hash, |table|);
            Holds(slots[i := entry], table[b := i], chains[b := [i] + chains[b]], members + {i})
  {
    hide Bucket, Chain;
    var b := Bucket(entry.hash, |table|);
    var slots', table', chains', members' := slots[i := entry], table[b := i], chains[b := [i] + chains[b]], members + {i};
    forall j: nat | j < |table|
      ensures Chain(slots', table'[j], chains'[j]) && HoldsBucket(slots', |table|, chains'[j], members', j)
    {
      assert i !in chains[j];
      assert HoldsBucket(slots', |table|, chains'[j], members', j);
      if j == b {
        PushChain(slots, table[b], chains[b], i, entry);
      } else {
        ChainFrame(slots, slots', table[j], chains[j]);
      }
    }
  }

  /** Position `p` of a chain taken out: its predecessor points past it. */
  function Rewired(slots: seq<Slot>, list: seq<nat>, p: nat): (r: seq<Slot>)
    requires p < |list| && forall i: nat :: i in list ==> IsMember(slots, i)
    ensures |r| == |slots|
    ensures forall i: nat :: i < |slots| ==>
              r[i].Live? == slots[i].Live? && (slots[i].Live? ==> r[i] == slots[i].(hashNext := r[i].hashNext))
    ensures forall i: nat :: i < |slots| && i !in list ==> r[i] == slots[i]
  {
    if p == 0 then slots
    else
      assert IsMember(slots, list[p - 1]) && IsMember(slots, list[p]);
      slots[list[p - 1] := slots[list[p - 1]].(hashNext := slots[list[p]].hashNext)]
  }

  function Without(list: seq<nat>, p: nat): (r: seq<nat>)
    requires p < |list|
  {
    list[..p] + list[p + 1..]
  }

  lemma UnlinkChain(slots: seq<Slot>, head: nat, list: seq<nat>, p: nat, freed: Slot)
    requires Chain(slots, head, list) && p < |list| && forall i: nat :: i in list ==> IsMember(slots, i)
    ensures list[p] in list
    ensures Chain(Rewired(slots, list, p)[list[p] := freed],
                  if p == 0 then slots[list[p]].hashNext else head, Without(list, p))
  {
    assert list[p] in list;
    var slots', list' := Rewired(slots, list, p)[list[p] := freed], Without(list, p);
    assert ChainAt(slots, list, p);
    forall k: nat | k < |list'|
      ensures ChainAt(slots', list', k)
    {
      hide Distinct;
      var o := if k < p then k else k + 1;
      assert ChainAt(slots, list, o) && list'[k] == list[o];
      DistinctAt(list, o, p);
      if p > 0 {
        if k == p - 1 {
          assert After(list', k) == After(list, p);
        } else {
          DistinctAt(list, o, p - 1);
          assert After(list', k) == After(list, o);
        }
      }
    }
  }

  lemma DistinctAt(list: seq<nat>, i: nat, j: nat)
    requires Distinct(list) && i < |list| && j < |list| && i != j
    ensures list[i] != list[j]
  {
  }

  /** Take position `p` of bucket `b` out of the table. */
  lemma Unlink(slots: seq<Slot>, table: seq<nat>, chains: seq<seq<nat>>, members: set<nat>, b: nat, p: nat, freed: Slot)
    requires Holds(slots, table, chains, members) && b < |table| && p < |chains[b]| && freed.Free?
    ensures var list := chains[b];
            && (forall i: nat :: i in list ==> IsMember(slots, i)) && list[p] in list
            && Holds(Rewired(slots, list, p)[list[p] := freed],
                     if p == 0 then table[b := slots[list[p]].hashNext] else table,
                     chains[b := Without(list, p)], members - {list[p]})
  {
    hide Chain, Bucket, Without;
    var list := chains[b];
    assert HoldsBucket(slots, |table|, list, members, b);
    var i := list[p];
    assert i in list;
    var slots' := Rewired(slots, list, p)[i := freed];
    var table' := if p == 0 then table[b := slots[i].hashNext] else table;
    var chains', members' := chains[b := Without(list, p)], members - {i};
    forall j: nat | j < |table|
      ensures Chain(slots', table'[j], chains'[j]) && HoldsBucket(slots', |table|, chains'[j], members', j)
    {
      assert Chain(slots, table[j], chains[j]) && HoldsBucket(slots, |table|, chains[j], members, j);
      if j == b {
        UnlinkChain(slots, table[b], list, p, freed);
        UnlinkBucket(slots, |table|, table[b], list, members, b, p, freed);
      } else {
        OtherBucket(slots, |table|, list, chains[j], members, b, p, freed, j);
        ChainFrame(slots, slots', table[j], chains[j]);
      }
    }
  }

  /** Two buckets share no entry, so the others see no change. */
  lemma OtherBucket(
    slots: seq<Slot>, size: nat, list: seq<nat>, other: seq<nat>, members: set<nat>, b: nat, p: nat, freed: Slot, j: nat)
    requires size > 0 && HoldsBucket(slots, size, list, members, b) && HoldsBucket(slots, size, other, members, j) && j != b
    requires p < |list| && freed.Free?
    ensures list[p] in list
    ensures var slots' := Rewired(slots, list, p)[list[p] := freed];
            && (forall x: nat :: x in other ==> slots'[x] == slots[x])
            && HoldsBucket(slots', size, other, members - {list[p]}, j)
  {
    hide Bucket;
    var i := list[p];
    assert i in list;
    var slots' := Rewired(slots, list, p)[i := freed];
    forall x: nat | x in other
      ensures slots'[x] == slots[x] && x != i
    {
      assert x !in list;
    }
  }

  lemma UnlinkBucket(slots: seq<Slot>, size: nat, head: nat, list: seq<nat>, members: set<nat>, b: nat, p: nat, freed: Slot)
    requires size > 0 && HoldsBucket(slots, size, list, members, b) && Chain(slots, head, list)
    requires p < |list| && freed.Free?
    ensures list[p] in list
    ensures HoldsBucket(Rewired(slots, list, p)[list[p] := freed], size, Without(list, p), members - {list[p]}, b)
  {
    hide Bucket, Without;
    var i := list[p];
    assert i in list;
    forall x: nat
      ensures x in Without(list, p) <==> x in list && x != i
    {
      WithoutMembers(list, p, x);
    }
  }

  lemma WithoutMembers(list: seq<nat>, p: nat, x: nat)
    requires p < |list| && Distinct(list)
    ensures x in Without(list, p) <==> x in list && x != list[p]
  {
    if x in list && x != list[p] {
      var k :| 0 <= k < |list| && list[k] == x;
      assert Without(list, p)[if k < p then k else k - 1] == x;
    }
    if x in Without(list, p) {
      var k :| 0 <= k < |Without(list, p)| && Without(list, p)[k] == x;
      assert list[if k < p then k else k + 1] == x;
    }
  }

  /** The same entries and free slots; only chain links may differ. */
  predicate SameButLinks(a: seq<Slot>, b: seq<Slot>) {
    && |a| == |b|
    && forall i: nat :: i < |a| ==>
         if a[i].Live? then b[i].Live? && b[i] == a[i].(hashNext := b[i].hashNext) else b[i] == a[i]
  }

  /** The members of the buckets before `b` and those of bucket `b` in `prefix`. */
  ghost function Moved(slots: seq<Slot>, size: nat, b: nat, prefix: seq<nat>): (s: set<nat>)
    requires size > 0
  {
    set i | i in LiveSet(slots) && (Bucket(slots[i].hash, size) < b || (Bucket(slots[i].hash, size) == b && i in prefix))
  }

  lemma MovedBucket(slots: seq<Slot>, table: seq<nat>, chains: seq<seq<nat>>, b: nat)
    requires Holds(slots, table, chains, LiveSet(slots)) && b < |table|
    ensures Moved(slots, |table|, b, chains[b]) == Moved(slots, |table|, b + 1, [])
  {
    hide Bucket;
    assert HoldsBucket(slots, |table|, chains[b], LiveSet(slots), b);
  }

  lemma MovedAll(slots: seq<Slot>, size: nat)
    requires size > 0
    ensures Moved(slots, size, size, []) == LiveSet(slots) && Moved(slots, size, 0, []) == {}
  {
  }

  /** During a rehash of `s0`: what has been moved is in the new table and the rest is as it was. */
  ghost predicate Rehashing(s0: seq<Slot>, slots: seq<Slot>, table: seq<nat>, chains: seq<seq<nat>>, moved: set<nat>) {
    && SameButLinks(s0, slots) && Holds(slots, table, chains, moved)
    && forall i: nat :: i < |s0| && i !in moved ==> slots[i] == s0[i]
  }

  /** One entry moved to the front of its new chain. */
  lemma MoveEntry(
    s0: seq<Slot>, size: nat, list: seq<nat>, b: nat, k: nat,
    slots: seq<Slot>, table: seq<nat>, chains: seq<seq<nat>>)
    requires size > 0 && Chain(s0, First(list), list) && HoldsBucket(s0, size, list, LiveSet(s0), b) && k < |list|
    requires Rehashing(s0, slots, table, chains, Moved(s0, size, b, list[..k]))
    ensures list[k] < |slots| && slots[list[k]] == s0[list[k]] && slots[list[k]].Live? && slots[list[k]].hashNext == After(list, k)
    ensures var i := list[k];
            var j := Bucket(slots[i].hash, |table|);
            Rehashing(s0, slots[i := slots[i].(hashNext := table[j])], table[j := i], chains[j := [i] + chains[j]],
                      Moved(s0, size, b, list[..k + 1]))
  {
    hide Bucket;
    var i, moved := list[k], Moved(s0, size, b, list[..k]);
    assert ChainAt(s0, list, k) && i in list;
    assert i !in list[..k];
    assert i !in moved && list[..k + 1] == list[..k] + [i];
    assert Moved(s0, size, b, list[..k + 1]) == moved + {i};
    var j := Bucket(slots[i].hash, |table|);
    Push(slots, table, chains, moved, i, slots[i].(hashNext := table[j]));
  }
}
