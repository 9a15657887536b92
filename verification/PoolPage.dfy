/** One pool page: fixed-size slots whose first 16 bits thread the free list while the
    slot is free, and belong to the caller while it is in use.  The packed state word
    holds the free count and the first free slot. */
module PoolPage {
  import opened Sequences


  const TERMINAL: nat := 0xFFFF

  /** A 32-byte slot as sixteen 16-bit words; word 0 is the link of a free slot. */
  type Slot = s: seq<nat> | |s| == 16 witness seq(16, _ => 0)

  // ---------------------------------------------------------------------------
  // Packing
  // ---------------------------------------------------------------------------

  function PackState(freeCount: nat, firstFree: nat): nat {
    freeCount * 0x1_0000 + firstFree
  }

  function FreeCount(state: nat): nat {
    state / 0x1_0000
  }

  function FirstFree(state: nat): nat {
    state % 0x1_0000
  }

  function MakePtr(page: nat, slot: nat): nat {
    page * 0x1_0000 + slot % 0x1_0000
  }

  function PtrPage(vp: nat): nat {
    vp / 0x1_0000
  }

  function PtrSlot(vp: nat): nat {
    vp % 0x1_0000
  }

  lemma PackingRoundTrips(a: nat, b: nat)
    requires b < 0x1_0000
    ensures FreeCount(PackState(a, b)) == a && FirstFree(PackState(a, b)) == b
    ensures PtrPage(MakePtr(a, b)) == a && PtrSlot(MakePtr(a, b)) == b
    ensures MakePtr(a, b) == 0 <==> a == 0 && b == 0
  {
  }

  // ---------------------------------------------------------------------------
  // The threaded list
  // ---------------------------------------------------------------------------

  function Start(list: seq<nat>): nat {
    if list == [] then TERMINAL else list[0]
  }

  /** The link that belongs into the i-th free slot. */
  function Link(list: seq<nat>, i: nat): nat
    requires i < |list|
  {
    Start(list[i + 1..])
  }

  /** `list` is the free list of the page: it starts at the first free slot, follows the
      links, ends in the terminal mark, repeats nothing, and is as long as the count says. */
  ghost predicate Threads(freeCount: nat, firstFree: nat, slots: seq<Slot>, list: seq<nat>) {
    && freeCount == |list|
    && firstFree == Start(list)
    && Distinct(list)
    && (forall i :: 0 <= i < |list| ==> list[i] < |slots|)
    && (forall i :: 0 <= i < |list| ==> slots[list[i]][0] == Link(list, i))
  }

  function Members(list: seq<nat>): (r: set<nat>)
    ensures forall m :: m in r <==> m in list
  {
    if list == [] then {} else {list[0]} + Members(list[1..])
  }

  lemma {:induction false} MembersCount(list: seq<nat>)
    requires Distinct(list)
    ensures |Members(list)| == |list|
  {
    if list != [] {
      MembersCount(list[1..]);
      assert list[0] !in list[1..];
    }
  }

  function Range(n: nat): (r: set<nat>)
    ensures forall s :: s in r <==> 0 <= s < n
  {
    if n == 0 then {} else Range(n - 1) + {n - 1}
  }

  lemma {:induction false} RangeSize(n: nat)
    ensures |Range(n)| == n
  {
    if n > 0 {
      RangeSize(n - 1);
    }
  }

  lemma {:induction false} SubsetSize(small: set<nat>, big: set<nat>)
    requires small <= big
    ensures |small| <= |big|
  {
    assert |big| == |small| + |big - small|;
  }

  lemma ListFits(list: seq<nat>, n: nat)
    requires Distinct(list) && forall i :: 0 <= i < |list| ==> list[i] < n
    ensures |list| <= n
  {
    MembersCount(list);
    RangeSize(n);
    SubsetSize(Members(list), Range(n));
  }

  lemma InUseLeavesRoom(list: seq<nat>, n: nat, slot: nat)
    requires Distinct(list) && forall i :: 0 <= i < |list| ==> list[i] < n
    requires slot < n && slot !in list
    ensures |list| < n
  {
    ListFits([slot] + list, n);
  }

  lemma RoomForOne(freeCount: nat, firstFree: nat, slots: seq<Slot>, list: seq<nat>, slot: nat)
    requires Threads(freeCount, firstFree, slots, list) && slot < |slots| && slot !in list
    ensures freeCount == |list| < |slots| && firstFree == Start(list)
  {
    InUseLeavesRoom(list, |slots|, slot);
  }

  lemma ThreadsHeads(freeCount: nat, firstFree: nat, slots: seq<Slot>, list: seq<nat>)
    requires Threads(freeCount, firstFree, slots, list)
    ensures freeCount == |list| && firstFree == Start(list)
  {
  }

  /** Free and in-use slots partition the page, so the packed count is exact. */
  lemma SlotsPartition(freeCount: nat, firstFree: nat, slots: seq<Slot>, list: seq<nat>)
    requires Threads(freeCount, firstFree, slots, list)
    ensures Members(list) <= Range(|slots|)
    ensures freeCount + |Range(|slots|) - Members(list)| == |slots|
  {
    MembersCount(list);
    RangeSize(|slots|);
    SubsetSize(Members(list), Range(|slots|));
    var used := Range(|slots|) - Members(list);
    assert used + Members(list) == Range(|slots|);
    assert used !! Members(list);
  }

  /** Popping the head of the list. */
  lemma PopThreads(slots: seq<Slot>, list: seq<nat>)
    requires list != [] && Threads(|list|, list[0], slots, list)
    ensures Threads(|list| - 1, slots[list[0]][0], slots, list[1..])
  {
    var rest := list[1..];
    assert slots[list[0]][0] == Link(list, 0);
    forall i | 0 <= i < |rest| ensures slots[rest[i]][0] == Link(rest, i) {
      assert slots[list[i + 1]][0] == Link(list, i + 1);
      assert rest[i + 1..] == list[i + 2..];
    }
  }

  /** Pushing a slot that is in use. */
  lemma PushThreads(slots: seq<Slot>, list: seq<nat>, slot: nat, content: Slot)
    requires Threads(|list|, Start(list), slots, list)
    requires slot < |slots| && slot !in list && content[0] == Start(list)
    ensures Threads(|list| + 1, slot, slots[slot := content], [slot] + list)
  {
    var s, l := slots[slot := content], [slot] + list;
    forall i | 0 <= i < |l| ensures s[l[i]][0] == Link(l, i) {
      if i == 0 {
        assert l[1..] == list;
      } else {
        assert slots[list[i - 1]][0] == Link(list, i - 1);
        assert l[i + 1..] == list[i..];
      }
    }
  }

  /** A slot pushed while already free closes a cycle: no list threads the page any more. */
  lemma DoubleFreeUnthreads(slots: seq<Slot>, list: seq<nat>, slot: nat, content: Slot, l: seq<nat>)
    requires Threads(|list|, Start(list), slots, list)
    requires slot in list && content[0] == Start(list)
    ensures !Threads(|list| + 1, slot, slots[slot := content], l)
  {
    var s := slots[slot := content];
    if Threads(|list| + 1, slot, s, l) {
      var k :| 0 <= k < |list| && list[k] == slot;
      assert s[l[0]][0] == Link(l, 0);
      var j := 0;
      while j < k && list[j] != slot
        invariant 0 <= j <= k
        invariant l[j + 1] == list[j]
      {
        assert s[l[j + 1]][0] == Link(l, j + 1);
        assert slots[list[j]][0] == Link(list, j);
        j := j + 1;
      }
    }
  }

  /** The count is kept in 16 bits; when it wraps to 0 the first slot gives the fault away. */
  lemma DoubleFreeWraps(slots: seq<Slot>, list: seq<nat>, slot: nat, content: Slot, l: seq<nat>)
    requires Threads(|list|, Start(list), slots, list) && |slots| <= TERMINAL
    requires slot in list && content[0] == Start(list)
    ensures !Threads((|list| + 1) % 0x1_0000, slot, slots[slot := content], l)
  {
    ListFits(list, |slots|);
    if |list| + 1 < 0x1_0000 {
      DoubleFreeUnthreads(slots, list, slot, content, l);
    }
  }

  /** Freeing leaves the page with a free list exactly when the slot was in use. */
  lemma FreeThreadsIff(slots: seq<Slot>, list: seq<nat>, slot: nat, content: Slot)
    requires Threads(|list|, Start(list), slots, list)
    requires slot < |slots| && content[0] == Start(list)
    ensures var n, s := |list| + 1, slots[slot := content];
      (exists l: seq<nat> :: Threads(n, slot, s, l)) <==> slot !in list
  {
    var n, s := |list| + 1, slots[slot := content];
    if slot !in list {
      PushThreads(slots, list, slot, content);
      assert Threads(n, slot, s, [slot] + list);
    } else {
      forall l: seq<nat> ensures !Threads(n, slot, s, l) {
        DoubleFreeUnthreads(slots, list, slot, content, l);
      }
    }
  }

  // ---------------------------------------------------------------------------
  // The page
  // ---------------------------------------------------------------------------

  class Page {
    var state: nat
    const slots: array<Slot>
    ghost var free: seq<nat>

    ghost predicate Valid()
      reads this, slots
    {
      && 1 <= slots.Length <= TERMINAL
      && Threads(FreeCount(state), FirstFree(state), slots[..], free)
    }

    ghost predicate InUse(slot: nat)
      reads this
    {
      slot < slots.Length && slot !in free
    }

    /** Threads all slots in order. */
    constructor (slotCount: nat)
      requires 1 <= slotCount <= TERMINAL
      ensures Valid() && fresh(slots) && slots.Length == slotCount
      ensures free == seq(slotCount, i => i)
    {
      var zero: Slot := seq(16, _ => 0);
      var b := new Slot[slotCount](_ => zero);
      var i := 0;
      while i < slotCount - 1
        invariant 0 <= i <= slotCount - 1
        invariant forall k :: 0 <= k < i ==> b[k][0] == k + 1
      {
        b[i] := b[i][0 := i + 1];
        i := i + 1;
      }
      b[i] := b[i][0 := TERMINAL];
      slots := b;
      state := PackState(slotCount, 0);
      free := seq(slotCount, i => i);
      new;
      PackingRoundTrips(slotCount, 0);
      forall k | 0 <= k < |free| ensures slots[..][free[k]][0] == Link(free, k) {
      }
    }

    /** Pops the first free slot; a drained page refuses.  No slot content changes. */
    method Alloc() returns (ok: bool, slot: nat)
      requires Valid()
      modifies this
      ensures Valid()
      ensures ok <==> old(free) != []
      ensures ok ==> slot == old(free)[0] && free == old(free)[1..] && InUse(slot)
      ensures !ok ==> free == old(free) && state == old(state)
    {
      var count := FreeCount(state);
      if count == 0 {
        return false, 0;
      }
      slot := FirstFree(state);
      var next := slots[slot][0];
      PopThreads(slots[..], free);
      assert next <= TERMINAL;
      PackingRoundTrips(count - 1, next);
      state := PackState(count - 1, next);
      free := free[1..];
      ok := true;
    }

    /** Pushes a slot.  Nothing checks that it is in use; if it is not, no free list is left. */
    method Free(slot: nat)
      requires Valid() && slot < slots.Length
      modifies this, slots
      ensures old(InUse(slot)) ==> Valid() && free == [slot] + old(free)
      ensures !old(InUse(slot)) ==> forall l :: !Threads(FreeCount(state), FirstFree(state), slots[..], l)
      ensures slots[..] == old(slots[..])[slot := old(slots[slot])[0 := Start(old(free))]]
    {
      hide Threads, FreeCount, FirstFree, PackState, MakePtr, PtrPage, PtrSlot, Start;
      var count, first := FreeCount(state), FirstFree(state);
      ThreadsHeads(count, first, slots[..], free);
      ghost var before, content := slots[..], slots[slot][0 := first];
      slots[slot] := slots[slot][0 := first];
      state := PackState((count + 1) % 0x1_0000, slot);
      PackingRoundTrips((count + 1) % 0x1_0000, slot);
      if slot !in free {
        RoomForOne(count, first, before, free, slot);
        PushThreads(before, free, slot, content);
        free := [slot] + free;
      } else {
        var n := (count + 1) % 0x1_0000;
        forall l ensures !Threads(n, slot, slots[..], l) {
          DoubleFreeWraps(before, free, slot, content, l);
        }
      }
    }

    /** A caller may write anything into a slot it holds, the link word included. */
    method WriteSlot(slot: nat, content: Slot)
      requires Valid() && InUse(slot)
      modifies slots
      ensures Valid()
      ensures slots[..] == old(slots[..])[slot := content]
    {
      slots[slot] := content;
    }
  }
}
