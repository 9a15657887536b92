/** Dropping a deleted file's directory entries.  The slot's entries form a singly linked
    chain through pool slots; the create entry is unlinked first, then the tombstone, each
    by one compare-and-swap on the pointer that leads to it. */
module SlotChain {
  import opened Mapper
  import opened EpochChain
  import opened Options
  import opened Sequences
  import EpochRuns
  import opened FileDeletion

  /** A directory entry in its pool slot; `next` 0 ends the chain. */
  datatype Node = Node(epoch: nat, entry: DirEntry, next: nat)

  type Pool = map<nat, Node>

  // ---------------------------------------------------------------------------
  // Chains as sequences
  // ---------------------------------------------------------------------------

  function SlotAt(ids: seq<nat>, i: nat): nat {
    if i < |ids| then ids[i] else 0
  }

  /** From `head` the pool links exactly the slots `ids`, in this order. */
  ghost predicate Links(pool: Pool, head: nat, ids: seq<nat>) {
    && Distinct(ids)
    && (forall i :: 0 <= i < |ids| ==> ids[i] != 0 && ids[i] in pool)
    && head == SlotAt(ids, 0)
    && (forall i :: 0 <= i < |ids| ==> Linked(pool, ids, i))
  }

  predicate Linked(pool: Pool, ids: seq<nat>, i: nat)
    requires i < |ids|
  {
    ids[i] in pool && pool[ids[i]].next == SlotAt(ids, i + 1)
  }

  /** The chain as the read rule sees it. */
  function View(pool: Pool, ids: seq<nat>): Slot
    requires forall i :: 0 <= i < |ids| ==> ids[i] in pool
  {
    seq(|ids|, i requires 0 <= i < |ids| => Entry(pool[ids[i]].epoch, pool[ids[i]].entry))
  }

  function Cut(ids: seq<nat>, i: nat): seq<nat>
    requires i < |ids|
  {
    ids[..i] + ids[i + 1..]
  }

  function Remove(ids: seq<nat>, x: nat): seq<nat> {
    if ids == [] then []
    else if ids[0] == x then ids[1..]
    else [ids[0]] + Remove(ids[1..], x)
  }

  lemma {:induction false} RemoveIsCut(ids: seq<nat>, i: nat)
    requires Distinct(ids) && i < |ids|
    ensures Remove(ids, ids[i]) == Cut(ids, i)
  {
    if i > 0 {
      RemoveIsCut(ids[1..], i - 1);
      assert ids[1..][i - 1] == ids[i];
      assert Cut(ids, i) == [ids[0]] + Cut(ids[1..], i - 1);
    }
  }

  lemma {:induction false} RemoveAbsent(ids: seq<nat>, x: nat)
    requires x !in ids
    ensures Remove(ids, x) == ids
  {
    if ids != [] {
      RemoveAbsent(ids[1..], x);
    }
  }

  // ---------------------------------------------------------------------------
  // Unlinking
  // ---------------------------------------------------------------------------

  function Relink(pool: Pool, vp: nat, next: nat): Pool
    requires vp in pool
  {
    pool[vp := pool[vp].(next := next)]
  }

  lemma UnlinkHead(pool: Pool, head: nat, ids: seq<nat>)
    requires Links(pool, head, ids) && ids != []
    ensures head in pool && Links(pool, pool[head].next, Cut(ids, 0))
  {
    hide Cut;
    var cut := Cut(ids, 0);
    CutSlotAt(ids, 0, 0);
    CutDistinct(ids, 0);
    assert Linked(pool, ids, 0);
    forall k | 0 <= k < |cut| ensures cut[k] != 0 && cut[k] in pool && Linked(pool, cut, k) {
      assert Linked(pool, ids, k + 1);
      CutAt(ids, 0, k);
      CutSlotAt(ids, 0, k + 1);
    }
  }

  lemma CutAt(ids: seq<nat>, i: nat, k: nat)
    requires i < |ids| && k < |ids| - 1
    ensures |Cut(ids, i)| == |ids| - 1 && Cut(ids, i)[k] == if k < i then ids[k] else ids[k + 1]
  {
  }

  lemma CutSlotAt(ids: seq<nat>, i: nat, k: nat)
    requires i < |ids|
    ensures |Cut(ids, i)| == |ids| - 1 && SlotAt(Cut(ids, i), k) == if k < i then SlotAt(ids, k) else SlotAt(ids, k + 1)
  {
  }

  lemma CutDistinct(ids: seq<nat>, i: nat)
    requires i < |ids| && Distinct(ids)
    ensures Distinct(Cut(ids, i)) && ids[i] !in Cut(ids, i)
  {
    var cut := Cut(ids, i);
    forall j, k | 0 <= j < k < |cut| ensures cut[j] != cut[k] {
      var j', k' := if j < i then j else j + 1, if k < i then k else k + 1;
      assert cut[j] == ids[j'] && cut[k] == ids[k'];
    }
    forall k | 0 <= k < |cut| ensures cut[k] != ids[i] {
      var k' := if k < i then k else k + 1;
      assert cut[k] == ids[k'];
    }
  }

  lemma UnlinkInside(pool: Pool, head: nat, ids: seq<nat>, i: nat)
    requires Links(pool, head, ids) && 0 < i < |ids|
    ensures ids[i - 1] in pool && ids[i] in pool && pool[ids[i - 1]].next == ids[i]
    ensures Links(Relink(pool, ids[i - 1], pool[ids[i]].next), head, Cut(ids, i))
  {
    hide Cut, Distinct, Relink;
    assert Linked(pool, ids, i - 1) && Linked(pool, ids, i);
    var next := pool[ids[i]].next;
    var pool' := Relink(pool, ids[i - 1], next);
    CutSlotAt(ids, i, 0);
    CutDistinct(ids, i);
    var cut := Cut(ids, i);
    forall k | 0 <= k < |cut| ensures cut[k] != 0 && cut[k] in pool' && Linked(pool', cut, k) {
      CutAt(ids, i, k);
      CutLinked(pool, ids, i, k);
    }
  }

  lemma CutLinked(pool: Pool, ids: seq<nat>, i: nat, k: nat)
    requires Distinct(ids) && 0 < i < |ids| && k < |ids| - 1 && (forall m :: 0 <= m < |ids| ==> Linked(pool, ids, m))
    ensures ids[i - 1] in pool && ids[i] in pool
    ensures Linked(Relink(pool, ids[i - 1], pool[ids[i]].next), Cut(ids, i), k)
  {
    hide Cut, Distinct, Relink;
    assert Linked(pool, ids, i - 1) && Linked(pool, ids, i);
    CutAt(ids, i, k);
    CutSlotAt(ids, i, k + 1);
    var m := if k < i then k else k + 1;
    assert Linked(pool, ids, m);
    RelinkAt(pool, ids[i - 1], pool[ids[i]].next, ids[m]);
    if k != i - 1 {
      DistinctAt(ids, m, i - 1);
    }
  }

  lemma RelinkAt(pool: Pool, vp: nat, next: nat, o: nat)
    requires vp in pool && o in pool
    ensures o in Relink(pool, vp, next)
    ensures Relink(pool, vp, next)[o].next == if o == vp then next else pool[o].next
  {
  }

  lemma DistinctAt(ids: seq<nat>, i: nat, j: nat)
    requires Distinct(ids) && i < |ids| && j < |ids| && i != j
    ensures ids[i] != ids[j]
  {
  }

  /** Writing to a slot that is no longer linked leaves the chain as it is. */
  lemma RelinkElsewhere(pool: Pool, head: nat, ids: seq<nat>, vp: nat, next: nat)
    requires Links(pool, head, ids) && vp in pool && vp !in ids
    ensures Links(Relink(pool, vp, next), head, ids)
  {
    forall k | 0 <= k < |ids| ensures Linked(Relink(pool, vp, next), ids, k) {
      assert Linked(pool, ids, k);
    }
  }

  /** The create entry sits directly in front of the tombstone. */
  predicate Adjacent(ids: seq<nat>, create: nat, tomb: nat) {
    exists i :: 0 < i < |ids| && ids[i - 1] == create && ids[i] == tomb
  }

  /** What is linked after both swaps. */
  function Dropped(ids: seq<nat>, create: nat, tomb: nat): seq<nat> {
    if tomb !in ids then ids
    else if Adjacent(ids, create, tomb) then Remove(ids, create)
    else Remove(Remove(ids, create), tomb)
  }

  /** The file is seen from one of the reference points. */
  predicate Seen(ms: seq<Mapping>, view: Slot, refs: seq<nat>, file: nat) {
    file != 0 && exists i :: 0 <= i < |refs| && Visible(ms, Some(view), refs[i], file)
  }

  /** That is: from some reference point the chain reads a named entry for the file. */
  lemma SeenIff(ms: seq<Mapping>, view: Slot, refs: seq<nat>, file: nat)
    ensures Seen(ms, view, refs, file) <==>
      file != 0 && exists r, name :: r in refs && name > 0 && Read(ms, view, r) == Some(DirEntry(name, file))
  {
    hide Visible, Read;
    forall r ensures Visible(ms, Some(view), r, file) <==>
      exists name :: name > 0 && Read(ms, view, r) == Some(DirEntry(name, file)) {
      VisibleIff(ms, Some(view), r, file);
    }
    if Seen(ms, view, refs, file) {
      var i :| 0 <= i < |refs| && Visible(ms, Some(view), refs[i], file);
      var name :| name > 0 && Read(ms, view, refs[i]) == Some(DirEntry(name, file));
      assert refs[i] in refs;
    }
    if r, name :| file != 0 && r in refs && name > 0 && Read(ms, view, r) == Some(DirEntry(name, file)) {
      var i :| 0 <= i < |refs| && refs[i] == r;
      assert Visible(ms, Some(view), refs[i], file);
    }
  }

  /** A named entry leading to the file, as opposed to a tombstone. */
  predicate Names(e: DirEntry, file: nat) {
    e.name != 0 && e.child == file
  }

  predicate FirstNamed(view: Slot, file: nat, i: nat) {
    i < |view| && Names(view[i].value, file) && forall j :: 0 <= j < i ==> !Names(view[j].value, file)
  }

  lemma DroppedByPosition(ids: seq<nat>, create: nat, tomb: nat, i: nat, c: nat, removed: bool)
    requires Distinct(ids) && i < |ids| && ids[i] == tomb
    requires removed == (create != tomb && create in ids)
    requires removed ==> c < |ids| && ids[c] == create
    ensures Dropped(ids, create, tomb) ==
      if !removed then Cut(ids, i)
      else if c + 1 == i then Cut(ids, c)
      else Remove(Cut(ids, c), tomb)
  {
    hide Cut, Remove;
    if removed {
      RemoveIsCut(ids, c);
      if Adjacent(ids, create, tomb) {
        var j :| 0 < j < |ids| && ids[j - 1] == create && ids[j] == tomb;
        assert j == i;
      }
    } else {
      RemoveIsCut(ids, i);
      CutDistinct(ids, i);
      if create == tomb {
        RemoveAbsent(Cut(ids, i), tomb);
      } else {
        RemoveAbsent(ids, create);
      }
    }
  }

  class DirSlot {
    var head: nat
    var pool: Pool
    ghost var order: seq<nat>

    ghost predicate Valid()
      reads this
    {
      Links(pool, head, order)
    }

    /** Follows the links to the first entry a reader at `r` may take. */
    method PickSlot(ms: seq<Mapping>, r: nat) returns (vp: nat)
      requires Valid()
      ensures vp == SlotAt(order, Pick(ms, View(pool, order), r))
    {
      hide Applicable, Distinct;
      var cur := head;
      ghost var k, view := 0, View(pool, order);
      while cur != 0 && cur in pool
        invariant k <= |order| && cur == SlotAt(order, k)
        invariant forall i :: 0 <= i < k ==> !Applicable(ms, view[i].epoch, r)
        decreases |order| - k
      {
        assert Linked(pool, order, k) && view[k].epoch == pool[cur].epoch;
        if Applicable(ms, pool[cur].epoch, r) {
          return cur;
        }
        cur := pool[cur].next;
        k := k + 1;
      }
      return 0;
    }

    method SeesFile(ms: seq<Mapping>, r: nat, file: nat) returns (seen: bool)
      requires Valid()
      ensures seen <==> Visible(ms, Some(View(pool, order)), r, file)
    {
      hide Applicable, Distinct, Linked;
      var vp := PickSlot(ms, r);
      if vp == 0 {
        return false;
      }
      return pool[vp].entry.name != 0 && pool[vp].entry.child == file;
    }

    /** The first live entry for the file, 0 if none. */
    method FindCreate(file: nat) returns (create: nat)
      requires Valid()
      ensures create != 0 ==>
        exists i :: 0 <= i < |order| && order[i] == create && FirstNamed(View(pool, order), file, i)
      ensures create == 0 ==> forall i :: 0 <= i < |order| ==> !Names(View(pool, order)[i].value, file)
    {
      hide Distinct;
      var cur := head;
      ghost var k, view := 0, View(pool, order);
      while cur != 0 && cur in pool
        invariant k <= |order| && cur == SlotAt(order, k)
        invariant forall i :: 0 <= i < k ==> !Names(view[i].value, file)
        decreases |order| - k
      {
        assert Linked(pool, order, k) && view[k].value == pool[cur].entry;
        if Names(pool[cur].entry, file) {
          assert FirstNamed(view, file, k);
          return cur;
        }
        cur := pool[cur].next;
        k := k + 1;
      }
      return 0;
    }

    /** The slot whose next pointer is `target`, searched from the slot at `from`. */
    method FindPredecessor(start: nat, target: nat, ghost from: nat) returns (pred: nat)
      requires Valid() && target != 0 && start == SlotAt(order, from) && from <= |order|
      ensures pred == 0 ==> forall i :: from < i < |order| ==> order[i] != target
      ensures pred != 0 ==> exists i :: from < i < |order| && order[i] == target && order[i - 1] == pred
    {
      var cur := start;
      ghost var k := from;
      while cur != 0 && cur in pool
        invariant from <= k <= |order| && cur == SlotAt(order, k)
        invariant forall i :: from < i <= k && i < |order| ==> order[i] != target
        decreases |order| - k
      {
        assert Linked(pool, order, k);
        if pool[cur].next == target {
          assert order[k + 1] == target;
          return cur;
        }
        cur := pool[cur].next;
        k := k + 1;
      }
      return 0;
    }

    /** Swaps the slot's head pointer if it is still `expected`. */
    method SwapHead(expected: nat, desired: nat) returns (ok: bool)
      modifies this`head
      ensures ok == (old(head) == expected) && head == if ok then desired else old(head)
    {
      ok := head == expected;
      if ok {
        head := desired;
      }
    }

    /** Swaps the next pointer of slot `vp` if it is still `expected`. */
    method SwapNext(vp: nat, expected: nat, desired: nat) returns (ok: bool)
      requires vp in pool
      modifies this`pool
      ensures ok == (old(pool)[vp].next == expected)
      ensures pool == if ok then Relink(old(pool), vp, desired) else old(pool)
    {
      ok := pool[vp].next == expected;
      if ok {
        pool := Relink(pool, vp, desired);
      }
    }

    /** The pointer leading to `vp`: 0 is the head pointer, and also the answer when `vp`
        is not linked. */
    method Locate(vp: nat) returns (pred: nat)
      requires Valid() && vp != 0
      ensures pred != 0 ==> exists i :: 0 < i < |order| && order[i] == vp && order[i - 1] == pred
      ensures pred == 0 ==> vp !in order || order[0] == vp
    {
      if head == vp {
        return 0;
      }
      pred := FindPredecessor(head, vp, 0);
    }

    /** One swap on the pointer found by `Locate`. */
    method Unlink(vp: nat, pred: nat, next: nat) returns (ok: bool)
      requires Valid() && vp != 0 && (vp in order ==> next == pool[vp].next)
      requires pred != 0 ==> exists i :: 0 < i < |order| && order[i] == vp && order[i - 1] == pred
      requires pred == 0 ==> vp !in order || order[0] == vp
      modifies this
      ensures Valid() && ok == (vp in old(order)) && order == Remove(old(order), vp)
      ensures pool == if pred == 0 then old(pool) else Relink(old(pool), pred, next)
    {
      hide Cut, Remove, Relink, Distinct;
      if pred == 0 {
        if vp in order {
          UnlinkHead(pool, head, order);
          RemoveIsCut(order, 0);
        } else {
          RemoveAbsent(order, vp);
        }
        ok := SwapHead(vp, next);
      } else {
        ghost var i :| 0 < i < |order| && order[i] == vp && order[i - 1] == pred;
        UnlinkInside(pool, head, order, i);
        RemoveIsCut(order, i);
        ok := SwapNext(pred, vp, next);
      }
      order := Remove(order, vp);
    }

    /** Unlinks the create entry, unless there is none or it is the tombstone itself. */
    method DropCreate(create: nat, tomb: nat) returns (removed: bool, next: nat)
      requires Valid()
      modifies this
      ensures Valid() && SameNodes(pool, old(pool))
      ensures order == if create != tomb then Remove(old(order), create) else old(order)
      ensures removed == (create != tomb && create in old(order))
      ensures removed ==> create in pool && pool[create] == old(pool)[create] && next == pool[create].next
    {
      hide Cut, Remove, Distinct;
      removed, next := false, 0;
      if create == 0 || create == tomb {
        if create == 0 {
          RemoveAbsent(order, create);
        }
        return;
      }
      var pred := Locate(create);
      if create in pool {
        next := pool[create].next;
      }
      assert pred != create by { PredecessorDiffers(order, create, pred); }
      removed := Unlink(create, pred, next);
    }

    /** Unlinks the tombstone through the predecessor found before the create entry went.
        `i` and `c` are where the two were. */
    method DropTombstone(create: nat, tomb: nat, pred: nat, removed: bool, createNext: nat,
                         ghost before: seq<nat>, ghost i: nat, ghost c: nat)
      requires Valid() && Distinct(before) && 0 !in before && i < |before| && before[i] == tomb && tomb != 0
      requires pred == (if i == 0 then 0 else before[i - 1]) && (pred != 0 ==> pred in pool)
      requires !removed ==> order == before
      requires removed ==> c < |before| && c != i && before[c] == create && order == Cut(before, c)
      requires removed ==> createNext == SlotAt(before, c + 1) && create in pool && pool[create].next == createNext
      modifies this
      ensures Valid() && SameNodes(pool, old(pool))
      ensures removed && c + 1 == i ==> order == old(order)
      ensures !(removed && c + 1 == i) ==>
        TombIndex(removed, i, c) < old(|order|) && order == Cut(old(order), TombIndex(removed, i, c))
    {
      hide Cut, Relink, Distinct;
      var next := 0;
      if tomb in pool {
        next := pool[tomb].next;
      }
      ghost var k := TombIndex(removed, i, c);
      if removed {
        CutAt(before, c, k);
        CutSlotAt(before, c, c);
        if k > 0 {
          CutAt(before, c, k - 1);
        }
      }
      assert order[k] == tomb;
      var p := pred;
      if pred == 0 && removed {
        p := FindPredecessor(createNext, tomb, c);
        assert p == 0 by { NotAgain(order, tomb, c); }
      }
      if p == 0 {
        UnlinkHead(pool, head, order);
        var _ := SwapHead(tomb, next);
        order := Cut(order, k);
      } else {
        if removed && c + 1 == i {
          assert p == create && create !in order by { CutDistinct(before, c); }
          RelinkElsewhere(pool, head, order, p, next);
        } else {
          assert p == order[k - 1];
          UnlinkInside(pool, head, order, k);
        }
        var _ := SwapNext(p, tomb, next);
        SameAfterRelink(old(pool), p, next);
        if !(removed && c + 1 == i) {
          order := Cut(order, k);
        }
      }
    }

    /** 1: nothing done, because the file is seen again or the tombstone is gone already;
        0: the entries were dropped; -1: no tombstone was given. */
    method Drop(ms: seq<Mapping>, refs: seq<nat>, file: nat, create: nat, tomb: nat) returns (rc: int)
      requires Valid()
      modifies this
      ensures Valid() && SameNodes(pool, old(pool))
      ensures tomb == 0 ==> rc == -1 && unchanged(this)
      ensures tomb != 0 && (Seen(ms, View(old(pool), old(order)), refs, file) || tomb !in old(order)) ==>
        rc == 1 && unchanged(this)
      ensures tomb != 0 && !Seen(ms, View(old(pool), old(order)), refs, file) && tomb in old(order) ==>
        rc == 0 && order == Dropped(old(order), create, tomb)
    {
      hide Visible, View, Dropped, Distinct, Linked, Seen;
      if tomb == 0 {
        return -1;
      }
      var seen := SeenAgain(ms, refs, file);
      if seen {
        return 1;
      }
      var pred := Locate(tomb);
      if pred == 0 && head != tomb {
        return 1;
      }
      ghost var i :| 0 <= i < |order| && order[i] == tomb && pred == (if i == 0 then 0 else order[i - 1]);
      DropBoth(create, tomb, pred, i);
      return 0;
    }

    /** The check made again just before dropping. */
    method SeenAgain(ms: seq<Mapping>, refs: seq<nat>, file: nat) returns (seen: bool)
      requires Valid()
      ensures seen <==> Seen(ms, View(pool, order), refs, file)
    {
      hide Visible, View, Distinct, Linked;
      if file == 0 {
        return false;
      }
      for k := 0 to |refs|
        invariant forall i :: 0 <= i < k ==> !Visible(ms, Some(View(pool, order)), refs[i], file)
      {
        seen := SeesFile(ms, refs[k], file);
        if seen {
          return;
        }
      }
      return false;
    }

    method DropBoth(create: nat, tomb: nat, pred: nat, ghost i: nat)
      requires Valid() && tomb != 0 && i < |order| && order[i] == tomb && pred == (if i == 0 then 0 else order[i - 1])
      modifies this
      ensures Valid() && SameNodes(pool, old(pool)) && order == Dropped(old(order), create, tomb)
    {
      hide Dropped, Distinct, Cut, Remove;
      ghost var before, c := order, 0;
      if create in order {
        c :| 0 <= c < |order| && order[c] == create;
        assert Linked(pool, order, c);
      }
      var removed, next := DropCreate(create, tomb);
      DroppedByPosition(before, create, tomb, i, c, removed);
      ghost var mid := order;
      if removed {
        RemoveIsCut(before, c);
      } else if create != tomb {
        RemoveAbsent(before, create);
      }
      DropTombstone(create, tomb, pred, removed, next, before, i, c);
      if !(removed && c + 1 == i) {
        TombIndexIs(before, tomb, mid, removed, i, c);
        RemoveIsCut(mid, TombIndex(removed, i, c));
      }
    }
  }

  lemma TombIndexIs(before: seq<nat>, tomb: nat, mid: seq<nat>, removed: bool, i: nat, c: nat)
    requires Distinct(before) && i < |before| && before[i] == tomb
    requires if removed then c < |before| && c != i && mid == Cut(before, c) else mid == before
    ensures TombIndex(removed, i, c) < |mid| && mid[TombIndex(removed, i, c)] == tomb && Distinct(mid)
  {
    hide Cut;
    if removed {
      CutAt(before, c, TombIndex(removed, i, c));
      CutDistinct(before, c);
    }
  }

  /** Where the tombstone is once the create entry is gone. */
  ghost function TombIndex(removed: bool, i: nat, c: nat): nat {
    if removed && c < i then i - 1 else i
  }

  lemma NotAgain(ids: seq<nat>, x: nat, c: nat)
    requires Distinct(ids) && ids != [] && ids[0] == x
    ensures forall j :: c < j < |ids| ==> ids[j] != x
  {
  }

  lemma SameAfterRelink(pool: Pool, vp: nat, next: nat)
    requires vp in pool
    ensures SameNodes(Relink(pool, vp, next), pool)
  {
  }

  /** Nothing but next pointers differs. */
  ghost predicate SameNodes(p: Pool, q: Pool) {
    p.Keys == q.Keys && forall o :: o in p ==> p[o].epoch == q[o].epoch && p[o].entry == q[o].entry
  }

  lemma PredecessorDiffers(ids: seq<nat>, x: nat, pred: nat)
    requires Distinct(ids) && x != 0
    requires pred != 0 ==> exists i :: 0 < i < |ids| && ids[i] == x && ids[i - 1] == pred
    ensures pred != x
  {
  }

  // ---------------------------------------------------------------------------
  // What readers see
  // ---------------------------------------------------------------------------

  /** Both entries go unless the create entry sits directly in front of the tombstone; then
      the second swap hits the slot already unlinked and the tombstone stays. */
  lemma DropsBothIff(ids: seq<nat>, create: nat, tomb: nat)
    requires Distinct(ids) && tomb in ids && create in ids && create != tomb
    ensures create !in Dropped(ids, create, tomb)
    ensures tomb !in Dropped(ids, create, tomb) <==> !Adjacent(ids, create, tomb)
  {
    hide Cut, Remove;
    var i :| 0 <= i < |ids| && ids[i] == tomb;
    var c :| 0 <= c < |ids| && ids[c] == create;
    RemoveIsCut(ids, c);
    CutDistinct(ids, c);
    var mid, k := Cut(ids, c), TombIndex(true, i, c);
    TombIndexIs(ids, tomb, mid, true, i, c);
    RemoveIsCut(mid, k);
    CutDistinct(mid, k);
    CutSubset(mid, k);
  }

  /** The slots the caller gives back to the pool once a drop has reported success. */
  function Freed(create: nat, tomb: nat): set<nat> {
    if create != 0 && create != tomb then {tomb, create} else {tomb}
  }

  /** No slot given back is still linked, exactly when the create entry is not directly in
      front of the tombstone. */
  lemma FreedAreUnlinkedIff(ids: seq<nat>, create: nat, tomb: nat)
    requires Distinct(ids) && 0 !in ids && tomb in ids
    ensures (forall x :: x in Freed(create, tomb) ==> x !in Dropped(ids, create, tomb)) <==>
      !Adjacent(ids, create, tomb)
  {
    hide Remove;
    if create in ids && create != tomb {
      hide Dropped;
      DropsBothIff(ids, create, tomb);
    } else {
      NotAdjacent(ids, create, tomb);
      if create == tomb {
        RemoveKeeps(ids, tomb);
        RemoveAbsent(Remove(ids, tomb), tomb);
      } else {
        RemoveAbsent(ids, create);
        RemoveKeeps(ids, tomb);
      }
    }
  }

  lemma NotAdjacent(ids: seq<nat>, create: nat, tomb: nat)
    requires Distinct(ids) && (create !in ids || create == tomb)
    ensures !Adjacent(ids, create, tomb)
  {
  }

  lemma CutSubset(ids: seq<nat>, i: nat)
    requires i < |ids|
    ensures forall x :: x in Cut(ids, i) ==> x in ids
  {
  }

  /** The tombstone is prepended, so it comes first and both entries go, the rest in order. */
  lemma TombstoneFirst(ids: seq<nat>, t: nat, c: nat)
    requires Distinct(ids) && t < c < |ids|
    ensures Dropped(ids, ids[c], ids[t]) == ids[..t] + ids[t + 1..c] + ids[c + 1..]
  {
    hide *;
    IndexDiffers(ids, t, c);
    DroppedByPosition(ids, ids[c], ids[t], t, c, true);
    FirstIndexIs(ids, t, c);
    RemoveIsCut(Cut(ids, c), t);
    CutTwice(ids, t, c);
  }

  lemma IndexDiffers(ids: seq<nat>, t: nat, c: nat)
    requires Distinct(ids) && t < c < |ids|
    ensures ids[c] != ids[t] && ids[c] in ids
  {
  }

  lemma FirstIndexIs(ids: seq<nat>, t: nat, c: nat)
    requires Distinct(ids) && t < c < |ids|
    ensures Distinct(Cut(ids, c)) && t < |Cut(ids, c)| && Cut(ids, c)[t] == ids[t]
  {
    hide Cut;
    CutDistinct(ids, c);
    CutAt(ids, c, t);
  }

  lemma CutTwice(ids: seq<nat>, t: nat, c: nat)
    requires t < c < |ids|
    ensures |Cut(ids, c)| == |ids| - 1
    ensures Cut(Cut(ids, c), t) == ids[..t] + ids[t + 1..c] + ids[c + 1..]
  {
    SliceConcat(ids[..c], ids[c + 1..], t);
    assert ids[..c][..t] == ids[..t];
    assert ids[..c][t + 1..] == ids[t + 1..c];
    assert ids[..t] + (ids[t + 1..c] + ids[c + 1..]) == ids[..t] + ids[t + 1..c] + ids[c + 1..];
  }

  lemma SliceConcat(a: seq<nat>, b: seq<nat>, t: nat)
    requires t < |a|
    ensures (a + b)[..t] == a[..t] && (a + b)[t + 1..] == a[t + 1..] + b
  {
  }

  /** If the create entry is the file's only named one, the file is hidden from every epoch
      after the first swap and after the second. */
  lemma HiddenAfterEachSwap(pool: Pool, head: nat, ids: seq<nat>, create: nat, tomb: nat, file: nat,
                            ms: seq<Mapping>, r: nat)
    requires Links(pool, head, ids)
    requires forall i :: 0 <= i < |ids| && Names(pool[ids[i]].entry, file) ==> ids[i] == create
    ensures InPool(pool, Remove(ids, create)) && !Visible(ms, Some(View(pool, Remove(ids, create))), r, file)
    ensures InPool(pool, Dropped(ids, create, tomb))
    ensures tomb in ids ==> !Visible(ms, Some(View(pool, Dropped(ids, create, tomb))), r, file)
  {
    hide Visible, Remove, Linked;
    var mid := Remove(ids, create);
    RemoveKeeps(ids, create);
    RemoveKeeps(mid, tomb);
    Unnamed(pool, ids, mid, create, file, ms, r);
    if tomb in ids {
      Unnamed(pool, ids, Dropped(ids, create, tomb), create, file, ms, r);
    }
  }

  predicate InPool(pool: Pool, ids: seq<nat>) {
    forall i :: 0 <= i < |ids| ==> ids[i] in pool
  }

  lemma {:induction false} RemoveKeeps(ids: seq<nat>, x: nat)
    requires Distinct(ids)
    ensures Distinct(Remove(ids, x)) && x !in Remove(ids, x)
    ensures forall y :: y in Remove(ids, x) ==> y in ids
  {
    hide Cut, Remove;
    if x in ids {
      var i :| 0 <= i < |ids| && ids[i] == x;
      RemoveIsCut(ids, i);
      CutDistinct(ids, i);
      CutSubset(ids, i);
    } else {
      RemoveAbsent(ids, x);
    }
  }

  lemma Unnamed(pool: Pool, ids: seq<nat>, rest: seq<nat>, create: nat, file: nat, ms: seq<Mapping>, r: nat)
    requires InPool(pool, ids) && forall i :: 0 <= i < |ids| && Names(pool[ids[i]].entry, file) ==> ids[i] == create
    requires create !in rest && forall x :: x in rest ==> x in ids
    ensures InPool(pool, rest) && !Visible(ms, Some(View(pool, rest)), r, file)
  {
    forall i | 0 <= i < |rest| ensures rest[i] in pool && !Names(pool[rest[i]].entry, file) {
      assert rest[i] in rest;
      var j :| 0 <= j < |ids| && ids[j] == rest[i];
    }
    assert forall i :: 0 <= i < |rest| ==> !Names(View(pool, rest)[i].value, file);
  }

  /** Nothing in front of entry `i` is readable at that entry's own effective epoch. */
  predicate Exposed(ms: seq<Mapping>, slot: Slot, i: nat)
    requires i < |slot|
  {
    forall j :: 0 <= j < i ==> !Applicable(ms, slot[j].epoch, Effective(ms, slot[i].epoch))
  }

  ghost predicate NamedAndExposed(ms: seq<Mapping>, slot: Slot, file: nat) {
    exists i :: 0 <= i < |slot| && Names(slot[i].value, file) && Exposed(ms, slot, i)
  }

  /** Whatever the mapper and the order of the chain: the file is visible from some epoch
      exactly when one of its named entries is exposed. */
  lemma VisibleSomewhereIff(ms: seq<Mapping>, slot: Slot, file: nat)
    ensures (exists r :: Visible(ms, Some(slot), r, file)) <==> NamedAndExposed(ms, slot, file)
  {
    hide Effective;
    if r :| Visible(ms, Some(slot), r, file) {
      var i := Pick(ms, slot, r);
      forall j | 0 <= j < i ensures !Applicable(ms, slot[j].epoch, Effective(ms, slot[i].epoch)) {
        assert !Applicable(ms, slot[j].epoch, r);
      }
      assert Exposed(ms, slot, i);
    }
    if i :| 0 <= i < |slot| && Names(slot[i].value, file) && Exposed(ms, slot, i) {
      var r := Effective(ms, slot[i].epoch);
      assert Pick(ms, slot, r) == i;
      assert Visible(ms, Some(slot), r, file);
    }
  }

  /** In a chain that is in order, that is being the first entry of its effective epoch. */
  lemma ExposedInOrder(v: Volume<DirEntry>, i: nat)
    requires v.Ordered() && i < |v.chain|
    ensures Exposed(v.mapper, v.chain, i) <==> forall j :: 0 <= j < i ==> v.Eff(j) != v.Eff(i)
  {
    forall j | 0 <= j < i ensures Applicable(v.mapper, v.chain[j].epoch, v.Eff(i)) <==> v.Eff(j) == v.Eff(i) {
      assert IsEven(v.Eff(j)) ==> v.Eff(i) <= v.Eff(j);
    }
  }

  // ---------------------------------------------------------------------------
  // What the drop does to one reader
  // ---------------------------------------------------------------------------

  function Without(slot: Slot, i: nat): Slot
    requires i < |slot|
  {
    slot[..i] + slot[i + 1..]
  }

  /** Taking one entry out moves the pick only if that entry was picked; then the reader
      goes on to what lies behind it. */
  lemma PickWithout(ms: seq<Mapping>, slot: Slot, i: nat, r: nat)
    requires i < |slot|
    ensures var p := Pick(ms, slot, r);
      Pick(ms, Without(slot, i), r) ==
        if p < i then p else if p > i then p - 1 else i + Pick(ms, slot[i + 1..], r)
  {
    hide Applicable;
    var p, rest, cut := Pick(ms, slot, r), slot[i + 1..], Without(slot, i);
    var q := if p < i then p else if p > i then p - 1 else i + Pick(ms, rest, r);
    assert forall j :: 0 <= j < i ==> cut[j] == slot[j];
    assert forall j :: i <= j < |cut| ==> cut[j] == slot[j + 1] == rest[j - i];
    FirstIsPick(ms, cut, r, q);
  }

  lemma FirstIsPick(ms: seq<Mapping>, slot: Slot, r: nat, q: nat)
    requires q <= |slot| && (q < |slot| ==> Applicable(ms, slot[q].epoch, r))
    requires forall j :: 0 <= j < q ==> !Applicable(ms, slot[j].epoch, r)
    ensures Pick(ms, slot, r) == q
  {
    hide Applicable;
  }

  /** A reader who does not see the file does not start to when a named entry goes, however
      many other named entries there are. */
  lemma HiddenWithoutNamed(ms: seq<Mapping>, slot: Slot, c: nat, file: nat, r: nat)
    requires c < |slot| && Names(slot[c].value, file) && !Visible(ms, Some(slot), r, file)
    ensures !Visible(ms, Some(Without(slot, c)), r, file)
  {
    hide Applicable;
    var p := Pick(ms, slot, r);
    PickWithout(ms, slot, c, r);
    assert p != c;
    SameEntry(slot, c, p);
  }

  lemma SameEntry(slot: Slot, c: nat, p: nat)
    requires c < |slot| && p != c && p <= |slot|
    ensures var q := if p < c then p else p - 1;
      if p < |slot| then q < |Without(slot, c)| && Without(slot, c)[q] == slot[p] else q >= |Without(slot, c)|
  {
  }

  /** When an entry goes, a reader who did not see the file starts to exactly if that entry
      was the one read and what lies behind it shows the file. */
  lemma SeenWithoutIff(ms: seq<Mapping>, slot: Slot, t: nat, file: nat, r: nat)
    requires t < |slot| && !Visible(ms, Some(slot), r, file)
    ensures Visible(ms, Some(Without(slot, t)), r, file)
            <==> Pick(ms, slot, r) == t && Visible(ms, Some(slot[t + 1..]), r, file)
  {
    hide Applicable;
    var p, rest := Pick(ms, slot, r), slot[t + 1..];
    PickWithout(ms, slot, t, r);
    if p != t {
      SameEntry(slot, t, p);
    } else {
      assert forall j :: t <= j < |slot| - 1 ==> Without(slot, t)[j] == rest[j - t];
    }
  }

  lemma ViewCut(pool: Pool, ids: seq<nat>, i: nat)
    requires InPool(pool, ids) && i < |ids|
    ensures InPool(pool, Cut(ids, i)) && View(pool, Cut(ids, i)) == Without(View(pool, ids), i)
  {
  }

  lemma ViewBehind(pool: Pool, ids: seq<nat>, i: nat)
    requires InPool(pool, ids) && i <= |ids|
    ensures InPool(pool, ids[i..]) && View(pool, ids[i..]) == View(pool, ids)[i..]
  {
  }

  /** What is left behind the tombstone once the create entry is gone as well. */
  function Behind(ids: seq<nat>, t: nat, create: nat): seq<nat>
    requires t < |ids|
  {
    Remove(ids[t + 1..], create)
  }

  /** What lies behind the tombstone in the chain without the create entry. */
  lemma BehindCut(ids: seq<nat>, t: nat, c: nat)
    requires Distinct(ids) && t < |ids| && c < |ids| && c != t
    ensures var k := TombIndex(true, t, c);
      k < |Cut(ids, c)| && Cut(ids, c)[k + 1..] == Behind(ids, t, ids[c])
  {
    var k, rest := TombIndex(true, t, c), ids[t + 1..];
    if c < t {
      assert ids[c] !in rest;
      RemoveAbsent(rest, ids[c]);
      assert Cut(ids, c)[t..] == rest;
    } else {
      assert Distinct(rest) && rest[c - t - 1] == ids[c];
      RemoveIsCut(rest, c - t - 1);
      assert Cut(ids, c)[t + 1..] == Cut(rest, c - t - 1);
    }
  }

  /** One reader, before and after a drop, judged on the chain as it was: after the first
      swap the file stays hidden; after the second it is seen exactly if both entries went,
      the tombstone was what the reader read, and the entries behind it, the create entry
      aside, show the file. */
  lemma SeenAfterDropIff(pool: Pool, head: nat, ids: seq<nat>, create: nat, t: nat, file: nat, ms: seq<Mapping>, r: nat)
    requires Links(pool, head, ids) && t < |ids|
    requires create in ids ==> create in pool && Names(pool[create].entry, file)
    requires !Visible(ms, Some(View(pool, ids)), r, file)
    ensures DropInPool(pool, ids, create, t)
    ensures !Visible(ms, Some(View(pool, Remove(ids, create))), r, file)
    ensures Visible(ms, Some(View(pool, Dropped(ids, create, ids[t]))), r, file)
            <==> !Adjacent(ids, create, ids[t]) && Reappears(pool, ids, create, t, file, ms, r)
  {
    hide Visible, Pick, Dropped, Linked, View;
    DropStaysInPool(pool, head, ids, create, t);
    if create !in ids || create == ids[t] {
      SeenAfterOneIff(pool, ids, create, t, file, ms, r);
    } else {
      var c :| 0 <= c < |ids| && ids[c] == create;
      SeenAfterBothIff(pool, ids, c, t, file, ms, r);
    }
  }

  /** The tombstone is what a reader at `r` reads, and the entries behind it show the file. */
  predicate Reappears(pool: Pool, ids: seq<nat>, create: nat, t: nat, file: nat, ms: seq<Mapping>, r: nat)
    requires t < |ids| && InPool(pool, ids) && InPool(pool, Behind(ids, t, create))
  {
    Pick(ms, View(pool, ids), r) == t && Visible(ms, Some(View(pool, Behind(ids, t, create))), r, file)
  }

  predicate DropInPool(pool: Pool, ids: seq<nat>, create: nat, t: nat)
    requires t < |ids|
  {
    && InPool(pool, ids) && InPool(pool, Remove(ids, create))
    && InPool(pool, Dropped(ids, create, ids[t])) && InPool(pool, Behind(ids, t, create))
  }

  lemma DropStaysInPool(pool: Pool, head: nat, ids: seq<nat>, create: nat, t: nat)
    requires Links(pool, head, ids) && t < |ids|
    ensures DropInPool(pool, ids, create, t)
  {
    hide Remove, Linked;
    var rest := ids[t + 1..];
    assert Distinct(rest) && forall x :: x in rest ==> x in ids;
    RemoveKeeps(ids, create);
    RemoveKeeps(Remove(ids, create), ids[t]);
    RemoveKeeps(rest, create);
    StillInPool(pool, ids, Remove(ids, create));
    StillInPool(pool, ids, Dropped(ids, create, ids[t]));
    StillInPool(pool, ids, Behind(ids, t, create));
  }

  /** Only the tombstone goes: there is no separate create entry. */
  lemma SeenAfterOneIff(pool: Pool, ids: seq<nat>, create: nat, t: nat, file: nat, ms: seq<Mapping>, r: nat)
    requires t < |ids| && Distinct(ids) && DropInPool(pool, ids, create, t)
    requires create !in ids || (create == ids[t] && Names(pool[create].entry, file))
    requires !Visible(ms, Some(View(pool, ids)), r, file)
    ensures !Visible(ms, Some(View(pool, Remove(ids, create))), r, file)
    ensures Visible(ms, Some(View(pool, Dropped(ids, create, ids[t]))), r, file)
            <==> !Adjacent(ids, create, ids[t]) && Reappears(pool, ids, create, t, file, ms, r)
  {
    hide Remove, Cut, Applicable;
    var view := View(pool, ids);
    DroppedByPosition(ids, create, ids[t], t, 0, false);
    NotAdjacent(ids, create, ids[t]);
    ViewCut(pool, ids, t);
    if create == ids[t] {
      RemoveIsCut(ids, t);
      assert view[t].value == pool[create].entry;
      HiddenWithoutNamed(ms, view, t, file, r);
      assert Pick(ms, view, r) != t;
    } else {
      RemoveAbsent(ids, create);
      RemoveAbsent(ids[t + 1..], create);
      ViewBehind(pool, ids, t + 1);
      SeenWithoutIff(ms, view, t, file, r);
    }
  }

  lemma SeenAfterBothIff(pool: Pool, ids: seq<nat>, c: nat, t: nat, file: nat, ms: seq<Mapping>, r: nat)
    requires t < |ids| && c < |ids| && c != t && Distinct(ids) && DropInPool(pool, ids, ids[c], t)
    requires Names(pool[ids[c]].entry, file) && !Visible(ms, Some(View(pool, ids)), r, file)
    ensures !Visible(ms, Some(View(pool, Remove(ids, ids[c]))), r, file)
    ensures Visible(ms, Some(View(pool, Dropped(ids, ids[c], ids[t]))), r, file)
            <==> !Adjacent(ids, ids[c], ids[t]) && Reappears(pool, ids, ids[c], t, file, ms, r)
  {
    hide Remove, Cut, Applicable, Visible, Dropped, Pick, Adjacent, Distinct, Behind, View, Without;
    var view := View(pool, ids);
    ViewAt(pool, ids, c);
    DistinctAt(ids, c, t);
    DroppedByPosition(ids, ids[c], ids[t], t, c, true);
    AdjacentAt(ids, c, t);
    RemoveIsCut(ids, c);
    ViewCut(pool, ids, c);
    HiddenWithoutNamed(ms, view, c, file, r);
    if c + 1 != t {
      SeenAfterTwoCuts(pool, ids, c, t, file, ms, r);
    }
  }

  lemma ViewAt(pool: Pool, ids: seq<nat>, c: nat)
    requires InPool(pool, ids) && c < |ids|
    ensures |View(pool, ids)| == |ids| && View(pool, ids)[c].value == pool[ids[c]].entry
  {
  }

  lemma SeenAfterTwoCuts(pool: Pool, ids: seq<nat>, c: nat, t: nat, file: nat, ms: seq<Mapping>, r: nat)
    requires t < |ids| && c < |ids| && c != t && Distinct(ids)
    requires InPool(pool, ids) && InPool(pool, Cut(ids, c)) && InPool(pool, Behind(ids, t, ids[c]))
    requires Names(pool[ids[c]].entry, file) && !Visible(ms, Some(View(pool, ids)), r, file)
    requires !Visible(ms, Some(View(pool, Cut(ids, c))), r, file)
    ensures InPool(pool, Remove(Cut(ids, c), ids[t]))
    ensures Visible(ms, Some(View(pool, Remove(Cut(ids, c), ids[t]))), r, file)
            <==> Reappears(pool, ids, ids[c], t, file, ms, r)
  {
    hide Remove, Cut, Applicable, Visible, Pick, Distinct, Behind, View, Without;
    var mid, k := Cut(ids, c), TombIndex(true, t, c);
    ViewAt(pool, ids, c);
    TombIndexIs(ids, ids[t], mid, true, t, c);
    ViewAt(pool, mid, k);
    RemoveIsCut(mid, k);
    ViewCut(pool, mid, k);
    ViewCut(pool, ids, c);
    SeenWithoutIff(ms, View(pool, mid), k, file, r);
    BehindCut(ids, t, c);
    ViewBehind(pool, mid, k + 1);
    NotPicked(ms, View(pool, ids), c, file, r);
    PickThroughCut(ms, View(pool, ids), c, t, r);
  }

  lemma PickThroughCut(ms: seq<Mapping>, slot: Slot, c: nat, t: nat, r: nat)
    requires c < |slot| && t < |slot| && c != t && Pick(ms, slot, r) != c
    ensures Pick(ms, Without(slot, c), r) == TombIndex(true, t, c) <==> Pick(ms, slot, r) == t
  {
    hide Pick, Without;
    PickWithout(ms, slot, c, r);
  }

  lemma NotPicked(ms: seq<Mapping>, slot: Slot, c: nat, file: nat, r: nat)
    requires c < |slot| && Names(slot[c].value, file) && !Visible(ms, Some(slot), r, file)
    ensures Pick(ms, slot, r) != c
  {
  }

  lemma AdjacentAt(ids: seq<nat>, c: nat, t: nat)
    requires Distinct(ids) && c < |ids| && t < |ids|
    ensures Adjacent(ids, ids[c], ids[t]) <==> c + 1 == t
  {
    if c + 1 == t {
      assert ids[t - 1] == ids[c];
    }
  }

  /** The reference points: none sees the file after the first swap; after the second some
      does exactly if both entries went and the file reappears for one of them. */
  lemma HiddenAfterDropIff(pool: Pool, head: nat, ids: seq<nat>, create: nat, t: nat, file: nat, ms: seq<Mapping>,
                           refs: seq<nat>)
    requires Links(pool, head, ids) && t < |ids| && file != 0
    requires create in ids ==> create in pool && Names(pool[create].entry, file)
    requires !Seen(ms, View(pool, ids), refs, file)
    ensures DropInPool(pool, ids, create, t)
    ensures !Seen(ms, View(pool, Remove(ids, create)), refs, file)
    ensures Seen(ms, View(pool, Dropped(ids, create, ids[t])), refs, file) <==>
      !Adjacent(ids, create, ids[t]) &&
      exists i :: 0 <= i < |refs| && Reappears(pool, ids, create, t, file, ms, refs[i])
  {
    hide Visible, Dropped, Linked, View, Reappears, Adjacent;
    DropStaysInPool(pool, head, ids, create, t);
    forall i | 0 <= i < |refs|
      ensures !Visible(ms, Some(View(pool, Remove(ids, create))), refs[i], file)
      ensures Visible(ms, Some(View(pool, Dropped(ids, create, ids[t]))), refs[i], file)
              <==> !Adjacent(ids, create, ids[t]) && Reappears(pool, ids, create, t, file, ms, refs[i])
    {
      SeenAfterDropIff(pool, head, ids, create, t, file, ms, refs[i]);
    }
  }

  lemma StillInPool(pool: Pool, ids: seq<nat>, rest: seq<nat>)
    requires InPool(pool, ids) && forall x :: x in rest ==> x in ids
    ensures InPool(pool, rest)
  {
    forall i | 0 <= i < |rest| ensures rest[i] in pool {
      assert rest[i] in rest;
      var j :| 0 <= j < |ids| && ids[j] == rest[i];
    }
  }

  // ---------------------------------------------------------------------------
  // Two runs that end badly
  // ---------------------------------------------------------------------------

  /** Create, rename at the next head, delete at the one after. */
  function RenameThenDelete(file: nat, oldName: nat, newName: nat): seq<Step<DirEntry>> {
    [Prepend(0, DirEntry(oldName, file)), TakeSnapshot, Prepend(2, DirEntry(newName, file)), TakeSnapshot,
     Prepend(4, DirEntry(0, file))]
  }

  function RenamedPool(file: nat, oldName: nat, newName: nat): Pool {
    map[3 := Node(4, DirEntry(0, file), 2),
        2 := Node(2, DirEntry(newName, file), 1),
        1 := Node(0, DirEntry(oldName, file), 0)]
  }

  lemma RenameThenDeleteRuns(file: nat, oldName: nat, newName: nat)
    ensures var steps, pool := RenameThenDelete(file, oldName, newName), RenamedPool(file, oldName, newName);
      Run(Fresh(), steps) && After(Fresh(), steps) == Volume(4, [], View(pool, [3, 2, 1]))
  {
    var s := RenameThenDelete(file, oldName, newName);
    var v0: Volume<DirEntry> := Fresh();
    var v1 := Apply(v0, s[0]);
    var v2 := Apply(v1, s[1]);
    var v3 := Apply(v2, s[2]);
    var v4 := Apply(v3, s[3]);
    var v5 := Apply(v4, s[4]);
    assert v5.chain == View(RenamedPool(file, oldName, newName), [3, 2, 1]);
    EpochRuns.RunStep(v4, s[4..]);
    EpochRuns.RunStep(v3, s[3..]);
    EpochRuns.RunStep(v2, s[2..]);
    EpochRuns.RunStep(v1, s[1..]);
    EpochRuns.RunStep(v0, s);
  }

  /** A file renamed inside its directory has two named entries in the slot.  Dropping the
      newer one with the tombstone brings the older name back at the head. */
  lemma RenamedFileReappears(file: nat, oldName: nat, newName: nat)
    requires oldName != 0 && newName != 0
    ensures var pool := RenamedPool(file, oldName, newName);
      && Links(pool, 3, [3, 2, 1])
      && !Visible([], Some(View(pool, [3, 2, 1])), 4, file)
      && FirstNamed(View(pool, [3, 2, 1]), file, 1)
      && Dropped([3, 2, 1], 2, 3) == [1]
      && Visible([], Some(View(pool, [1])), Refs([], 4)[0], file)
  {
    var ids: seq<nat> := [3, 2, 1];
    var pool := RenamedPool(file, oldName, newName);
    TombstoneFirst(ids, 0, 1);
    assert View(pool, ids)[0].epoch == 4;
    assert View(pool, [1])[0].epoch == 0;
  }

  /** Create, delete at the next head, rename in the snapshot between, give that snapshot up. */
  function RenameInSnapshot(file: nat, oldName: nat, newName: nat): seq<Step<DirEntry>> {
    [Prepend(0, DirEntry(oldName, file)), TakeSnapshot, Prepend(2, DirEntry(0, file)),
     Prepend(1, DirEntry(newName, file)), SoftDelete(1)]
  }

  function SnapshotPool(file: nat, oldName: nat, newName: nat): Pool {
    map[3 := Node(1, DirEntry(newName, file), 2),
        2 := Node(2, DirEntry(0, file), 1),
        1 := Node(0, DirEntry(oldName, file), 0)]
  }

  lemma RenameInSnapshotRuns(file: nat, oldName: nat, newName: nat)
    ensures var steps, pool := RenameInSnapshot(file, oldName, newName), SnapshotPool(file, oldName, newName);
      Run(Fresh(), steps) && After(Fresh(), steps) == Volume(2, [Mapping(1, 0, false)], View(pool, [3, 2, 1]))
  {
    var s := RenameInSnapshot(file, oldName, newName);
    var v0: Volume<DirEntry> := Fresh();
    var v1 := Apply(v0, s[0]);
    var v2 := Apply(v1, s[1]);
    var v3 := Apply(v2, s[2]);
    var v4 := Apply(v3, s[3]);
    var v5 := Apply(v4, s[4]);
    assert v5.chain == View(SnapshotPool(file, oldName, newName), [3, 2, 1]);
    EpochRuns.RunStep(v4, s[4..]);
    EpochRuns.RunStep(v3, s[3..]);
    EpochRuns.RunStep(v2, s[2..]);
    EpochRuns.RunStep(v1, s[1..]);
    EpochRuns.RunStep(v0, s);
  }

  /** The snapshot's rename is the first named entry and sits directly in front of the
      tombstone, with the file unseen from the only reference point: the drop succeeds, the
      tombstone stays linked, and its slot is given back. */
  lemma FreedTombstoneStaysLinked(file: nat, oldName: nat, newName: nat)
    requires oldName != 0 && newName != 0
    ensures var pool, ms := SnapshotPool(file, oldName, newName), [Mapping(1, 0, false)];
      && Links(pool, 3, [3, 2, 1])
      && Refs(ms, 2) == [2] && !Visible(ms, Some(View(pool, [3, 2, 1])), 2, file)
      && FirstNamed(View(pool, [3, 2, 1]), file, 0)
      && Dropped([3, 2, 1], 3, 2) == [2, 1]
      && 2 in Freed(3, 2)
  {
    var ids: seq<nat> := [3, 2, 1];
    var pool, ms := SnapshotPool(file, oldName, newName), [Mapping(1, 0, false)];
    var view := View(pool, ids);
    assert ids[1 - 1] == 3 && ids[1] == 2;
    assert Remove(ids, 3) == [2, 1];
    assert Resolve(ms, 1) == 0;
    assert ActiveFrom(ms, 3, 2) == [];
    EffectiveAfterInsert([], ms[0], 1);
    EffectiveAfterInsert([], ms[0], 2);
    assert ms == [ms[0]] + [];
    assert view[0].epoch == 1 && view[1].epoch == 2;
    assert Pick(ms, view, 2) == 1;
  }
}
