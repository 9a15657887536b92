/** The indirection table: logical page to physical offset.  Inline entries sit in the
    header page; overflow pages are chained, and each overflow page's own offset is kept
    in the last entry of the part of the table before it.  Allocation at the tail must
    never hand out one of those self-reference slots. */
module Indirection {
  import opened Arithmetic
  import opened Sequences

  /** An overflow page as words: the logical number of the next one, then its entries. */
  type Words = seq<nat>

  predicate Pages(overflow: seq<Words>, per: nat) {
    forall k :: 0 <= k < |overflow| ==> |overflow[k]| == per + 1
  }

  /** All entries in logical order. */
  function Flat(inl: seq<nat>, overflow: seq<Words>): seq<nat> {
    if overflow == [] then inl
    else
      var last := overflow[|overflow| - 1];
      Flat(inl, overflow[..|overflow| - 1]) + (if last == [] then [] else last[1..])
  }

  function Lookup(inl: seq<nat>, overflow: seq<Words>, per: nat, l: nat): nat
    requires per > 0 && Pages(overflow, per)
  {
    if l < |inl| then inl[l]
    else
      var k, e := (l - |inl|) / per, (l - |inl|) % per;
      if k >= |overflow| then 0 else overflow[k][1 + e]
  }

  // ---------------------------------------------------------------------------
  // Division by the page size is indexing into the flat table
  // ---------------------------------------------------------------------------

  lemma {:induction false} FlatLength(inl: seq<nat>, overflow: seq<Words>, per: nat)
    requires Pages(overflow, per)
    ensures |Flat(inl, overflow)| == |inl| + |overflow| * per
  {
    if overflow != [] {
      FlatLength(inl, overflow[..|overflow| - 1], per);
      Distribute(|overflow| - 1, 1, per);
    }
  }

  lemma {:induction false} FlatInline(inl: seq<nat>, overflow: seq<Words>, l: nat)
    requires l < |inl|
    ensures l < |Flat(inl, overflow)| && Flat(inl, overflow)[l] == inl[l]
  {
    if overflow != [] {
      FlatInline(inl, overflow[..|overflow| - 1], l);
    }
  }

  /** Where the entries of overflow page `k` start. */
  function Start(inl: seq<nat>, overflow: seq<Words>, k: nat): nat
    requires k <= |overflow|
  {
    |Flat(inl, overflow[..k])|
  }

  lemma StartIsProduct(inl: seq<nat>, overflow: seq<Words>, per: nat, k: nat)
    requires Pages(overflow, per) && k <= |overflow|
    ensures Start(inl, overflow, k) == |inl| + k * per
  {
    FlatLength(inl, overflow[..k], per);
  }

  lemma {:induction false} FlatAt(inl: seq<nat>, overflow: seq<Words>, per: nat, k: nat, e: nat)
    requires Pages(overflow, per) && k < |overflow| && e < per
    ensures Start(inl, overflow, k) + e < |Flat(inl, overflow)|
    ensures Flat(inl, overflow)[Start(inl, overflow, k) + e] == overflow[k][1 + e]
  {
    var front := overflow[..|overflow| - 1];
    var f, last := Flat(inl, front), overflow[|overflow| - 1][1..];
    assert Flat(inl, overflow) == f + last;
    assert overflow[..k] == front[..k];
    if k == |overflow| - 1 {
      assert (f + last)[|f| + e] == last[e];
    } else {
      FlatAt(inl, front, per, k, e);
    }
  }

  lemma LookupIsFlat(inl: seq<nat>, overflow: seq<Words>, per: nat, l: nat)
    requires per > 0 && Pages(overflow, per)
    ensures Lookup(inl, overflow, per, l) == if l < |Flat(inl, overflow)| then Flat(inl, overflow)[l] else 0
  {
    hide Flat;
    if l < |inl| {
      FlatInline(inl, overflow, l);
    } else {
      var k, e := (l - |inl|) / per, (l - |inl|) % per;
      DivMod(l - |inl|, per);
      if k < |overflow| {
        StartIsProduct(inl, overflow, per, k);
        FlatAt(inl, overflow, per, k, e);
      } else {
        FlatLength(inl, overflow, per);
        MulMonotone(|overflow|, k, per);
      }
    }
  }

  /** The entry just before overflow page `k` is the last one of page `k - 1`. */
  lemma LastEntryPlace(per: nat, k: nat)
    requires per > 0 && k > 0
    ensures k * per >= 1
    ensures (k * per - 1) / per == k - 1 && (k * per - 1) % per == per - 1
  {
    Distribute(k - 1, 1, per);
    DivUnique(k * per - 1, per, k - 1, per - 1);
  }

  /** Replacing one overflow page replaces its stretch of the flat table. */
  lemma {:induction false} FlatWrite(inl: seq<nat>, overflow: seq<Words>, per: nat, k: nat, page: Words)
    requires Pages(overflow, per) && k < |overflow| && |page| == per + 1
    ensures Start(inl, overflow, k) + per <= |Flat(inl, overflow)|
    ensures var b := Start(inl, overflow, k);
      Flat(inl, overflow[k := page]) == Flat(inl, overflow)[..b] + page[1..] + Flat(inl, overflow)[b + per..]
  {
    var front := overflow[..|overflow| - 1];
    var f, last, b := Flat(inl, front), overflow[|overflow| - 1][1..], Start(inl, overflow, k);
    assert Flat(inl, overflow) == f + last;
    assert overflow[..k] == front[..k];
    if k == |overflow| - 1 {
      assert overflow[k := page][..|overflow| - 1] == front;
      assert (f + last)[..b] == f && (f + last)[b + per..] == [];
    } else {
      FlatWrite(inl, front, per, k, page);
      assert overflow[k := page][..|overflow| - 1] == front[k := page];
      Slices(f, last, page[1..], b, b + per);
    }
  }

  lemma Slices(x: seq<nat>, y: seq<nat>, mid: seq<nat>, b: nat, c: nat)
    requires b <= c <= |x|
    ensures (x[..b] + mid + x[c..]) + y == (x + y)[..b] + mid + (x + y)[c..]
  {
    assert (x + y)[..b] == x[..b];
    assert (x + y)[c..] == x[c..] + y;
  }

  lemma {:induction false} FlatInlineWrite(inl: seq<nat>, overflow: seq<Words>, l: nat, v: nat)
    requires l < |inl|
    ensures |inl| <= |Flat(inl, overflow)|
    ensures Flat(inl[l := v], overflow) == Flat(inl, overflow)[l := v]
  {
    if overflow != [] {
      FlatInlineWrite(inl, overflow[..|overflow| - 1], l, v);
    }
  }

  function WithEntry(page: Words, e: nat, v: nat, link: nat): (r: Words)
    requires 1 + e < |page|
    ensures |r| == |page|
  {
    [link] + page[1..][e := v]
  }

  /** Setting entry `e` of page `k` (and possibly its chain word) is a single flat update. */
  lemma FlatSet(inl: seq<nat>, overflow: seq<Words>, per: nat, k: nat, e: nat, v: nat, link: nat)
    requires Pages(overflow, per) && k < |overflow| && e < per
    ensures Start(inl, overflow, k) + e < |Flat(inl, overflow)|
    ensures Flat(inl, overflow[k := WithEntry(overflow[k], e, v, link)]) ==
      Flat(inl, overflow)[Start(inl, overflow, k) + e := v]
  {
    hide Flat;
    var page := WithEntry(overflow[k], e, v, link);
    FlatWrite(inl, overflow, per, k, page);
    FlatWrite(inl, overflow, per, k, overflow[k]);
    assert overflow[k := overflow[k]] == overflow;
    var f, b := Flat(inl, overflow), Start(inl, overflow, k);
    assert page[1..] == overflow[k][1..][e := v];
    MiddleUpdate(f[..b], overflow[k][1..], f[b + per..], e, v);
  }

  lemma MiddleUpdate(x: seq<nat>, y: seq<nat>, z: seq<nat>, e: nat, v: nat)
    requires e < |y|
    ensures (x + y + z)[|x| + e := v] == x + y[e := v] + z
  {
  }

  // ---------------------------------------------------------------------------
  // The invariant, on the flat table
  // ---------------------------------------------------------------------------

  /** `selfs` are the self-reference slots.  They hold offsets, lie at least two apart, and
      the very last slot is the one the next overflow page will need. */
  ghost predicate SelfRefs(flat: seq<nat>, selfs: seq<nat>) {
    && (forall k :: 0 <= k < |selfs| ==> 2 <= selfs[k] && selfs[k] + 2 < |flat| && flat[selfs[k]] > 0)
    && (forall j, k :: 0 <= j < k < |selfs| ==> selfs[j] + 2 <= selfs[k])
  }

  /** Every record in use, those of overflow pages included, has its `rec` bytes to itself
      and ends at or below the physical tail. */
  ghost predicate Records(flat: seq<nat>, tail: nat, rec: nat) {
    && rec > 0
    && (forall l :: 0 <= l < |flat| && flat[l] != 0 ==> flat[l] + rec <= tail)
    && (forall l, m :: 0 <= l < m < |flat| && flat[l] != 0 && flat[m] != 0 ==> Apart(flat[l], flat[m], rec))
  }

  /** The record at `phys` overlaps none in use. */
  ghost predicate Unused(flat: seq<nat>, phys: nat, rec: nat) {
    forall l :: 0 <= l < |flat| && flat[l] != 0 ==> Apart(flat[l], phys, rec)
  }

  /** Slots from `total` on are free unless they are self-references. */
  ghost predicate Space(flat: seq<nat>, selfs: seq<nat>, total: nat, tail: nat, rec: nat) {
    && 2 <= total < |flat|
    && SelfRefs(flat, selfs)
    && (forall l :: total <= l < |flat| && l !in selfs ==> flat[l] == 0)
    && Records(flat, tail, rec)
  }

  /** Growing by one overflow page, seen on the flat table. */
  function Grown(flat: seq<nat>, phys: nat, per: nat): seq<nat>
    requires flat != []
  {
    flat[|flat| - 1 := phys] + Zeros(per)
  }

  lemma GrowKeepsSpace(flat: seq<nat>, selfs: seq<nat>, total: nat, tail: nat, rec: nat, per: nat)
    requires Space(flat, selfs, total, tail, rec) && per >= 2 && tail > 0
    ensures Space(Grown(flat, tail, per), selfs + [|flat| - 1], total, tail + rec, rec)
  {
    var f, s := Grown(flat, tail, per), selfs + [|flat| - 1];
    assert |flat| - 1 !in selfs;
    forall l | total <= l < |f| && l !in s ensures f[l] == 0 {
      if l < |flat| {
        assert l != s[|s| - 1];
        assert l !in selfs by {
          forall k | 0 <= k < |selfs| ensures selfs[k] != l {
            assert selfs[k] == s[k];
          }
        }
      }
    }
  }

  lemma ClaimKeepsSpace(flat: seq<nat>, selfs: seq<nat>, total: nat, tail: nat, rec: nat, l: nat, phys: nat)
    requires Space(flat, selfs, total, tail, rec) && l < total && flat[l] == 0
    requires 0 < phys && phys + rec <= tail && Unused(flat, phys, rec)
    ensures Space(flat[l := phys], selfs, total, tail, rec)
    ensures l !in selfs
  {
    var f := flat[l := phys];
    forall k | 0 <= k < |selfs| ensures selfs[k] != l && f[selfs[k]] > 0 {
      assert flat[selfs[k]] > 0;
    }
  }

  lemma SkipKeepsSpace(flat: seq<nat>, selfs: seq<nat>, total: nat, tail: nat, rec: nat)
    requires Space(flat, selfs, total, tail, rec) && flat[total] != 0
    ensures total + 2 < |flat| && Space(flat, selfs, total + 1, tail, rec) && flat[total + 1] == 0
  {
    assert total in selfs;
    var k :| 0 <= k < |selfs| && selfs[k] == total;
    assert total + 1 !in selfs by {
      forall j | 0 <= j < |selfs| ensures selfs[j] != total + 1 {
        if j < k {
          assert selfs[j] + 2 <= selfs[k];
        } else if k < j {
          assert selfs[k] + 2 <= selfs[j];
        }
      }
    }
  }

  // ---------------------------------------------------------------------------
  // The chain of overflow pages
  // ---------------------------------------------------------------------------

  /** Overflow page `k` is reached through the slot just before its entries, and its first
      word names the slot of the next one. */
  ghost predicate Chained(inl: seq<nat>, overflow: seq<Words>, per: nat, logicals: seq<nat>, head: nat) {
    && Pages(overflow, per)
    && |logicals| == |overflow|
    && (forall k :: 0 <= k < |overflow| ==> logicals[k] + 1 == Start(inl, overflow, k))
    && (forall k :: 0 <= k < |overflow| ==> overflow[k][0] == NextOf(logicals, k))
    && head == (if logicals == [] then 0 else logicals[0])
  }

  function NextOf(logicals: seq<nat>, k: nat): nat {
    if k + 1 < |logicals| then logicals[k + 1] else 0
  }

  function GrownInline(inl: seq<nat>, overflow: seq<Words>, phys: nat): seq<nat>
    requires inl != []
  {
    if overflow == [] then inl[|inl| - 1 := phys] else inl
  }

  function GrownPages(overflow: seq<Words>, per: nat, phys: nat, link: nat): seq<Words>
    requires per > 0 && Pages(overflow, per)
  {
    var k := |overflow| - 1;
    (if overflow == [] then [] else overflow[k := WithEntry(overflow[k], per - 1, phys, link)]) + [Zeros(per + 1)]
  }

  lemma GrowthIsFlat(inl: seq<nat>, overflow: seq<Words>, per: nat, phys: nat, link: nat)
    requires inl != [] && per > 0 && Pages(overflow, per)
    ensures Flat(inl, overflow) != []
    ensures Pages(GrownPages(overflow, per, phys, link), per)
    ensures Flat(GrownInline(inl, overflow, phys), GrownPages(overflow, per, phys, link)) ==
      Grown(Flat(inl, overflow), phys, per)
  {
    var inl', ov' := GrownInline(inl, overflow, phys), GrownPages(overflow, per, phys, link);
    var front := ov'[..|ov'| - 1];
    assert Zeros(per + 1)[1..] == Zeros(per);
    assert Flat(inl', ov') == Flat(inl', front) + Zeros(per);
    if overflow == [] {
      assert front == [];
    } else {
      var k := |overflow| - 1;
      assert front == overflow[k := WithEntry(overflow[k], per - 1, phys, link)];
      FlatSet(inl, overflow, per, k, per - 1, phys, link);
      assert Flat(inl, overflow) == Flat(inl, overflow[..k]) + overflow[k][1..];
      FlatInlineLength(inl, overflow);
    }
  }

  lemma {:induction false} FlatInlineLength(inl: seq<nat>, overflow: seq<Words>)
    ensures |inl| <= |Flat(inl, overflow)|
  {
    if overflow != [] {
      FlatInlineLength(inl, overflow[..|overflow| - 1]);
    }
  }

  lemma {:induction false} SameShapeSameLength(inl: seq<nat>, inl': seq<nat>, xs: seq<Words>, ys: seq<Words>, per: nat)
    requires |inl| == |inl'| && |xs| == |ys| && Pages(xs, per) && Pages(ys, per)
    ensures |Flat(inl, xs)| == |Flat(inl', ys)|
  {
    FlatLength(inl, xs, per);
    FlatLength(inl', ys, per);
  }

  lemma GrownLinks(overflow: seq<Words>, per: nat, phys: nat, link: nat)
    requires per > 0 && Pages(overflow, per)
    ensures var ov := GrownPages(overflow, per, phys, link);
      && Pages(ov, per) && |ov| == |overflow| + 1
      && forall k :: 0 <= k < |ov| ==>
           ov[k][0] == if k == |overflow| then 0 else if k == |overflow| - 1 then link else overflow[k][0]
  {
  }

  lemma GrowthIsChained(inl: seq<nat>, overflow: seq<Words>, per: nat, logicals: seq<nat>, head: nat, phys: nat)
    requires inl != [] && per > 0 && Chained(inl, overflow, per, logicals, head)
    ensures Flat(inl, overflow) != []
    ensures var link := |Flat(inl, overflow)| - 1;
      Chained(GrownInline(inl, overflow, phys), GrownPages(overflow, per, phys, link), per, logicals + [link],
              if overflow == [] then link else head)
  {
    hide Flat, GrownPages;
    FlatInlineLength(inl, overflow);
    var link := |Flat(inl, overflow)| - 1;
    GrownLinks(overflow, per, phys, link);
    var inl', ov' := GrownInline(inl, overflow, phys), GrownPages(overflow, per, phys, link);
    var ls := logicals + [link];
    forall k | 0 <= k < |ov'| ensures ls[k] + 1 == Start(inl', ov', k) {
      SameShapeSameLength(inl, inl', overflow[..k], ov'[..k], per);
      if k == |overflow| {
        assert overflow[..k] == overflow;
      } else {
        assert logicals[k] + 1 == Start(inl, overflow, k);
      }
    }
    forall k | 0 <= k < |ov'| ensures ov'[k][0] == NextOf(ls, k) {
      if k < |overflow| {
        assert overflow[k][0] == NextOf(logicals, k);
      }
    }
  }

  // ---------------------------------------------------------------------------
  // Allocation
  // ---------------------------------------------------------------------------

  /** What is stored stays stored; what is new is in `slots`, at offsets from `floor` on. */
  ghost predicate Extends(before: seq<nat>, after: seq<nat>, slots: seq<nat>, floor: nat) {
    && |before| <= |after|
    && (forall l :: 0 <= l < |before| && before[l] != 0 ==> after[l] == before[l])
    && (forall l :: 0 <= l < |after| && after[l] != 0 && (l >= |before| || before[l] == 0) ==>
      l in slots && after[l] >= floor)
  }

  lemma GrownExtends(flat: seq<nat>, selfs: seq<nat>, total: nat, tail: nat, rec: nat, per: nat)
    requires Space(flat, selfs, total, tail, rec)
    ensures Extends(flat, Grown(flat, tail, per), selfs + [|flat| - 1], tail)
  {
    var after, ls := Grown(flat, tail, per), selfs + [|flat| - 1];
    assert |flat| - 1 !in selfs;
    assert ls[|selfs|] == |flat| - 1;
  }

  lemma ExtendsReflexive(a: seq<nat>, ls: seq<nat>, floor: nat)
    ensures Extends(a, a, ls, floor)
  {
  }

  lemma ExtendsTransitive(a: seq<nat>, b: seq<nat>, c: seq<nat>, ls: seq<nat>, ls': seq<nat>, floor: nat, floor': nat)
    requires Extends(a, b, ls, floor) && Extends(b, c, ls', floor') && ls <= ls' && floor <= floor'
    ensures Extends(a, c, ls', floor)
  {
    forall l | 0 <= l < |c| && c[l] != 0 && (l >= |a| || a[l] == 0) ensures l in ls' && c[l] >= floor {
      if l < |b| && b[l] != 0 {
        var i :| 0 <= i < |ls| && ls[i] == l;
        assert ls'[i] == l;
      }
    }
  }

  /** The table in memory together with the two header counters. */
  ghost predicate Ok(inl: seq<nat>, overflow: seq<Words>, per: nat, logicals: seq<nat>, head: nat, total: nat,
                     tail: nat, rec: nat) {
    && per >= 2 && |inl| >= 3 && tail > 0
    && Chained(inl, overflow, per, logicals, head)
    && Space(Flat(inl, overflow), logicals, total, tail, rec)
  }

  lemma GrowKeepsOk(inl: seq<nat>, overflow: seq<Words>, per: nat, logicals: seq<nat>, head: nat, total: nat,
                    tail: nat, rec: nat)
    requires Ok(inl, overflow, per, logicals, head, total, tail, rec)
    ensures Flat(inl, overflow) != []
    ensures var link := |Flat(inl, overflow)| - 1;
      var inl', ov', ls := GrownInline(inl, overflow, tail), GrownPages(overflow, per, tail, link), logicals + [link];
      && Ok(inl', ov', per, ls, if overflow == [] then link else head, total, tail + rec, rec)
      && Flat(inl', ov') == Grown(Flat(inl, overflow), tail, per)
      && Extends(Flat(inl, overflow), Flat(inl', ov'), ls, tail)
  {
    hide Chained, Flat, Grown, GrownInline, GrownPages, Extends;
    var flat := Flat(inl, overflow);
    assert Pages(overflow, per) by { ChainedPages(inl, overflow, per, logicals, head); }
    GrowKeepsSpace(flat, logicals, total, tail, rec, per);
    GrownExtends(flat, logicals, total, tail, rec, per);
    GrowthIsFlat(inl, overflow, per, tail, |flat| - 1);
    GrowthIsChained(inl, overflow, per, logicals, head, tail);
    GrownInlineLength(inl, overflow, tail);
  }

  lemma ChainedPages(inl: seq<nat>, overflow: seq<Words>, per: nat, logicals: seq<nat>, head: nat)
    requires Chained(inl, overflow, per, logicals, head)
    ensures Pages(overflow, per) && |logicals| == |overflow|
  {
  }

  lemma GrownInlineLength(inl: seq<nat>, overflow: seq<Words>, phys: nat)
    requires inl != []
    ensures |GrownInline(inl, overflow, phys)| == |inl|
  {
  }

  lemma SegmentEnd(inl: seq<nat>, overflow: seq<Words>, per: nat, logicals: seq<nat>, head: nat, total: nat,
                   tail: nat, rec: nat, k: nat, l: nat)
    requires Ok(inl, overflow, per, logicals, head, total, tail, rec)
    requires l + 1 == |inl| + k * per && l + 1 < |Flat(inl, overflow)|
    ensures l in logicals && Flat(inl, overflow)[l] > 0
  {
    hide Flat;
    FlatLength(inl, overflow, per);
    assert k < |overflow| by {
      if k >= |overflow| {
        MulMonotone(|overflow|, k, per);
      }
    }
    StartIsProduct(inl, overflow, per, k);
    assert logicals[k] == l;
  }

  /** Only the very last slot is a segment end without an overflow page behind it. */
  lemma SegmentEnds(inl: seq<nat>, overflow: seq<Words>, per: nat, logicals: seq<nat>, head: nat, total: nat,
                    tail: nat, rec: nat, l: nat)
    requires Ok(inl, overflow, per, logicals, head, total, tail, rec)
    ensures Pages(overflow, per)
    ensures l < |inl| ==> ((l == |inl| - 1 && inl[l] == 0) <==> l + 1 >= |Flat(inl, overflow)|)
    ensures l >= |inl| ==> (PageEnd(inl, overflow, per, l) <==> l + 1 >= |Flat(inl, overflow)|)
  {
    hide Flat, Ok, PageEnd;
    assert Pages(overflow, per) && per > 0 by { OkPages(inl, overflow, per, logicals, head, total, tail, rec); }
    LastIsFree(inl, overflow, per, logicals, head, total, tail, rec);
    FlatInlineLength(inl, overflow);
    if l < |inl| {
      FlatInline(inl, overflow, l);
      if l == |inl| - 1 && l + 1 < |Flat(inl, overflow)| {
        SegmentEnd(inl, overflow, per, logicals, head, total, tail, rec, 0, l);
      }
    } else {
      PageEnds(inl, overflow, per, logicals, head, total, tail, rec, l);
    }
  }

  /** The growth test for a slot beyond the inline entries. */
  predicate PageEnd(inl: seq<nat>, overflow: seq<Words>, per: nat, l: nat)
    requires per > 0 && Pages(overflow, per) && l >= |inl|
  {
    var k, e := (l - |inl|) / per, (l - |inl|) % per;
    k >= |overflow| || (e == per - 1 && overflow[k][1 + e] == 0)
  }

  lemma OkPages(inl: seq<nat>, overflow: seq<Words>, per: nat, logicals: seq<nat>, head: nat, total: nat, tail: nat,
                rec: nat)
    requires Ok(inl, overflow, per, logicals, head, total, tail, rec)
    ensures Pages(overflow, per) && per >= 2
  {
  }

  lemma LastIsFree(inl: seq<nat>, overflow: seq<Words>, per: nat, logicals: seq<nat>, head: nat, total: nat,
                   tail: nat, rec: nat)
    requires Ok(inl, overflow, per, logicals, head, total, tail, rec)
    ensures Flat(inl, overflow) != [] && Flat(inl, overflow)[|Flat(inl, overflow)| - 1] == 0
  {
    hide Flat, Chained;
  }

  lemma PageEnds(inl: seq<nat>, overflow: seq<Words>, per: nat, logicals: seq<nat>, head: nat, total: nat, tail: nat,
                 rec: nat,
                 l: nat)
    requires Ok(inl, overflow, per, logicals, head, total, tail, rec) && Pages(overflow, per) && per > 0 && l >= |inl|
    requires Flat(inl, overflow) != [] && Flat(inl, overflow)[|Flat(inl, overflow)| - 1] == 0
    ensures PageEnd(inl, overflow, per, l) <==> l + 1 >= |Flat(inl, overflow)|
  {
    hide Flat, Ok;
    var flat := Flat(inl, overflow);
    if l >= |flat| {
      BeyondTable(inl, overflow, per, l);
    } else {
      var k, e := (l - |inl|) / per, (l - |inl|) % per;
      PlaceOf(inl, overflow, per, l);
      FlatAt(inl, overflow, per, k, e);
      if e == per - 1 && l + 1 < |flat| {
        StartIsProduct(inl, overflow, per, k);
        Distribute(k, 1, per);
        SegmentEnd(inl, overflow, per, logicals, head, total, tail, rec, k + 1, l);
      } else if e < per - 1 {
        FlatAt(inl, overflow, per, k, per - 1);
      }
    }
  }

  lemma BeyondTable(inl: seq<nat>, overflow: seq<Words>, per: nat, l: nat)
    requires Pages(overflow, per) && per > 0 && l >= |inl| && l >= |Flat(inl, overflow)|
    ensures (l - |inl|) / per >= |overflow|
  {
    hide Flat;
    FlatLength(inl, overflow, per);
    DivMod(l - |inl|, per);
    var k := (l - |inl|) / per;
    if k < |overflow| {
      MulMonotone(k + 1, |overflow|, per);
      Distribute(k, 1, per);
    }
  }

  /** The bytes of `n` records. */
  function Size(rec: nat, n: nat): nat {
    rec * n
  }

  lemma SizeAdds(rec: nat, m: nat, n: nat)
    ensures Size(rec, m + n) == Size(rec, m) + Size(rec, n) && Size(rec, 0) == 0 && Size(rec, 1) == rec
  {
    Distribute(m, n, rec);
  }

  /** Only self-references lie between `lo` and `hi`. */
  predicate Skipped(ls: seq<nat>, lo: nat, hi: nat) {
    forall l :: lo <= l < hi ==> l in ls
  }

  lemma SkipNone(ls: seq<nat>, lo: nat)
    ensures Skipped(ls, lo, lo)
  {
  }

  lemma SkipMore(ls: seq<nat>, ls': seq<nat>, lo: nat, hi: nat)
    requires Skipped(ls, lo, hi)
    ensures ls <= ls' ==> Skipped(ls', lo, hi)
    ensures hi in ls ==> Skipped(ls, lo, hi + 1)
  {
    if ls <= ls' {
      forall l | lo <= l < hi ensures l in ls' {
        assert l in ls;
        var i :| 0 <= i < |ls| && ls[i] == l;
        assert ls'[i] == l;
      }
    }
  }

  /** In a table at rest no two records overlap, and none reaches past the tail. */
  lemma OkRecords(inl: seq<nat>, overflow: seq<Words>, per: nat, logicals: seq<nat>, head: nat, total: nat,
                  tail: nat, rec: nat)
    requires Ok(inl, overflow, per, logicals, head, total, tail, rec)
    ensures Records(Flat(inl, overflow), tail, rec)
  {
  }

  lemma TotalInside(inl: seq<nat>, overflow: seq<Words>, per: nat, logicals: seq<nat>, head: nat, total: nat,
                    tail: nat, rec: nat)
    requires Ok(inl, overflow, per, logicals, head, total, tail, rec)
    ensures 2 <= total < |Flat(inl, overflow)|
  {
  }

  /** A reserved record below the new tail is referenced from nowhere. */
  lemma RaiseTail(inl: seq<nat>, overflow: seq<Words>, per: nat, logicals: seq<nat>, head: nat, total: nat,
                  tail: nat, rec: nat, tail': nat)
    requires Ok(inl, overflow, per, logicals, head, total, tail, rec) && tail <= tail'
    ensures Ok(inl, overflow, per, logicals, head, total, tail', rec)
    ensures Unused(Flat(inl, overflow), tail, rec)
  {
    hide Flat, Chained;
  }

  lemma BumpKeepsOk(inl: seq<nat>, overflow: seq<Words>, per: nat, logicals: seq<nat>, head: nat, total: nat,
                    tail: nat, rec: nat)
    requires Ok(inl, overflow, per, logicals, head, total, tail, rec) && total + 1 < |Flat(inl, overflow)|
    ensures Ok(inl, overflow, per, logicals, head, total + 1, tail, rec)
    ensures Flat(inl, overflow)[total] != 0 ==> total in logicals && Phase(Flat(inl, overflow), total + 1) == 0
  {
    hide Flat, Chained;
    if Flat(inl, overflow)[total] != 0 {
      SkipKeepsSpace(Flat(inl, overflow), logicals, total, tail, rec);
    }
  }

  lemma StillUnused(before: seq<nat>, after: seq<nat>, slots: seq<nat>, floor: nat, phys: nat, rec: nat)
    requires Extends(before, after, slots, floor) && Unused(before, phys, rec) && phys + rec <= floor
    ensures Unused(after, phys, rec)
  {
  }

  lemma ClaimExtends(before: seq<nat>, flat: seq<nat>, slots: seq<nat>, floor: nat, l: nat, phys: nat)
    requires Extends(before, flat, slots, floor) && l < |flat| && flat[l] == 0 && floor <= phys
    ensures Extends(before, flat[l := phys], slots + [l], floor)
  {
    var f, ls := flat[l := phys], slots + [l];
    assert ls[|slots|] == l;
    forall m | 0 <= m < |f| && f[m] != 0 && (m >= |before| || before[m] == 0) ensures m in ls && f[m] >= floor {
      if m != l {
        assert m in slots;
      }
    }
  }

  lemma InlineClaim(inl: seq<nat>, overflow: seq<Words>, per: nat, logicals: seq<nat>, head: nat, l: nat, phys: nat)
    requires Chained(inl, overflow, per, logicals, head) && l < |inl|
    ensures Chained(inl[l := phys], overflow, per, logicals, head)
  {
    hide Flat;
    forall k | 0 <= k < |overflow| ensures logicals[k] + 1 == Start(inl[l := phys], overflow, k) {
      SameShapeSameLength(inl, inl[l := phys], overflow[..k], overflow[..k], per);
      assert logicals[k] + 1 == Start(inl, overflow, k);
    }
  }

  lemma PageClaim(inl: seq<nat>, overflow: seq<Words>, per: nat, logicals: seq<nat>, head: nat, k: nat, page: Words)
    requires Chained(inl, overflow, per, logicals, head) && k < |overflow|
    requires |page| == |overflow[k]| > 0 && page[0] == overflow[k][0]
    ensures Chained(inl, overflow[k := page], per, logicals, head)
  {
    hide Flat;
    var ov := overflow[k := page];
    forall j | 0 <= j < |overflow| ensures logicals[j] + 1 == Start(inl, ov, j) && ov[j][0] == NextOf(logicals, j) {
      SameShapeSameLength(inl, inl, overflow[..j], ov[..j], per);
      assert logicals[j] + 1 == Start(inl, overflow, j);
      assert overflow[j][0] == NextOf(logicals, j);
    }
  }

  lemma ClaimInline(inl: seq<nat>, overflow: seq<Words>, per: nat, logicals: seq<nat>, head: nat, total: nat,
                    tail: nat, rec: nat, l: nat, phys: nat)
    requires Ok(inl, overflow, per, logicals, head, total, tail, rec)
    requires l < total && l < |inl| && l < |Flat(inl, overflow)| && Flat(inl, overflow)[l] == 0
    requires 0 < phys && phys + rec <= tail && Unused(Flat(inl, overflow), phys, rec)
    ensures l !in logicals && Ok(inl[l := phys], overflow, per, logicals, head, total, tail, rec)
    ensures Flat(inl[l := phys], overflow) == Flat(inl, overflow)[l := phys]
  {
    hide Flat, Chained, Space;
    ClaimKeepsSpace(Flat(inl, overflow), logicals, total, tail, rec, l, phys);
    FlatInlineWrite(inl, overflow, l, phys);
    InlineClaim(inl, overflow, per, logicals, head, l, phys);
  }

  lemma ClaimOverflow(inl: seq<nat>, overflow: seq<Words>, per: nat, logicals: seq<nat>, head: nat, total: nat,
                      tail: nat, rec: nat, k: nat, e: nat, l: nat, phys: nat)
    requires Ok(inl, overflow, per, logicals, head, total, tail, rec) && Pages(overflow, per)
    requires k < |overflow| && e < per && l == Start(inl, overflow, k) + e
    requires l < total && l < |Flat(inl, overflow)| && Flat(inl, overflow)[l] == 0
    requires 0 < phys && phys + rec <= tail && Unused(Flat(inl, overflow), phys, rec)
    ensures var ov := overflow[k := WithEntry(overflow[k], e, phys, overflow[k][0])];
      && l !in logicals
      && Ok(inl, ov, per, logicals, head, total, tail, rec)
      && Flat(inl, ov) == Flat(inl, overflow)[l := phys]
  {
    hide Flat, Chained, Space;
    ClaimKeepsSpace(Flat(inl, overflow), logicals, total, tail, rec, l, phys);
    FlatSet(inl, overflow, per, k, e, phys, overflow[k][0]);
    PageClaim(inl, overflow, per, logicals, head, k, WithEntry(overflow[k], e, phys, overflow[k][0]));
  }

  lemma PlaceOf(inl: seq<nat>, overflow: seq<Words>, per: nat, l: nat)
    requires per > 0 && Pages(overflow, per) && |inl| <= l < |Flat(inl, overflow)|
    ensures var k, e := (l - |inl|) / per, (l - |inl|) % per;
      k < |overflow| && e < per && Start(inl, overflow, k) + e == l
  {
    hide Flat;
    var k := (l - |inl|) / per;
    DivMod(l - |inl|, per);
    FlatLength(inl, overflow, per);
    assert k < |overflow| by {
      if k >= |overflow| {
        MulMonotone(|overflow|, k, per);
      }
    }
    StartIsProduct(inl, overflow, per, k);
  }

  class Table {
    const per: nat
    const recordSize: nat
    var inl: seq<nat>
    var overflow: seq<Words>
    var logicals: seq<nat>
    var head: nat
    var total: nat
    var tail: nat

    ghost predicate Valid()
      reads this
    {
      Ok(inl, overflow, per, logicals, head, total, tail, recordSize)
    }

    ghost function Entries(): seq<nat>
      reads this
    {
      Flat(inl, overflow)
    }

    /** A freshly created file: the header page and the superblock are in place. */
    constructor (inlineCount: nat, perPage: nat, size: nat)
      requires inlineCount >= 3 && perPage >= 2 && size > 0
      ensures Valid()
      ensures Entries() == Zeros(inlineCount)[1 := size] && total == 2
    {
      per, recordSize := perPage, size;
      inl := Zeros(inlineCount)[1 := size];
      overflow, logicals := [], [];
      head, total, tail := 0, 2, 2 * size;
    }

    /** Adds overflow pages until there is an entry beyond the one about to be used, so that
        a self-reference slot is always filled before allocation gets there. */
    method EnsureCapacity(needed: nat)
      requires Valid()
      modifies this`inl, this`overflow, this`logicals, this`head, this`tail
      ensures Valid() && total + needed < |Entries()| && tail >= old(tail)
      ensures Extends(old(Entries()), Entries(), logicals, old(tail)) && old(logicals) <= logicals
      ensures tail == old(tail) + Size(recordSize, |logicals| - |old(logicals)|)
      ensures old(total + needed < |Entries()|) ==> Entries() == old(Entries()) && logicals == old(logicals)
    {
      hide Flat, Chained, Space, Grown, Extends, Size;
      SizeAdds(recordSize, 0, 0);
      var required := total + needed;
      assert Pages(overflow, per) by { ChainedPages(inl, overflow, per, logicals, head); }
      FlatLength(inl, overflow, per);
      var entries := |inl| + |overflow| * per;
      ghost var before := Entries();
      assert Extends(before, before, logicals, tail) by { ExtendsReflexive(before, logicals, tail); }
      while required >= entries
        invariant Valid() && required == total + needed
        invariant entries == |Entries()| && |before| <= entries && tail >= old(tail)
        invariant Extends(before, Entries(), logicals, old(tail)) && old(logicals) <= logicals
        invariant tail == old(tail) + Size(recordSize, |logicals| - |old(logicals)|)
        invariant required < |before| ==> Entries() == before && logicals == old(logicals)
        decreases required - entries
      {
        ghost var was, ls, floor := Entries(), logicals, tail;
        Grow();
        ExtendsTransitive(before, was, Entries(), ls, logicals, old(tail), floor);
        entries := entries + per;
        SizeAdds(recordSize, |ls| - |old(logicals)|, 1);
      }
    }

    /** The slot that will hold the next overflow page's offset, and its place. */
    method SelfReference() returns (logical: nat, k: nat, e: nat)
      requires |inl| > 0 && per > 0 && Pages(overflow, per)
      ensures logical == |Flat(inl, overflow)| - 1
      ensures if overflow == [] then logical == |inl| - 1 else logical >= |inl| && k == |overflow| - 1 && e == per - 1
    {
      hide Flat;
      FlatLength(inl, overflow, per);
      logical, k, e := |inl| - 1 + |overflow| * per, 0, 0;
      if overflow != [] {
        LastEntryPlace(per, |overflow|);
      }
      if logical >= |inl| {
        k, e := (logical - |inl|) / per, (logical - |inl|) % per;
      }
    }

    /** One more overflow page: reserve its record, store its offset in the last entry so
        far, and link it into the chain. */
    method Grow()
      requires Valid()
      modifies this`inl, this`overflow, this`logicals, this`head, this`tail
      ensures Valid() && tail == old(tail) + recordSize
      ensures |Entries()| == old(|Entries()|) + per && Entries() == Grown(old(Entries()), old(tail), per)
      ensures old(Entries()) != [] && logicals == old(logicals) + [old(|Entries()|) - 1]
      ensures Extends(old(Entries()), Entries(), logicals, old(tail))
    {
      hide Flat, Chained, Space, Extends;
      assert Pages(overflow, per) && |logicals| == |overflow| by { ChainedPages(inl, overflow, per, logicals, head); }
      GrowKeepsOk(inl, overflow, per, logicals, head, total, tail, recordSize);
      FlatLength(inl, overflow, per);
      var phys := tail;
      tail := tail + recordSize;
      var logical, k, e := SelfReference();
      if logical < |inl| {
        inl := inl[logical := phys];
        head := logical;
      } else {
        overflow := overflow[k := WithEntry(overflow[k], e, phys, logical)];
      }
      overflow := overflow + [Zeros(per + 1)];
      logicals := logicals + [logical];
    }

    /** Does slot `l` need another overflow page before it may be used? */
    method NeedsGrow(l: nat) returns (grow: bool)
      requires Valid()
      ensures grow <==> l + 1 >= |Entries()|
    {
      hide Flat, Space, Chained;
      SegmentEnds(inl, overflow, per, logicals, head, total, tail, recordSize, l);
      if l < |inl| {
        return l == |inl| - 1 && inl[l] == 0;
      }
      return PageEnd(inl, overflow, per, l);
    }

    /** Stores `phys` in slot `l` if the slot is free. */
    method TryClaim(l: nat, phys: nat) returns (ok: bool)
      requires Valid() && l < total && 0 < phys && phys + recordSize <= tail && Unused(Entries(), phys, recordSize)
      modifies this`inl, this`overflow
      ensures Valid()
      ensures l < old(|Entries()|) && ok == (old(Entries())[l] == 0) && (ok ==> l !in logicals)
      ensures Entries() == if ok then old(Entries())[l := phys] else old(Entries())
    {
      hide Flat, Space, Chained;
      assert l < |Entries()| by { TotalInside(inl, overflow, per, logicals, head, total, tail, recordSize); }
      assert Pages(overflow, per) by { ChainedPages(inl, overflow, per, logicals, head); }
      LookupIsFlat(inl, overflow, per, l);
      if Lookup(inl, overflow, per, l) != 0 {
        return false;
      }
      if l < |inl| {
        ClaimInline(inl, overflow, per, logicals, head, total, tail, recordSize, l, phys);
        inl := inl[l := phys];
      } else {
        var k, e := (l - |inl|) / per, (l - |inl|) % per;
        PlaceOf(inl, overflow, per, l);
        ClaimOverflow(inl, overflow, per, logicals, head, total, tail, recordSize, k, e, l, phys);
        overflow := overflow[k := WithEntry(overflow[k], e, phys, overflow[k][0])];
      }
      return true;
    }

    /** Allocation at the tail: the first slot that is no self-reference gets a whole record
        nothing else overlaps, and no more is taken than that and the new overflow pages. */
    method Allocate(count: nat) returns (logical: nat)
      requires Valid()
      modifies this
      ensures Valid() && total == logical + 1 && logical >= old(total) && logical !in logicals
      ensures logical < |Entries()| && old(tail) <= Entries()[logical] && Entries()[logical] != 0
      ensures Entries()[logical] + recordSize <= tail && Records(Entries(), tail, recordSize)
      ensures old(logicals) <= logicals && tail == old(tail) + Size(recordSize, |logicals| - |old(logicals)| + 1)
      ensures Skipped(logicals, old(total), logical)
      ensures Extends(old(Entries()), Entries(), logicals + [logical], old(tail))
    {
      hide Flat, Space, Chained, Extends, Skipped, Size, Unused, Records;
      EnsureCapacity(count);
      assert Skipped(logicals, total, total) by { SkipNone(logicals, total); }
      var phys := tail;
      tail := tail + recordSize;
      SizeAdds(recordSize, |logicals| - |old(logicals)|, 1);
      RaiseTail(inl, overflow, per, logicals, head, total, phys, recordSize, tail);
      ghost var before := old(Entries());
      while true
        invariant Valid() && old(tail) <= phys && phys + recordSize <= tail && total >= old(total)
        invariant Unused(Entries(), phys, recordSize) && old(logicals) <= logicals
        invariant tail == old(tail) + Size(recordSize, |logicals| - |old(logicals)| + 1)
        invariant Skipped(logicals, old(total), total)
        invariant Extends(before, Entries(), logicals, old(tail))
        decreases Phase(Entries(), total)
      {
        var grow := NeedsGrow(total);
        ghost var was, ls, floor := Entries(), logicals, tail;
        if grow {
          EnsureCapacity(1);
          ExtendsTransitive(before, was, Entries(), ls, logicals, old(tail), floor);
          StillUnused(was, Entries(), logicals, floor, phys, recordSize);
          SkipMore(ls, logicals, old(total), total);
          SizeAdds(recordSize, |ls| - |old(logicals)| + 1, |logicals| - |ls|);
          assert Phase(Entries(), total) < 2;
          continue;
        }
        logical := total;
        BumpKeepsOk(inl, overflow, per, logicals, head, total, tail, recordSize);
        total := total + 1;
        SkipMore(logicals, logicals, old(total), logical);
        var claimed := TryClaim(logical, phys);
        if claimed {
          ClaimExtends(before, was, logicals, old(tail), logical, phys);
          OkRecords(inl, overflow, per, logicals, head, total, tail, recordSize);
          return;
        }
        // The claim fails only on a filled self-reference, so no growth is due here.
        grow := NeedsGrow(logical);
        assert !grow;
      }
    }
  }

  ghost function Phase(flat: seq<nat>, total: nat): nat {
    if total + 1 >= |flat| then 2 else if flat[total] != 0 then 1 else 0
  }

  // ---------------------------------------------------------------------------
  // Loading the chain back
  // ---------------------------------------------------------------------------

  lemma {:induction false} FlatPrefix(inl: seq<nat>, overflow: seq<Words>, i: nat, l: nat)
    requires i <= |overflow| && l < |Flat(inl, overflow[..i])|
    ensures l < |Flat(inl, overflow)| && Flat(inl, overflow)[l] == Flat(inl, overflow[..i])[l]
    decreases |overflow|
  {
    if i == |overflow| {
      assert overflow[..i] == overflow;
    } else {
      var front := overflow[..|overflow| - 1];
      assert front[..i] == overflow[..i];
      FlatPrefix(inl, front, i, l);
    }
  }

  /** Every overflow page's own record holds its words. */
  ghost predicate Stored(inl: seq<nat>, overflow: seq<Words>, logicals: seq<nat>, disk: map<nat, Words>) {
    |logicals| == |overflow| &&
    forall k :: 0 <= k < |overflow| ==>
      logicals[k] < |Flat(inl, overflow)| && SavedAt(disk, Flat(inl, overflow)[logicals[k]], overflow[k])
  }

  predicate SavedAt(disk: map<nat, Words>, off: nat, page: Words) {
    off in disk && disk[off] == page
  }

  /** The part of the table loaded so far resolves the next link of the chain. */
  lemma NextLink(inl: seq<nat>, overflow: seq<Words>, per: nat, logicals: seq<nat>, head: nat, total: nat, tail: nat,
                 rec: nat,
                 disk: map<nat, Words>, i: nat)
    requires Ok(inl, overflow, per, logicals, head, total, tail, rec) && Stored(inl, overflow, logicals, disk)
    requires i < |overflow|
    ensures logicals[i] != 0 && Pages(overflow[..i], per)
    ensures Lookup(inl, overflow[..i], per, logicals[i]) != 0
    ensures SavedAt(disk, Lookup(inl, overflow[..i], per, logicals[i]), overflow[i])
  {
    hide Flat, Lookup;
    assert logicals[i] + 1 == Start(inl, overflow, i);
    LookupIsFlat(inl, overflow[..i], per, logicals[i]);
    FlatPrefix(inl, overflow, i, logicals[i]);
    assert Flat(inl, overflow)[logicals[i]] > 0;
  }

  /** Follows the chain from the header, resolving each link through what has been read. */
  method Load(inl: seq<nat>, per: nat, head: nat, disk: map<nat, Words>,
              ghost saved: seq<Words>, ghost slots: seq<nat>, ghost total: nat, ghost tail: nat, ghost rec: nat)
    returns (overflow: seq<Words>, logicals: seq<nat>)
    requires Ok(inl, saved, per, slots, head, total, tail, rec) && Stored(inl, saved, slots, disk)
    ensures overflow == saved && logicals == slots
  {
    hide Flat, Lookup, Stored, Space, Start;
    overflow, logicals := [], [];
    var chain := head;
    if saved != [] {
      NextLink(inl, saved, per, slots, head, total, tail, rec, disk, 0);
    }
    while chain != 0
      invariant |overflow| <= |saved| && overflow == saved[..|overflow|] && logicals == slots[..|overflow|]
      invariant chain == if |overflow| < |saved| then slots[|overflow|] else 0
      invariant |overflow| < |saved| ==> chain != 0
      decreases |saved| - |overflow|
    {
      NextLink(inl, saved, per, slots, head, total, tail, rec, disk, |overflow|);
      var off := Lookup(inl, overflow, per, chain);
      if off == 0 || off !in disk {
        break;
      }
      assert disk[off] == saved[|overflow|];
      assert saved[|overflow|][0] == NextOf(slots, |overflow|);
      if |overflow| + 1 < |saved| {
        NextLink(inl, saved, per, slots, head, total, tail, rec, disk, |overflow| + 1);
      }
      overflow, logicals, chain := overflow + [disk[off]], logicals + [chain], disk[off][0];
    }
  }
}
