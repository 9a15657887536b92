/** The epoch mapper: single-hop mappings from a retired snapshot epoch to an even
    epoch.  The durable form is a chain that grows at the front; queries are served
    from an in-memory table that grows at the back and can be rebuilt from the chain. */
module Mapper {

  /** One mapping.  `apply` is the traversal flag: set by commit, clear for soft-delete. */
  datatype Mapping = Mapping(from: nat, to: nat, apply: bool)

  predicate IsEven(e: int) {
    e % 2 == 0
  }

  /** The first entry whose source is `e` decides; an unmapped epoch resolves to itself. */
  function Resolve(ms: seq<Mapping>, e: nat): nat {
    if ms == [] then e
    else if ms[0].from == e then ms[0].to
    else Resolve(ms[1..], e)
  }

  function Applies(ms: seq<Mapping>, e: nat): bool {
    if ms == [] then false
    else if ms[0].from == e then ms[0].apply
    else Applies(ms[1..], e)
  }

  predicate IsSource(ms: seq<Mapping>, e: nat) {
    exists i :: 0 <= i < |ms| && ms[i].from == e
  }

  predicate IsTarget(ms: seq<Mapping>, e: nat) {
    exists i :: 0 <= i < |ms| && ms[i].to == e
  }

  /** The four refusals of an insertion, for one existing entry. */
  predicate Clashes(m: Mapping, from: nat, to: nat) {
    m.from == from || m.to == to || m.from == to || m.to == from
  }

  predicate Accepts(ms: seq<Mapping>, from: nat, to: nat) {
    forall i :: 0 <= i < |ms| ==> !Clashes(ms[i], from, to)
  }

  /** No two entries share a source or a target, or chain through a common epoch. */
  ghost predicate SingleHop(ms: seq<Mapping>) {
    forall i, j :: 0 <= i < |ms| && 0 <= j < |ms| && i != j ==> !Clashes(ms[i], ms[j].from, ms[j].to)
  }

  lemma {:induction false} ResolveUnmapped(ms: seq<Mapping>, e: nat)
    requires !IsSource(ms, e)
    ensures Resolve(ms, e) == e && !Applies(ms, e)
  {
    if ms != [] {
      assert ms[0].from != e;
      assert forall i :: 0 <= i < |ms[1..]| ==> ms[1..][i] == ms[i + 1];
      ResolveUnmapped(ms[1..], e);
    }
  }

  lemma {:induction false} ResolveAt(ms: seq<Mapping>, k: nat)
    requires k < |ms|
    requires forall i, j :: 0 <= i < j < |ms| ==> ms[i].from != ms[j].from
    ensures Resolve(ms, ms[k].from) == ms[k].to
    ensures Applies(ms, ms[k].from) == ms[k].apply
  {
    if k > 0 {
      assert ms[0].from != ms[k].from;
      assert ms[1..][k - 1] == ms[k];
      ResolveAt(ms[1..], k - 1);
    }
  }

  lemma DistinctSources(ms: seq<Mapping>)
    requires SingleHop(ms)
    ensures forall i, j :: 0 <= i < j < |ms| ==> ms[i].from != ms[j].from
  {
    forall i, j | 0 <= i < j < |ms| ensures ms[i].from != ms[j].from {
      assert !Clashes(ms[i], ms[j].from, ms[j].to);
    }
  }

  /** Resolving twice is resolving once. */
  lemma ResolveIdempotent(ms: seq<Mapping>, e: nat)
    requires SingleHop(ms)
    ensures Resolve(ms, Resolve(ms, e)) == Resolve(ms, e)
  {
    if IsSource(ms, e) {
      var k :| 0 <= k < |ms| && ms[k].from == e;
      DistinctSources(ms);
      ResolveAt(ms, k);
      if ms[k].to != e {
        assert !IsSource(ms, ms[k].to) by {
          forall i | 0 <= i < |ms| ensures ms[i].from != ms[k].to {
            if i != k {
              assert !Clashes(ms[i], ms[k].from, ms[k].to);
            }
          }
        }
        ResolveUnmapped(ms, ms[k].to);
      }
    } else {
      ResolveUnmapped(ms, e);
    }
  }

  /** An accepted insertion keeps the mapper single-hop; a refused one would break it. */
  lemma AcceptsIffSingleHop(ms: seq<Mapping>, m: Mapping)
    requires SingleHop(ms)
    ensures Accepts(ms, m.from, m.to) <==> SingleHop([m] + ms)
  {
    var ns := [m] + ms;
    if Accepts(ms, m.from, m.to) {
      forall i, j | 0 <= i < |ns| && 0 <= j < |ns| && i != j
        ensures !Clashes(ns[i], ns[j].from, ns[j].to)
      {
        if i == 0 {
          assert !Clashes(ms[j - 1], m.from, m.to);
        } else if j == 0 {
          assert !Clashes(ms[i - 1], m.from, m.to);
        } else {
          assert !Clashes(ms[i - 1], ms[j - 1].from, ms[j - 1].to);
        }
      }
    }
    if SingleHop(ns) {
      forall i | 0 <= i < |ms| ensures !Clashes(ms[i], m.from, m.to) {
        assert ms[i] == ns[i + 1];
        assert !Clashes(ns[i + 1], ns[0].from, ns[0].to);
      }
    }
  }

  /** What a new mapping does to every query: its own source moves, nothing else. */
  lemma ResolveAfterInsert(ms: seq<Mapping>, m: Mapping, e: nat)
    ensures Resolve([m] + ms, e) == if e == m.from then m.to else Resolve(ms, e)
    ensures Applies([m] + ms, e) == if e == m.from then m.apply else Applies(ms, e)
  {
    assert ([m] + ms)[1..] == ms;
  }

  ghost predicate SameEntries(xs: seq<Mapping>, ys: seq<Mapping>) {
    forall m: Mapping :: m in xs <==> m in ys
  }

  /** Two single-hop lists with the same entries answer every query alike, in any order. */
  lemma SameEntriesSameAnswers(xs: seq<Mapping>, ys: seq<Mapping>, e: nat)
    requires SingleHop(xs) && SingleHop(ys) && SameEntries(xs, ys)
    ensures Resolve(xs, e) == Resolve(ys, e)
    ensures Applies(xs, e) == Applies(ys, e)
  {
    if IsSource(xs, e) {
      var i :| 0 <= i < |xs| && xs[i].from == e;
      assert xs[i] in ys;
      var j :| 0 <= j < |ys| && ys[j] == xs[i];
      DistinctSources(xs);
      DistinctSources(ys);
      ResolveAt(xs, i);
      ResolveAt(ys, j);
    } else {
      forall j | 0 <= j < |ys| ensures ys[j].from != e {
        assert ys[j] in xs;
      }
      ResolveUnmapped(xs, e);
      ResolveUnmapped(ys, e);
    }
  }

  lemma AppendKeepsSingleHop(ms: seq<Mapping>, m: Mapping)
    requires SingleHop([m] + ms)
    ensures SingleHop(ms + [m])
  {
    var ns := [m] + ms;
    var ps := ms + [m];
    forall i, j | 0 <= i < |ps| && 0 <= j < |ps| && i != j
      ensures !Clashes(ps[i], ps[j].from, ps[j].to)
    {
      var i' := if i < |ms| then i + 1 else 0;
      var j' := if j < |ms| then j + 1 else 0;
      assert ps[i] == ns[i'] && ps[j] == ns[j'];
    }
  }

  lemma SameEntriesSingleHopInsert(xs: seq<Mapping>, ys: seq<Mapping>, m: Mapping)
    requires SingleHop([m] + xs) && SingleHop(ys) && SameEntries(xs, ys)
    ensures SingleHop(ys + [m])
    ensures SameEntries([m] + xs, ys + [m])
  {
    assert Accepts(ys, m.from, m.to) by {
      forall i | 0 <= i < |ys| ensures !Clashes(ys[i], m.from, m.to) {
        assert ys[i] in xs;
        var j :| 0 <= j < |xs| && xs[j] == ys[i];
        assert ([m] + xs)[j + 1] == xs[j] && ([m] + xs)[0] == m;
        assert !Clashes(([m] + xs)[j + 1], ([m] + xs)[0].from, ([m] + xs)[0].to);
      }
    }
    assert ([m] + xs)[0] == m;
    AcceptsIffSingleHop(ys, m);
    AppendKeepsSingleHop(ys, m);
  }

  /** The mapper as the source keeps it: `chain` is the pool chain (newest first),
      `table` the array of cached rows. */
  class EpochMapper {
    var chain: seq<Mapping>
    var table: seq<Mapping>

    ghost predicate Valid()
      reads this
    {
      && SingleHop(chain)
      && SingleHop(table)
      && SameEntries(chain, table)
    }

    constructor ()
      ensures Valid() && chain == [] && table == []
    {
      chain, table := [], [];
    }

    /** Walks the whole chain before it prepends. */
    method Insert(from: nat, to: nat, apply: bool) returns (ok: bool)
      requires Valid()
      modifies this
      ensures Valid()
      ensures ok == Accepts(old(chain), from, to)
      ensures ok ==> chain == [Mapping(from, to, apply)] + old(chain)
      ensures ok ==> table == old(table) + [Mapping(from, to, apply)]
      ensures !ok ==> chain == old(chain) && table == old(table)
    {
      var vp := 0;
      while vp < |chain|
        invariant 0 <= vp <= |chain|
        invariant forall i :: 0 <= i < vp ==> !Clashes(chain[i], from, to)
      {
        var m := chain[vp];
        if m.from == from || m.to == to || m.from == to || m.to == from {
          return false;
        }
        vp := vp + 1;
      }
      var m := Mapping(from, to, apply);
      AcceptsIffSingleHop(chain, m);
      SameEntriesSingleHopInsert(chain, table, m);
      chain := [m] + chain;
      table := table + [m];
      ok := true;
    }

    method ResolveChain(e: nat) returns (r: nat)
      ensures r == Resolve(chain, e)
    {
      var vp := 0;
      while vp < |chain|
        invariant 0 <= vp <= |chain|
        invariant Resolve(chain, e) == Resolve(chain[vp..], e)
      {
        if chain[vp].from == e {
          return chain[vp].to;
        }
        vp := vp + 1;
      }
      r := e;
    }

    /** The query path scans the table, and still answers for the chain. */
    method ResolveTable(e: nat) returns (r: nat, apply: bool)
      requires Valid()
      ensures r == Resolve(chain, e) && apply == Applies(chain, e)
    {
      SameEntriesSameAnswers(chain, table, e);
      for i := 0 to |table|
        invariant Resolve(table, e) == Resolve(table[i..], e)
        invariant Applies(table, e) == Applies(table[i..], e)
      {
        if table[i].from == e {
          return table[i].to, table[i].apply;
        }
      }
      r, apply := e, false;
    }

    /** Re-reads the chain front to back into a fresh table. */
    method Rebuild()
      requires Valid()
      modifies this`table
      ensures Valid()
      ensures table == chain
    {
      var rows: seq<Mapping> := [];
      var vp := 0;
      while vp < |chain|
        invariant 0 <= vp <= |chain|
        invariant rows == chain[..vp]
      {
        rows := rows + [chain[vp]];
        vp := vp + 1;
      }
      table := rows;
    }
  }
}
