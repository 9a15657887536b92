/** The write-back page cache: hash buckets of entries, newest first.  Writes stay here until
    a flush. */
module PageCache {
  import opened Mirror
  import opened Options

  datatype CacheEntry = CacheEntry(page: int, payload: Payload, priority: nat, dirty: bool)

  // ---------------------------------------------------------------------------
  // One hash bucket
  // ---------------------------------------------------------------------------

  function FindIn(b: seq<CacheEntry>, page: int): Option<CacheEntry> {
    if b == [] then None
    else if b[0].page == page then Some(b[0])
    else FindIn(b[1..], page)
  }

  function ReplaceIn(b: seq<CacheEntry>, e: CacheEntry): seq<CacheEntry> {
    if b == [] then []
    else if b[0].page == e.page then [e] + b[1..]
    else [b[0]] + ReplaceIn(b[1..], e)
  }

  predicate DistinctPages(b: seq<CacheEntry>) {
    forall i, j :: 0 <= i < j < |b| ==> b[i].page != b[j].page
  }

  lemma {:induction false} FindAfterReplace(b: seq<CacheEntry>, e: CacheEntry, page: int)
    requires FindIn(b, e.page).Some?
    ensures FindIn(ReplaceIn(b, e), page) == if page == e.page then Some(e) else FindIn(b, page)
    ensures |ReplaceIn(b, e)| == |b|
    ensures forall i :: 0 <= i < |b| ==> ReplaceIn(b, e)[i].page == b[i].page
  {
    if b[0].page == e.page {
      assert ([e] + b[1..])[1..] == b[1..];
    } else {
      FindAfterReplace(b[1..], e, page);
      var r := ReplaceIn(b[1..], e);
      assert ([b[0]] + r)[1..] == r;
      forall i | 0 <= i < |b| ensures ReplaceIn(b, e)[i].page == b[i].page {
        if i > 0 {
          assert b[1..][i - 1] == b[i];
        }
      }
    }
  }

  lemma {:induction false} FindAt(b: seq<CacheEntry>, i: nat)
    requires i < |b| && DistinctPages(b)
    ensures FindIn(b, b[i].page) == Some(b[i])
  {
    if i > 0 {
      assert b[0].page != b[i].page;
      assert b[1..][i - 1] == b[i];
      FindAt(b[1..], i - 1);
    }
  }

  lemma {:induction false} FindIsMember(b: seq<CacheEntry>, page: int)
    requires FindIn(b, page).Some?
    ensures exists i :: 0 <= i < |b| && b[i] == FindIn(b, page).value && b[i].page == page
  {
    if b[0].page != page {
      FindIsMember(b[1..], page);
      var i :| 0 <= i < |b[1..]| && b[1..][i] == FindIn(b[1..], page).value && b[1..][i].page == page;
      assert b[i + 1] == b[1..][i];
    }
  }

  // ---------------------------------------------------------------------------
  // The cache
  // ---------------------------------------------------------------------------

  class Cache {
    const bucketOf: int -> nat
    const bucketCount: nat
    var buckets: seq<seq<CacheEntry>>
    ghost var entries: map<int, CacheEntry>

    function Slot(page: int): (k: nat)
      requires bucketCount > 0
      ensures k < bucketCount
    {
      bucketOf(page) % bucketCount
    }

    ghost predicate Valid()
      reads this
    {
      && bucketCount > 0
      && |buckets| == bucketCount
      && (forall k :: 0 <= k < bucketCount ==> DistinctPages(buckets[k]))
      && (forall k, i :: 0 <= k < bucketCount && 0 <= i < |buckets[k]| ==> Slot(buckets[k][i].page) == k)
      && (forall p: int :: FindIn(buckets[Slot(p)], p) == if p in entries then Some(entries[p]) else None)
      && (forall p :: p in entries ==> entries[p].page == p)
    }

    constructor (hash: int -> nat, count: nat)
      requires count > 0
      ensures Valid() && entries == map[]
    {
      bucketOf, bucketCount := hash, count;
      buckets := seq(count, _ => []);
      entries := map[];
    }

    method Find(page: int) returns (r: Option<CacheEntry>)
      requires Valid()
      ensures r == if page in entries then Some(entries[page]) else None
    {
      var b := buckets[Slot(page)];
      var i := 0;
      while i < |b|
        invariant 0 <= i <= |b|
        invariant FindIn(b, page) == FindIn(b[i..], page)
      {
        if b[i].page == page {
          return Some(b[i]);
        }
        i := i + 1;
      }
      r := None;
    }

    method SetEntry(e: CacheEntry)
      requires Valid() && e.page in entries
      modifies this
      ensures Valid() && entries == old(entries)[e.page := e]
    {
      var k := Slot(e.page);
      ghost var before := buckets[k];
      forall p: int ensures FindIn(ReplaceIn(before, e), p) == if p == e.page then Some(e) else FindIn(before, p) {
        FindAfterReplace(before, e, p);
      }
      FindAfterReplace(before, e, e.page);
      buckets := buckets[k := ReplaceIn(buckets[k], e)];
      entries := entries[e.page := e];
    }

    /** Updates the entry in place or prepends a new one.  A clean insert never clears the
        dirty flag of an existing entry. */
    method Insert(page: int, payload: Payload, priority: nat, dirty: bool)
      requires Valid()
      modifies this
      ensures Valid()
      ensures var wasDirty := page in old(entries) && old(entries)[page].dirty;
        entries == old(entries)[page := CacheEntry(page, payload, priority, dirty || wasDirty)]
    {
      var found := Find(page);
      if found.Some? {
        SetEntry(CacheEntry(page, payload, priority, dirty || found.value.dirty));
      } else {
        var k := Slot(page);
        var e := CacheEntry(page, payload, priority, dirty);
        ghost var before := buckets[k];
        assert ([e] + before)[1..] == before;
        forall i | 0 <= i < |before| ensures before[i].page != page {
          FindAt(before, i);
        }
        buckets := buckets[k := [e] + buckets[k]];
        entries := entries[page := e];
      }
    }

    method MarkDirty(page: int, priority: nat)
      requires Valid()
      modifies this
      ensures Valid()
      ensures page in old(entries) ==>
        entries == old(entries)[page := old(entries)[page].(dirty := true, priority := priority)]
      ensures page !in old(entries) ==> entries == old(entries)
    {
      var found := Find(page);
      if found.Some? {
        SetEntry(found.value.(dirty := true, priority := priority));
      }
    }

    method MarkClean(page: int)
      requires Valid()
      modifies this
      ensures Valid()
      ensures entries ==
        if page in old(entries) then old(entries)[page := old(entries)[page].(dirty := false)] else old(entries)
    {
      var found := Find(page);
      if found.Some? {
        SetEntry(found.value.(dirty := false));
      }
    }

    method Clear()
      requires Valid()
      modifies this
      ensures Valid() && entries == map[]
    {
      buckets := seq(bucketCount, _ => []);
      entries := map[];
    }

    /** First phase of a flush round: the allocated dirty pages of one priority. */
    method CollectDirty(priority: nat, indir: Indirection) returns (pages: seq<int>)
      requires Valid()
      ensures forall p :: p in pages <==>
        p in entries && entries[p].dirty && entries[p].priority == priority && Lookup(indir, p) != 0
    {
      pages := [];
      for k := 0 to bucketCount
        invariant forall p :: p in pages <==> p in entries && Slot(p) < k && Due(entries[p], priority, indir)
      {
        var b := buckets[k];
        for i := 0 to |b|
          invariant forall p :: p in pages <==>
            p in entries && Due(entries[p], priority, indir) &&
            (Slot(p) < k || (Slot(p) == k && exists j :: 0 <= j < i && b[j].page == p))
        {
          FindAt(b, i);
          assert b[i].page in entries && entries[b[i].page] == b[i];
          if Due(b[i], priority, indir) {
            pages := pages + [b[i].page];
          }
        }
        forall p | p in entries && Slot(p) == k ensures exists j :: 0 <= j < |b| && b[j].page == p {
          FindIsMember(b, p);
        }
      }
    }
  }

  predicate Due(e: CacheEntry, priority: nat, indir: Indirection) {
    e.dirty && e.priority == priority && Lookup(indir, e.page) != 0
  }
}
