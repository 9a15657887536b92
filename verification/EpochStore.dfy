/** The mutable volume: current epoch, mapper and all page-version chains, with the
    operations of the epoch layer and the page read and write paths above it.  Each
    method is tied to the step system of EpochChain. */
module EpochStore {
  import opened Mapper
  import opened EpochChain
  import opened EpochRuns
  import opened Options
  import opened Sequences

  datatype Status = Ok | ErrIo | ErrConflict | ErrExists

  /** Epochs are stored as 32-bit tags, so the "current head" alias -1 becomes this odd tag. */
  const ALIAS_TAG: nat := 0xFFFF_FFFF

  function Tag(epoch: int): nat
    requires -1 <= epoch
  {
    if epoch == -1 then ALIAS_TAG else epoch
  }

  class PageStore {
    const pageSize: nat
    const mapper: EpochMapper
    var currentEpoch: nat
    var chains: seq<seq<Entry<Page>>>

    ghost predicate Valid()
      reads this, mapper
    {
      && mapper.Valid()
      && IsEven(currentEpoch)
      && forall k, i :: 0 <= k < |chains| && 0 <= i < |chains[k]| ==> |chains[k][i].value| == pageSize
    }

    ghost function View(k: nat): Volume<Page>
      reads this, mapper
      requires k < |chains|
    {
      Volume(currentEpoch, mapper.chain, chains[k])
    }

    constructor (size: nat, count: nat)
      ensures Valid() && fresh(mapper) && |chains| == count && pageSize == size
      ensures forall k :: 0 <= k < count ==> View(k) == Fresh<Page>()
    {
      pageSize := size;
      mapper := new EpochMapper();
      currentEpoch := 0;
      chains := seq(count, _ => []);
    }

    /** The epoch alias and epochs nobody was given are accepted here too. */
    method IsWritable(epoch: int) returns (w: bool)
      requires Valid()
      ensures w <==>
        epoch == -1 || epoch == currentEpoch || (epoch > 0 && !IsEven(epoch) && Resolve(mapper.chain, epoch) == epoch)
      ensures forall k :: 0 <= k < |chains| && 0 <= epoch < currentEpoch && View(k).Consistent() ==>
        w == View(k).Writable(epoch)
    {
      var e := if epoch == -1 then currentEpoch else epoch;
      w := e == currentEpoch;
      if !w && e > 0 && e % 2 == 1 {
        var resolved, _ := mapper.ResolveTable(e);
        w := resolved == e;
      }
      forall k | 0 <= k < |chains| && 0 <= epoch < currentEpoch && View(k).Consistent()
        ensures w == View(k).Writable(epoch)
      {
        MappedMoves(View(k), epoch);
      }
    }

    method Snapshot() returns (s: nat)
      requires Valid()
      modifies this`currentEpoch
      ensures Valid()
      ensures s == old(currentEpoch) + 1
      ensures forall k :: 0 <= k < |chains| ==> View(k) == Apply(old(View(k)), TakeSnapshot)
    {
      currentEpoch := currentEpoch + 2;
      s := currentEpoch - 1;
    }

    /** The shared chain walk: exact match, or an even epoch below, whichever comes first. */
    method ChainWalk(k: nat, r: int) returns (found: Option<Page>)
      requires Valid() && k < |chains|
      ensures found == if r < 0 then None else Read(mapper.chain, chains[k], r)
    {
      var chain := chains[k];
      var vp := 0;
      while vp < |chain|
        invariant 0 <= vp <= |chain|
        invariant forall j :: 0 <= j < vp && 0 <= r ==> !Applicable(mapper.chain, chain[j].epoch, r)
      {
        var eff := chain[vp].epoch;
        var resolved, apply := mapper.ResolveTable(eff);
        if apply {
          eff := resolved;
        }
        if eff == r || (eff < r && eff % 2 == 0) {
          return Some(chain[vp].value);
        }
        vp := vp + 1;
      }
      found := None;
    }

    /** The table is searched for the 32-bit tag, but an epoch it does not know is kept as it
        is: the alias -1 then lies below every stored epoch, and nothing is found. */
    method ReadPage(k: nat, epoch: int) returns (found: Option<Page>)
      requires Valid() && k < |chains| && -1 <= epoch
      ensures epoch >= 0 ==> found == View(k).ReadAt(epoch)
      ensures epoch == -1 && Resolve(mapper.chain, ALIAS_TAG) == ALIAS_TAG ==> found == None
      ensures epoch == -1 && Resolve(mapper.chain, ALIAS_TAG) != ALIAS_TAG ==> found == View(k).ReadAt(ALIAS_TAG)
    {
      var r, _ := mapper.ResolveTable(Tag(epoch));
      found := ChainWalk(k, if r == Tag(epoch) then epoch else r);
    }

    /** One page of a file write. */
    method WritePageAt(k: nat, epoch: int, offset: nat, data: Page) returns (ok: bool)
      requires Valid() && k < |chains| && -1 <= epoch && offset + |data| <= pageSize
      modifies this`chains
      ensures Valid() && |chains| == |old(chains)|
      ensures forall j :: 0 <= j < |chains| && j != k ==> chains[j] == old(chains)[j]
      ensures ok <==>
        epoch == -1 || epoch == currentEpoch || (epoch > 0 && !IsEven(epoch) && Resolve(mapper.chain, epoch) == epoch)
      ensures ok ==> chains[k] == WritePage(old(chains)[k], pageSize, Tag(epoch), offset, data)
      ensures !ok ==> chains == old(chains)
      ensures ok && 0 <= epoch <= currentEpoch && old(View(k)).Consistent() ==>
        var page := NewPage(old(chains)[k], pageSize, epoch, offset, data);
        Enabled(old(View(k)), Put(epoch, page)) && View(k) == Apply(old(View(k)), Put(epoch, page))
    {
      ok := IsWritable(epoch);
      if !ok {
        return;
      }
      assert 0 <= epoch <= currentEpoch && View(k).Consistent() ==> View(k).Writable(epoch);
      hide WritePage, NewPage;
      if 0 <= epoch <= currentEpoch && View(k).Writable(epoch) {
        WriteIsPut(View(k), pageSize, epoch, offset, data);
      }
      var chain := Written(chains[k], pageSize, Tag(epoch), offset, data);
      chains := chains[k := chain];
    }

    /** The chain after the write: in place, or a new version copied from the base. */
    static method Written(chain: seq<Entry<Page>>, size: nat, tag: nat, offset: nat, data: Page)
      returns (next: seq<Entry<Page>>)
      requires offset + |data| <= size && forall i :: 0 <= i < |chain| ==> |chain[i].value| == size
      ensures next == WritePage(chain, size, tag, offset, data)
      ensures forall i :: 0 <= i < |next| ==> |next[i].value| == size
    {
      hide CopyBase, FirstStored, Overlay;
      var vp := FindOwn(chain, tag);
      if vp < |chain| {
        return chain[vp := Entry(tag, Overlay(chain[vp].value, offset, data))];
      }
      var b := FindBase(chain, tag);
      var base := if b < |chain| then chain[b].value else Zeros(size);
      return [Entry(tag, Overlay(base, offset, data))] + chain;
    }

    /** The version this epoch may change in place. */
    static method FindOwn(chain: seq<Entry<Page>>, tag: nat) returns (vp: nat)
      ensures vp == FirstStored(chain, tag)
    {
      vp := 0;
      while vp < |chain| && chain[vp].epoch != tag
        invariant 0 <= vp <= |chain|
        invariant forall j :: 0 <= j < vp ==> chain[j].epoch != tag
      {
        vp := vp + 1;
      }
    }

    /** The version a copy starts from. */
    static method FindBase(chain: seq<Entry<Page>>, tag: nat) returns (b: nat)
      ensures b == CopyBase(chain, tag)
    {
      b := 0;
      while b < |chain| && !(chain[b].epoch < tag && chain[b].epoch % 2 == 0)
        invariant 0 <= b <= |chain|
        invariant forall j :: 0 <= j < b ==> !(chain[j].epoch < tag && IsEven(chain[j].epoch))
      {
        b := b + 1;
      }
    }

    /** The per-page conflict check: one pass, two flags. */
    method ScanChain(k: nat, s: nat) returns (conflict: bool)
      requires Valid() && k < |chains|
      ensures conflict == Conflict(mapper.chain, chains[k], s)
    {
      var chain := chains[k];
      var hasSnapshot, hasLive := false, false;
      var vp := 0;
      while vp < |chain|
        invariant 0 <= vp <= |chain|
        invariant hasSnapshot <==> exists i :: 0 <= i < vp && Effective(mapper.chain, chain[i].epoch) == s
        invariant hasLive <==> exists i :: 0 <= i < vp && HeadSide(mapper.chain, chain[i].epoch, s)
      {
        var eff := chain[vp].epoch;
        var resolved, apply := mapper.ResolveTable(eff);
        if apply {
          eff := resolved;
        }
        if eff == s {
          hasSnapshot := true;
        }
        if eff > s && eff % 2 == 0 {
          hasLive := true;
        }
        vp := vp + 1;
      }
      conflict := hasSnapshot && hasLive;
    }

    /** `visited` are the chains the directory walk reaches and scans.  Every chain takes the
        step of the step system; the snapshot number itself is not checked against the
        ones issued. */
    method CommitSnapshot(s: nat, visited: seq<nat>) returns (rc: Status)
      requires Valid()
      requires forall i :: 0 <= i < |visited| ==> visited[i] < |chains|
      modifies mapper
      ensures Valid()
      ensures rc.ErrIo? <==> IsEven(s) || Resolve(old(mapper.chain), s) != s
      ensures rc.ErrConflict? <==>
        !rc.ErrIo? && exists i :: 0 <= i < |visited| && Conflict(old(mapper.chain), chains[visited[i]], s)
      ensures rc.ErrExists? <==> !rc.ErrIo? && !rc.ErrConflict? && !Accepts(old(mapper.chain), s, currentEpoch)
      ensures rc.Ok? ==> mapper.chain == [Mapping(s, currentEpoch, true)] + old(mapper.chain)
      ensures !rc.Ok? ==> mapper.chain == old(mapper.chain)
      ensures rc.Ok? && s < currentEpoch ==>
        forall k :: 0 <= k < |chains| && old(View(k)).Consistent() ==>
          Enabled(old(View(k)), Commit(s)) && View(k) == Apply(old(View(k)), Commit(s))
      ensures rc.Ok? ==> forall i :: 0 <= i < |visited| ==> Clear(old(View(visited[i])), Commit(s))
    {
      if s % 2 == 0 {
        return ErrIo;
      }
      var resolved := mapper.ResolveChain(s);
      if resolved != s {
        return ErrIo;
      }
      var n := 0;
      while n < |visited|
        modifies {}
        invariant 0 <= n <= |visited|
        invariant forall i :: 0 <= i < n ==> !Conflict(mapper.chain, chains[visited[i]], s)
      {
        var conflict := ScanChain(visited[n], s);
        if conflict {
          return ErrConflict;
        }
        n := n + 1;
      }
      forall k | 0 <= k < |chains| && View(k).Consistent() && s < currentEpoch
        ensures View(k).Active(s)
      {
        MappedMoves(View(k), s);
      }
      var ok := mapper.Insert(s, currentEpoch, true);
      if !ok {
        return ErrExists;
      }
      return Ok;
    }

    method DeleteSnapshot(s: nat) returns (rc: Status)
      requires Valid()
      modifies mapper
      ensures Valid()
      ensures rc.ErrIo? <==> IsEven(s) || Resolve(old(mapper.chain), s) != s
      ensures rc.ErrExists? <==> !rc.ErrIo? && !Accepts(old(mapper.chain), s, s - 1)
      ensures !rc.ErrConflict?
      ensures rc.Ok? ==> mapper.chain == [Mapping(s, s - 1, false)] + old(mapper.chain)
      ensures !rc.Ok? ==> mapper.chain == old(mapper.chain)
      ensures rc.Ok? && s < currentEpoch ==>
        forall k :: 0 <= k < |chains| && old(View(k)).Consistent() ==>
          Enabled(old(View(k)), SoftDelete(s)) && View(k) == Apply(old(View(k)), SoftDelete(s))
    {
      if s % 2 == 0 {
        return ErrIo;
      }
      var resolved := mapper.ResolveChain(s);
      if resolved != s {
        return ErrIo;
      }
      forall k | 0 <= k < |chains| && View(k).Consistent() && s < currentEpoch
        ensures View(k).Active(s)
      {
        MappedMoves(View(k), s);
      }
      var ok := mapper.Insert(s, s - 1, false);
      if !ok {
        return ErrExists;
      }
      return Ok;
    }
  }

  lemma WriteIsPut(v: Volume<Page>, size: nat, e: nat, offset: nat, data: Page)
    requires offset + |data| <= size && v.Writable(e)
    requires forall i :: 0 <= i < |v.chain| ==> |v.chain[i].value| == size
    ensures v.(chain := WritePage(v.chain, size, e, offset, data))
            == Apply(v, Put(e, NewPage(v.chain, size, e, offset, data)))
  {
    hide NewPage, Store;
  }

  /** In a valid volume "resolves to itself" and "has no mapping" are the same test. */
  lemma MappedMoves<V>(v: Volume<V>, s: nat)
    requires v.MapperValid()
    ensures Resolve(v.mapper, s) == s <==> !IsSource(v.mapper, s)
    ensures IsEven(s) ==> !IsSource(v.mapper, s)
  {
    if IsSource(v.mapper, s) {
      var k :| 0 <= k < |v.mapper| && v.mapper[k].from == s;
      DistinctSources(v.mapper);
      ResolveAt(v.mapper, k);
      assert v.MappingValid(v.mapper[k]);
    } else {
      ResolveUnmapped(v.mapper, s);
    }
  }

  /** A page written through the head alias lands under an odd tag no reader looks at: the
      head and every snapshot read what they read before. */
  lemma AliasWriteIsInvisible(v: Volume<Page>, page: Page, e: nat)
    requires v.MapperValid() && v.head < ALIAS_TAG && e <= v.head
    ensures v.(chain := Store(v.chain, Tag(-1), page)).ReadAt(e) == v.ReadAt(e)
  {
    hide Pick;
    EffectiveCases(v, ALIAS_TAG);
    MappedMoves(v, e);
    if IsSource(v.mapper, e) {
      var k :| 0 <= k < |v.mapper| && v.mapper[k].from == e;
      DistinctSources(v.mapper);
      ResolveAt(v.mapper, k);
      assert v.MappingValid(v.mapper[k]);
    }
    var r := Resolve(v.mapper, e);
    PickPastFront(v.mapper, Entry(ALIAS_TAG, page), v.chain, r);
    SamePickAfterStore(v, page, r);
  }

  lemma SamePickAfterStore(v: Volume<Page>, page: Page, r: nat)
    ensures var k := FirstStored(v.chain, ALIAS_TAG);
      k < |v.chain| ==> Pick(v.mapper, v.chain[k := Entry(ALIAS_TAG, page)], r) == Pick(v.mapper, v.chain, r)
  {
    hide Pick, Applicable;
    var k := FirstStored(v.chain, ALIAS_TAG);
    if k < |v.chain| {
      SamePick(v.mapper, v.chain[k := Entry(ALIAS_TAG, page)], r, v.mapper, v.chain, r);
    }
  }

  /** Writability does not ask whether an odd epoch was ever issued.  Written before it is
      issued, epoch 1 makes the snapshot taken next read something its base never held;
      `SnapshotReadsBaseIff` says exactly when. */
  lemma UnissuedWriteBreaksSnapshot(page: Page)
    ensures
      var v := Volume(0, [], []);
      var early := v.(chain := Store(v.chain, 1, page));
      && Resolve(v.mapper, 1) == 1
      && early.ReadAt(v.head) == None
      && FirstStored(early.chain, 1) < Pick(early.mapper, early.chain, 0)
      && Apply(early, TakeSnapshot).ReadAt(1) == Some(page)
  {
    var early: Volume<Page> := Volume(0, [], [Entry(1, page)]);
    assert Pick<Page>([], early.chain, 0) == 1;
    assert Pick<Page>([], early.chain, 1) == 0;
  }
}
