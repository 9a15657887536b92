/** What readers are promised across whole runs: isolation of snapshots, an immutable past,
    commit and soft-delete semantics.  The first two do not need the conflict scan; where
    a promise does need a condition, it is stated exactly. */
module EpochRuns {
  import opened Mapper
  import opened EpochChain
  import opened Options
  import opened Sequences

  // ---------------------------------------------------------------------------
  // Reads that a step cannot change
  // ---------------------------------------------------------------------------

  /** The pick is determined by which entries are applicable. */
  lemma SamePick<V>(ms: seq<Mapping>, xs: seq<Entry<V>>, r: nat, ms': seq<Mapping>, ys: seq<Entry<V>>, r': nat)
    requires |xs| == |ys|
    requires forall i :: 0 <= i < |xs| ==> (Applicable(ms, xs[i].epoch, r) <==> Applicable(ms', ys[i].epoch, r'))
    ensures Pick(ms, xs, r) == Pick(ms', ys, r')
  {
  }

  lemma PickPastFront<V>(ms: seq<Mapping>, front: Entry<V>, chain: seq<Entry<V>>, r: nat)
    ensures Applicable(ms, front.epoch, r) ==> Pick(ms, [front] + chain, r) == 0
    ensures !Applicable(ms, front.epoch, r) ==> Pick(ms, [front] + chain, r) == 1 + Pick(ms, chain, r)
  {
    assert ([front] + chain)[1..] == chain;
  }

  /** An epoch whose contents later steps must respect: an active snapshot or a past head. */
  predicate Settled<V>(v: Volume<V>, r: nat) {
    v.Active(r) || (IsEven(r) && r < v.head)
  }

  predicate WritesAt<V>(step: Step<V>, r: nat) {
    (step.Put? || step.Prepend?) && step.epoch == r
  }

  lemma SettledUnmapped<V>(v: Volume<V>, r: nat)
    requires v.Consistent() && Settled(v, r)
    ensures !IsSource(v.mapper, r) && Resolve(v.mapper, r) == r && Effective(v.mapper, r) == r
  {
    EffectiveCases(v, r);
    ResolveUnmapped(v.mapper, r);
  }

  /** One step: unless it writes at `r` itself, a read at `r` gives the same answer. */
  lemma StepKeepsRead<V>(v: Volume<V>, step: Step<V>, r: nat)
    requires v.Consistent() && Enabled(v, step) && Settled(v, r) && !WritesAt(step, r) && !Retires(step, r)
    ensures Read(Apply(v, step).mapper, Apply(v, step).chain, r) == Read(v.mapper, v.chain, r)
  {
    hide Applicable, Pick, Conflict, Accepts;
    var w := Apply(v, step);
    match step
    case TakeSnapshot =>
    case Put(e, value) =>
      WriteElsewhereInapplicable(v, e, r);
      if Wrote(v.chain, e) {
        SamePick(v.mapper, v.chain, r, v.mapper, w.chain, r);
      } else {
        PickPastFront(v.mapper, Entry(e, value), v.chain, r);
      }
    case Prepend(e, value) =>
      WriteElsewhereInapplicable(v, e, r);
      PickPastFront(v.mapper, Entry(e, value), v.chain, r);
    case Commit(s) =>
      forall i | 0 <= i < |v.chain|
        ensures Applicable(v.mapper, v.chain[i].epoch, r) <==> Applicable(w.mapper, v.chain[i].epoch, r)
      {
        CommitKeepsApplicable(v, s, v.chain[i].epoch, r);
      }
      SamePick(v.mapper, v.chain, r, w.mapper, w.chain, r);
    case SoftDelete(s) =>
      forall i | 0 <= i < |v.chain|
        ensures Applicable(v.mapper, v.chain[i].epoch, r) <==> Applicable(w.mapper, v.chain[i].epoch, r)
      {
        DeleteKeepsApplicable(v, s, v.chain[i].epoch, r);
      }
      SamePick(v.mapper, v.chain, r, w.mapper, w.chain, r);
  }

  lemma CommitKeepsApplicable<V>(v: Volume<V>, s: nat, e: nat, r: nat)
    requires v.Consistent() && v.Active(s) && Settled(v, r) && s != r
    ensures Applicable(v.mapper, e, r) <==> Applicable([Mapping(s, v.head, true)] + v.mapper, e, r)
  {
    EffectiveAfterInsert(v.mapper, Mapping(s, v.head, true), e);
    EffectiveCases(v, e);
  }

  lemma DeleteKeepsApplicable<V>(v: Volume<V>, s: nat, e: nat, r: nat)
    requires v.Consistent() && v.Active(s) && Settled(v, r) && s != r
    ensures Applicable(v.mapper, e, r) <==> Applicable([Mapping(s, s - 1, false)] + v.mapper, e, r)
  {
    EffectiveAfterInsert(v.mapper, Mapping(s, s - 1, false), e);
    EffectiveCases(v, e);
  }

  lemma WriteElsewhereInapplicable<V>(v: Volume<V>, e: nat, r: nat)
    requires v.Consistent() && v.Writable(e) && Settled(v, r) && e != r
    ensures !Applicable(v.mapper, e, r)
  {
    EffectiveCases(v, e);
  }

  predicate Retires<V>(step: Step<V>, s: nat) {
    (step.Commit? || step.SoftDelete?) && step.snapshot == s
  }

  /** Steps that leave epoch `r` alone: no write at it, no commit or soft-delete of it. */
  predicate Untouched<V>(steps: seq<Step<V>>, r: nat) {
    forall i :: 0 <= i < |steps| ==> !WritesAt(steps[i], r) && !Retires(steps[i], r)
  }

  lemma StepKeepsSettled<V>(v: Volume<V>, step: Step<V>, r: nat)
    requires v.Consistent() && Enabled(v, step) && Settled(v, r) && !Retires(step, r)
    ensures Settled(Apply(v, step), r)
  {
    var w := Apply(v, step);
    if v.Active(r) {
      forall i | 0 <= i < |w.mapper| ensures w.mapper[i].from != r {
        if w.mapper == v.mapper {
        } else if i > 0 {
          assert w.mapper[i] == v.mapper[i - 1];
        }
      }
    }
  }

  /** Isolation over whole runs: what an active snapshot (or any past head) reads changes
      only through writes at that very epoch.  Head writes, other snapshots' writes,
      commits and deletes are all invisible. */
  lemma {:induction false} RunKeepsRead<V>(v: Volume<V>, steps: seq<Step<V>>, r: nat)
    requires v.Consistent() && Run(v, steps) && Settled(v, r) && Untouched(steps, r)
    ensures After(v, steps).ReadAt(r) == v.ReadAt(r)
    decreases |steps|
  {
    SettledUnmapped(v, r);
    if steps != [] {
      var w := Apply(v, steps[0]);
      StepKeepsRead(v, steps[0], r);
      StepKeepsSettled(v, steps[0], r);
      StepKeepsConsistent(v, steps[0]);
      SettledUnmapped(w, r);
      assert Untouched(steps[1..], r);
      RunKeepsRead(w, steps[1..], r);
    }
  }

  /** A past head is never writable again, so its contents are immutable outright. */
  lemma {:induction false} PastIsImmutable<V>(v: Volume<V>, steps: seq<Step<V>>, r: nat)
    requires v.Consistent() && Run(v, steps) && IsEven(r) && r < v.head
    ensures After(v, steps).ReadAt(r) == v.ReadAt(r)
    decreases |steps|
  {
    SettledUnmapped(v, r);
    if steps != [] {
      var w := Apply(v, steps[0]);
      StepKeepsRead(v, steps[0], r);
      StepKeepsConsistent(v, steps[0]);
      SettledUnmapped(w, r);
      PastIsImmutable(w, steps[1..], r);
    }
  }

  // ---------------------------------------------------------------------------
  // Snapshot, write, soft-delete
  // ---------------------------------------------------------------------------

  /** No epoch has two versions. */
  predicate OneEach<V>(chain: seq<Entry<V>>) {
    forall i, j :: 0 <= i < j < |chain| ==> chain[i].epoch != chain[j].epoch
  }

  /** Page writes alone, in any run, never leave an epoch with two versions of a page. */
  lemma {:induction false} RunKeepsOneEach<V>(v: Volume<V>, steps: seq<Step<V>>)
    requires Run(v, steps) && OneEach(v.chain) && forall i :: 0 <= i < |steps| ==> !steps[i].Prepend?
    ensures OneEach(After(v, steps).chain)
    decreases |steps|
  {
    hide Enabled;
    if steps != [] {
      assert !steps[0].Prepend?;
      RunKeepsOneEach(Apply(v, steps[0]), steps[1..]);
    }
  }

  function SnapshotsTaken<V>(steps: seq<Step<V>>): nat {
    if steps == [] then 0 else (if steps[0].TakeSnapshot? then 1 else 0) + SnapshotsTaken(steps[1..])
  }

  /** Every odd epoch below the head stands for one snapshot taken: the head moves by two
      with each of them, and with nothing else. */
  lemma {:induction false} HeadCountsSnapshots<V>(v: Volume<V>, steps: seq<Step<V>>)
    requires Run(v, steps)
    ensures After(v, steps).head == v.head + 2 * SnapshotsTaken(steps)
    decreases |steps|
  {
    hide Enabled;
    if steps != [] {
      HeadCountsSnapshots(Apply(v, steps[0]), steps[1..]);
    }
  }

  /** A new snapshot reads what the head read when it was taken. */
  lemma SnapshotReadsBase<V>(v: Volume<V>)
    requires v.Consistent()
    ensures Apply(v, TakeSnapshot).Active(v.head + 1)
    ensures Apply(v, TakeSnapshot).ReadAt(v.head + 1) == v.ReadAt(v.head)
  {
    SnapshotReadsBaseIff(v);
    EffectiveCases(v, v.head + 1);
    EffectiveCases(v, v.head);
    ResolveUnmapped(v.mapper, v.head + 1);
    ResolveUnmapped(v.mapper, v.head);
  }

  /** Without knowing where the entries came from: the next snapshot starts from what the
      head reads exactly when no entry already stored under its number comes first. */
  lemma SnapshotReadsBaseIff<V>(v: Volume<V>)
    requires IsEven(v.head) && v.MapperValid()
    ensures Pick(v.mapper, v.chain, v.head + 1) == Pick(v.mapper, v.chain, v.head)
            <==> !(FirstStored(v.chain, v.head + 1) < Pick(v.mapper, v.chain, v.head))
  {
    var s := v.head + 1;
    forall i | 0 <= i < |v.chain|
      ensures Applicable(v.mapper, v.chain[i].epoch, s)
              <==> Applicable(v.mapper, v.chain[i].epoch, v.head) || v.chain[i].epoch == s
    {
      EffectiveCases(v, v.chain[i].epoch);
    }
  }

  /** Something else a reader at `e` may take stands in front of the entry stored at `e`. */
  predicate OwnShadowed<V>(v: Volume<V>, e: nat) {
    exists i :: 0 <= i < FirstStored(v.chain, e) && Applicable(v.mapper, v.chain[i].epoch, e)
  }

  /** A new entry is what its epoch reads next; an entry changed in place is, exactly when
      nothing shadows it. */
  lemma ReadYourWriteIff<V>(v: Volume<V>, e: nat, value: V)
    requires v.Consistent() && v.Writable(e)
    ensures Apply(v, Prepend(e, value)).ReadAt(e) == Some(value)
    ensures !Wrote(v.chain, e) ==> Apply(v, Put(e, value)).ReadAt(e) == Some(value)
    ensures Wrote(v.chain, e) ==>
      (Pick(v.mapper, Apply(v, Put(e, value)).chain, e) == FirstStored(v.chain, e) <==> !OwnShadowed(v, e))
  {
    EffectiveCases(v, e);
    ResolveUnmapped(v.mapper, e);
    PickPastFront(v.mapper, Entry(e, value), v.chain, e);
    if Wrote(v.chain, e) {
      SamePick(v.mapper, v.chain, e, v.mapper, Store(v.chain, e, value), e);
    }
  }

  /** In every volume a run can reach, a snapshot's own write is what it reads next, in
      place or not.  The head's is, exactly when no entry in front of its own was committed
      into it. */
  lemma ReadYourWrite<V>(v: Volume<V>, e: nat, value: V)
    requires v.Reached() && v.Writable(e)
    ensures Apply(v, Prepend(e, value)).ReadAt(e) == Some(value)
    ensures v.Active(e) || !Wrote(v.chain, e) || !Retaken(v, e) ==> Apply(v, Put(e, value)).ReadAt(e) == Some(value)
    ensures Wrote(v.chain, e) ==> (OwnShadowed(v, e) <==> !v.Active(e) && Retaken(v, e))
  {
    ReadYourWriteIff(v, e, value);
    EffectiveCases(v, e);
    ResolveUnmapped(v.mapper, e);
    var k := FirstStored(v.chain, e);
    if k < |v.chain| {
      forall i | 0 <= i < k ensures Applicable(v.mapper, v.chain[i].epoch, e) <==> v.Eff(i) == e && IsEven(e) {
        EffectiveCases(v, v.chain[i].epoch);
        assert IsEven(v.Eff(i)) ==> v.chain[k].epoch <= v.Eff(i);
      }
    }
  }

  /** An entry re-tagged as `e` by a commit stands in front of the one stored at `e`. */
  predicate Retaken<V>(v: Volume<V>, e: nat) {
    exists i :: 0 <= i < FirstStored(v.chain, e) && Effective(v.mapper, v.chain[i].epoch) == e
  }

  /** A mapping, once made, answers the same for ever. */
  lemma {:induction false} RunKeepsMapping<V>(v: Volume<V>, steps: seq<Step<V>>, s: nat)
    requires v.Consistent() && Run(v, steps) && IsSource(v.mapper, s)
    ensures Resolve(After(v, steps).mapper, s) == Resolve(v.mapper, s)
    decreases |steps|
  {
    if steps != [] {
      var w := Apply(v, steps[0]);
      match steps[0] {
        case Commit(t) =>
          ResolveAfterInsert(v.mapper, Mapping(t, v.head, true), s);
          SourceStays(v.mapper, Mapping(t, v.head, true), s);
        case SoftDelete(t) =>
          ResolveAfterInsert(v.mapper, Mapping(t, t - 1, false), s);
          SourceStays(v.mapper, Mapping(t, t - 1, false), s);
        case TakeSnapshot =>
        case Put(_, _) =>
        case Prepend(_, _) =>
      }
      StepKeepsConsistent(v, steps[0]);
      RunKeepsMapping(w, steps[1..], s);
    }
  }

  lemma SourceStays(ms: seq<Mapping>, m: Mapping, s: nat)
    requires IsSource(ms, s)
    ensures IsSource([m] + ms, s)
  {
    var i :| 0 <= i < |ms| && ms[i].from == s;
    assert ([m] + ms)[i + 1].from == s;
  }

  /** Take a snapshot, let anything happen (including writes at the snapshot), soft-delete
      it, let anything happen again: reading the snapshot gives exactly the base it was
      taken from. */
  lemma DeletedSnapshotReadsBase<V>(v: Volume<V>, before: seq<Step<V>>, after: seq<Step<V>>)
    requires v.Consistent()
    requires Run(Apply(v, TakeSnapshot), before)
    requires Enabled(After(Apply(v, TakeSnapshot), before), SoftDelete(v.head + 1))
    requires Run(Apply(After(Apply(v, TakeSnapshot), before), SoftDelete(v.head + 1)), after)
    ensures After(Apply(After(Apply(v, TakeSnapshot), before), SoftDelete(v.head + 1)), after).ReadAt(v.head + 1)
            == v.ReadAt(v.head)
  {
    var s := v.head + 1;
    var taken := Apply(v, TakeSnapshot);
    var mid := After(taken, before);
    var gone := Apply(mid, SoftDelete(s));
    StepKeepsConsistent(v, TakeSnapshot);
    RunKeepsConsistent(taken, before);
    StepKeepsConsistent(mid, SoftDelete(s));
    RunKeepsConsistent(gone, after);
    var end := After(gone, after);
    ResolveAfterInsert(mid.mapper, Mapping(s, s - 1, false), s);
    assert gone.mapper[0].from == s;
    RunKeepsMapping(gone, after, s);
    assert Resolve(end.mapper, s) == v.head;
    HeadGrows(taken, before);
    PastIsImmutable(taken, before, v.head);
    PastIsImmutable(mid, [SoftDelete(s)], v.head);
    assert After(mid, [SoftDelete(s)]) == gone;
    PastIsImmutable(gone, after, v.head);
    HeadGrows(gone, after);
    SettledUnmapped(end, v.head);
    EffectiveCases(v, v.head);
    ResolveUnmapped(v.mapper, v.head);
    SettledUnmapped(taken, v.head);
  }

  lemma {:induction false} HeadGrows<V>(v: Volume<V>, steps: seq<Step<V>>)
    requires Run(v, steps)
    ensures v.head <= After(v, steps).head
    decreases |steps|
  {
    if steps != [] {
      HeadGrows(Apply(v, steps[0]), steps[1..]);
    }
  }

  // ---------------------------------------------------------------------------
  // Commit
  // ---------------------------------------------------------------------------

  /** What the scan reports, without over-reporting: the snapshot itself wrote the chain,
      and so did a younger head, in person or through a commit. */
  lemma ConflictIff<V>(v: Volume<V>, s: nat)
    requires v.Consistent() && v.Active(s)
    ensures Conflict(v.mapper, v.chain, s) <==>
      Wrote(v.chain, s) && exists i :: 0 <= i < |v.chain| && IsEven(v.Eff(i)) && s < v.Eff(i)
  {
    forall i | 0 <= i < |v.chain| ensures v.Eff(i) == s <==> v.chain[i].epoch == s {
      EffectiveCases(v, v.chain[i].epoch);
    }
    var k := FirstStored(v.chain, s);
    if k < |v.chain| {
      assert v.Eff(k) == s;
      forall i | 0 <= i < |v.chain| && IsEven(v.Eff(i)) && s < v.Eff(i)
        ensures HeadSide(v.mapper, v.chain[i].epoch, s)
      {
      }
    }
  }

  /** An entry stands on the head side of a snapshot when a younger head stored it, or a
      snapshot that was committed into a younger head. */
  lemma HeadSideIff<V>(v: Volume<V>, e: nat, s: nat)
    requires v.MapperValid()
    ensures HeadSide(v.mapper, e, s) <==>
      (IsEven(e) && s < e) || exists m :: m in v.mapper && m.from == e && m.apply && s < m.to
  {
    if IsSource(v.mapper, e) {
      var k :| 0 <= k < |v.mapper| && v.mapper[k].from == e;
      DistinctSources(v.mapper);
      ResolveAt(v.mapper, k);
      assert v.MappingValid(v.mapper[k]);
      assert v.mapper[k] in v.mapper;
    } else {
      ResolveUnmapped(v.mapper, e);
    }
  }

  /** After a commit that passed the scan on this chain, whatever earlier commits did, the
      head and the snapshot itself read the snapshot's version if it wrote the chain, else
      what the head read before. */
  lemma CommitPublishes<V>(v: Volume<V>, s: nat)
    requires v.Reached() && Enabled(v, Commit(s)) && !Conflict(v.mapper, v.chain, s)
    ensures var w := Apply(v, Commit(s));
      && w.ReadAt(v.head) == (if Wrote(v.chain, s) then v.ReadAt(s) else v.ReadAt(v.head))
      && w.ReadAt(s) == w.ReadAt(v.head)
  {
    var w := Apply(v, Commit(s));
    CommitReads(v, s);
    ResolveAfterInsert(v.mapper, Mapping(s, v.head, true), s);
    var k := FirstStored(v.chain, s);
    if k < |v.chain| {
      ActivePick(v, s);
      forall i | 0 <= i < k ensures !Applicable(w.mapper, v.chain[i].epoch, v.head) {
        EffectiveAfterInsert(v.mapper, Mapping(s, v.head, true), v.chain[i].epoch);
        EffectiveCases(v, v.chain[i].epoch);
        var ahead := v.Eff(i);
        assert IsEven(ahead) ==> s <= ahead;
        assert v.Eff(k) == s && !HeadSide(v.mapper, v.chain[i].epoch, s);
      }
      EffectiveAfterInsert(v.mapper, Mapping(s, v.head, true), s);
      assert Pick(w.mapper, v.chain, v.head) == k;
    } else {
      forall i | 0 <= i < |v.chain|
        ensures Applicable(v.mapper, v.chain[i].epoch, v.head) <==> Applicable(w.mapper, v.chain[i].epoch, v.head)
      {
        EffectiveAfterInsert(v.mapper, Mapping(s, v.head, true), v.chain[i].epoch);
      }
      SamePick(v.mapper, v.chain, v.head, w.mapper, v.chain, v.head);
    }
  }

  /** So it is in every volume any run leads to. */
  lemma ReachableCommitPublishes<V>(steps: seq<Step<V>>, s: nat)
    requires Run(Fresh<V>(), steps)
    requires Enabled(After(Fresh<V>(), steps), Commit(s))
    requires !Conflict(After(Fresh<V>(), steps).mapper, After(Fresh<V>(), steps).chain, s)
    ensures var v := After(Fresh<V>(), steps);
      var w := Apply(v, Commit(s));
      && w.ReadAt(v.head) == (if Wrote(v.chain, s) then v.ReadAt(s) else v.ReadAt(v.head))
      && w.ReadAt(s) == w.ReadAt(v.head)
  {
    ValidIsReached(Fresh<V>());
    RunKeepsReached(Fresh<V>(), steps);
    CommitPublishes(After(Fresh<V>(), steps), s);
  }

  lemma CommitReads<V>(v: Volume<V>, s: nat)
    requires v.Consistent() && v.Active(s)
    ensures Resolve(v.mapper, v.head) == v.head && Resolve(v.mapper, s) == s && Effective(v.mapper, s) == s
    ensures Resolve([Mapping(s, v.head, true)] + v.mapper, v.head) == v.head
  {
    EffectiveCases(v, v.head);
    ResolveUnmapped(v.mapper, v.head);
    EffectiveCases(v, s);
    ResolveUnmapped(v.mapper, s);
    ResolveAfterInsert(v.mapper, Mapping(s, v.head, true), v.head);
  }

  /** An active snapshot that wrote a chain reads its own newest entry. */
  lemma ActivePick<V>(v: Volume<V>, s: nat)
    requires v.Reached() && v.Active(s) && Wrote(v.chain, s)
    ensures Pick(v.mapper, v.chain, s) == FirstStored(v.chain, s)
  {
    var k := FirstStored(v.chain, s);
    EffectiveCases(v, s);
    forall i | 0 <= i < k ensures !Applicable(v.mapper, v.chain[i].epoch, s) {
      EffectiveCases(v, v.chain[i].epoch);
      assert IsEven(v.Eff(i)) ==> v.chain[k].epoch <= v.Eff(i);
    }
  }

  predicate HeadEntryAhead<V>(v: Volume<V>, s: nat) {
    exists i :: 0 <= i < FirstStored(v.chain, s) && IsEven(Effective(v.mapper, v.chain[i].epoch))
  }

  /** Exactly when a commit publishes, scanned or not, on a chain in whatever order: the
      head reads the committed version if and only if no head-side entry stands in front. */
  lemma UnscannedCommitPublishesIff<V>(v: Volume<V>, s: nat)
    requires v.Consistent() && Enabled(v, Commit(s)) && Wrote(v.chain, s)
    ensures var w := Apply(v, Commit(s));
      Pick(w.mapper, w.chain, v.head) == FirstStored(v.chain, s) <==> !HeadEntryAhead(v, s)
  {
    var w := Apply(v, Commit(s));
    var k := FirstStored(v.chain, s);
    EffectiveAfterInsert(v.mapper, Mapping(s, v.head, true), s);
    forall i | 0 <= i < k
      ensures Applicable(w.mapper, v.chain[i].epoch, v.head) <==> IsEven(v.Eff(i))
    {
      EffectiveAfterInsert(v.mapper, Mapping(s, v.head, true), v.chain[i].epoch);
      EffectiveCases(v, v.chain[i].epoch);
    }
    if !HeadEntryAhead(v, s) {
      assert Pick(w.mapper, w.chain, v.head) == k;
    } else {
      var i :| 0 <= i < k && IsEven(Effective(v.mapper, v.chain[i].epoch));
      assert Applicable(w.mapper, v.chain[i].epoch, v.head);
    }
  }

  /** A directory slot: created at 0, deleted in snapshot 1, renamed at head 2, snapshot 3
      taken, 1 committed into 4. */
  function LostDelete(): seq<Step<string>> {
    [Prepend(0, "created"), TakeSnapshot, Prepend(1, "deleted"), Prepend(2, "renamed"), TakeSnapshot, Commit(1)]
  }

  function LostDeleteEnd(): Volume<string> {
    Volume(4, [Mapping(1, 4, true)], [Entry(2, "renamed"), Entry(1, "deleted"), Entry(0, "created")])
  }

  /** The delete is committed but never seen: the head reads the older rename first. */
  lemma UnscannedCommitLosesDelete()
    ensures Run(Fresh(), LostDelete()) && After(Fresh(), LostDelete()) == LostDeleteEnd()
    ensures LostDeleteEnd().ReadAt(4) == Some("renamed")
    ensures !LostDeleteEnd().Ordered()
  {
    var w := LostDeleteEnd();
    LostDeleteRuns();
    ResolveAfterInsert([], Mapping(1, 4, true), 4);
    EffectiveAfterInsert([], Mapping(1, 4, true), 2);
    EffectiveAfterInsert([], Mapping(1, 4, true), 1);
    assert w.Eff(0) == 2 && w.Eff(1) == 4;
    assert Pick(w.mapper, w.chain, 4) == 0;
  }

  lemma LostDeleteRuns()
    ensures Run(Fresh(), LostDelete()) && After(Fresh(), LostDelete()) == LostDeleteEnd()
  {
    var s := LostDelete();
    var v0: Volume<string> := Fresh();
    var v1 := Apply(v0, s[0]);
    var v2 := Apply(v1, s[1]);
    var v3 := Apply(v2, s[2]);
    var v4 := Apply(v3, s[3]);
    var v5 := Apply(v4, s[4]);
    var v6 := Apply(v5, s[5]);
    assert v6 == LostDeleteEnd();
    RunStep(v5, s[5..]);
    RunStep(v4, s[4..]);
    RunStep(v3, s[3..]);
    RunStep(v2, s[2..]);
    RunStep(v1, s[1..]);
    RunStep(v0, s);
  }

  /** One step off the front of a run. */
  lemma RunStep<V>(v: Volume<V>, steps: seq<Step<V>>)
    requires steps != [] && Enabled(v, steps[0]) && Run(Apply(v, steps[0]), steps[1..])
    ensures Run(v, steps) && After(v, steps) == After(Apply(v, steps[0]), steps[1..])
  {
  }

  // ---------------------------------------------------------------------------
  // When commit and soft-delete are refused
  // ---------------------------------------------------------------------------

  /** The mapper takes at most one commit per head: a further one is refused until the next
      snapshot moves the head. */
  lemma CommitAcceptedIff<V>(v: Volume<V>, s: nat)
    requires v.Consistent() && v.Active(s)
    ensures Accepts(v.mapper, s, v.head) <==> !IsTarget(v.mapper, v.head)
  {
    AcceptedIff(v, s, v.head);
  }

  /** A snapshot can be soft-deleted exactly when nothing was committed into its base. */
  lemma SoftDeleteAcceptedIff<V>(v: Volume<V>, s: nat)
    requires v.Consistent() && v.Active(s)
    ensures Accepts(v.mapper, s, s - 1) <==> !IsTarget(v.mapper, s - 1)
  {
    AcceptedIff(v, s, s - 1);
  }

  lemma AcceptedIff<V>(v: Volume<V>, s: nat, to: nat)
    requires v.Consistent() && v.Active(s) && IsEven(to)
    ensures Accepts(v.mapper, s, to) <==> !IsTarget(v.mapper, to)
  {
    forall i | 0 <= i < |v.mapper| ensures v.MappingValid(v.mapper[i]) {}
    if IsTarget(v.mapper, to) {
      var i :| 0 <= i < |v.mapper| && v.mapper[i].to == to;
      assert Clashes(v.mapper[i], s, to);
    } else {
      forall i | 0 <= i < |v.mapper| ensures !Clashes(v.mapper[i], s, to) {
        assert v.MappingValid(v.mapper[i]);
      }
    }
  }

  // ---------------------------------------------------------------------------
  // Copy-on-write base
  // ---------------------------------------------------------------------------

  /** The base page a copying write starts from: the first entry stored under an even
      epoch below `e`.  Unlike a read, this search never consults the mapper. */
  function CopyBase<V>(chain: seq<Entry<V>>, e: nat): (i: nat)
    ensures i <= |chain|
    ensures i < |chain| ==> IsEven(chain[i].epoch) && chain[i].epoch < e
    ensures forall j :: 0 <= j < i ==> !(IsEven(chain[j].epoch) && chain[j].epoch < e)
  {
    if chain == [] then 0
    else if IsEven(chain[0].epoch) && chain[0].epoch < e then 0
    else
      var i := CopyBase(chain[1..], e);
      assert forall j :: 0 < j < |chain| ==> chain[j] == chain[1..][j - 1];
      1 + i
  }

  /** The entry a reader at `e` sees was written by a snapshot that has been committed. */
  predicate SeesCommitted<V>(v: Volume<V>, e: nat) {
    var i := Pick(v.mapper, v.chain, e);
    i < |v.chain| && !IsEven(v.chain[i].epoch)
  }

  /** A copying write starts from the version its epoch reads exactly when that version is
      not a committed snapshot's. */
  lemma CopyBaseIsVisibleIff<V>(v: Volume<V>, e: nat)
    requires v.Consistent() && v.Writable(e) && !Wrote(v.chain, e)
    ensures CopyBase(v.chain, e) == Pick(v.mapper, v.chain, e) <==> !SeesCommitted(v, e)
  {
    var c, p := CopyBase(v.chain, e), Pick(v.mapper, v.chain, e);
    if c < |v.chain| {
      EffectiveCases(v, v.chain[c].epoch);
    }
    if p < |v.chain| {
      EffectiveCases(v, v.chain[p].epoch);
    }
  }

  type Page = seq<int>

  /** The bytes written replace a stretch of the base page. */
  function Overlay(base: Page, offset: nat, data: Page): (page: Page)
    requires offset + |data| <= |base|
    ensures |page| == |base|
    ensures forall i :: 0 <= i < |base| ==>
      page[i] == if offset <= i < offset + |data| then data[i - offset] else base[i]
  {
    base[..offset] + data + base[offset + |data|..]
  }

  /** What one page of a file write puts down: the data over the version stored at `e`, else
      over the copy base, else over zeroes. */
  function NewPage(chain: seq<Entry<Page>>, size: nat, e: nat, offset: nat, data: Page): Page
    requires offset + |data| <= size
    requires forall i :: 0 <= i < |chain| ==> |chain[i].value| == size
  {
    var k := FirstStored(chain, e);
    var c := CopyBase(chain, e);
    var base := if k < |chain| then chain[k].value else if c < |chain| then chain[c].value else Zeros(size);
    Overlay(base, offset, data)
  }

  /** One page of a file write: the new chain. */
  function WritePage(chain: seq<Entry<Page>>, size: nat, e: nat, offset: nat, data: Page): seq<Entry<Page>>
    requires offset + |data| <= size
    requires forall i :: 0 <= i < |chain| ==> |chain[i].value| == size
  {
    Store(chain, e, NewPage(chain, size, e, offset, data))
  }

  function PageOr(page: Option<Page>, size: nat): Page {
    if page.Some? then page.value else Zeros(size)
  }

  /** A partial write keeps the rest: if the epoch has its own version, that is the one it
      reads; if not, what it reads is not a committed snapshot's. */
  predicate WritesWhatItReads(v: Volume<Page>, e: nat) {
    if Wrote(v.chain, e) then !OwnShadowed(v, e) else !SeesCommitted(v, e)
  }

  /** Under that condition, on a chain in any order, the write changes the written stretch
      only, for its own readers. */
  lemma PartialWriteKeepsRest(v: Volume<Page>, size: nat, e: nat, offset: nat, data: Page)
    requires v.Consistent() && v.Writable(e)
    requires offset + |data| <= size
    requires forall i :: 0 <= i < |v.chain| ==> |v.chain[i].value| == size
    requires WritesWhatItReads(v, e)
    ensures |PageOr(v.ReadAt(e), size)| == size
    ensures v.(chain := WritePage(v.chain, size, e, offset, data)).ReadAt(e)
            == Some(Overlay(PageOr(v.ReadAt(e), size), offset, data))
  {
    hide Pick, Overlay, CopyBase, FirstStored;
    EffectiveCases(v, e);
    ResolveUnmapped(v.mapper, e);
    var k := FirstStored(v.chain, e);
    if k < |v.chain| {
      var page := Overlay(v.chain[k].value, offset, data);
      ReadYourWriteIff(v, e, page);
      ReadYourWriteIff(v, e, v.chain[k].value);
      assert v.chain[k := Entry(e, v.chain[k].value)] == v.chain;
    } else {
      CopyBaseIsVisibleIff(v, e);
      var c := CopyBase(v.chain, e);
      var base := if c < |v.chain| then v.chain[c].value else Zeros(size);
      ReadYourWriteIff(v, e, Overlay(base, offset, data));
    }
  }

  /** Without it the write starts from a version its epoch does not read, or lands behind
      the one it does. */
  lemma OtherwiseNotItsOwn(v: Volume<Page>, e: nat, value: Page)
    requires v.Consistent() && v.Writable(e) && !WritesWhatItReads(v, e)
    ensures if Wrote(v.chain, e) then Pick(v.mapper, Store(v.chain, e, value), e) < FirstStored(v.chain, e)
            else CopyBase(v.chain, e) != Pick(v.mapper, v.chain, e)
  {
    hide CopyBase;
    if Wrote(v.chain, e) {
      ReadYourWriteIff(v, e, value);
      SamePick(v.mapper, v.chain, e, v.mapper, Store(v.chain, e, value), e);
    } else {
      CopyBaseIsVisibleIff(v, e);
    }
  }

  /** Base page "00"; snapshot 1 wrote "77" and was committed into head 2. */
  function CommittedExample(): Volume<Page> {
    Volume(2, [Mapping(1, 2, true)], [Entry(1, [7, 7]), Entry(0, [0, 0])])
  }

  lemma CommittedExampleRuns()
    ensures var steps: seq<Step<Page>> := [Put(0, [0, 0]), TakeSnapshot, Put(1, [7, 7]), Commit(1)];
      Run(Fresh(), steps) && After(Fresh(), steps) == CommittedExample()
  {
    var s: seq<Step<Page>> := [Put(0, [0, 0]), TakeSnapshot, Put(1, [7, 7]), Commit(1)];
    var v0: Volume<Page> := Fresh();
    var v1 := Apply(v0, s[0]);
    var v2 := Apply(v1, s[1]);
    assert v1.chain == [Entry(0, [0, 0])];
    assert !Wrote(v2.chain, 1);
    var v3 := Apply(v2, s[2]);
    var v4 := Apply(v3, s[3]);
    assert v4 == CommittedExample();
    RunStep(v3, s[3..]);
    RunStep(v2, s[2..]);
    RunStep(v1, s[1..]);
    RunStep(v0, s);
  }

  lemma CommittedExampleValid()
    ensures CommittedExample().Valid() && CommittedExample().Reached()
    ensures CommittedExample().ReadAt(2) == Some([7, 7])
  {
    var v := CommittedExample();
    assert v.MappingValid(v.mapper[0]);
    assert v.Eff(0) == 2 && v.Eff(1) == 0;
    assert Resolve(v.mapper, 2) == 2;
    assert Pick(v.mapper, v.chain, 2) == 0;
    ValidIsReached(v);
  }

  /** A committed page is lost to a partial write: the head changes byte 0 to 9 and reads
      back "90", not "97". */
  lemma PartialWriteDropsCommitted()
    ensures CommittedExample().(chain := WritePage(CommittedExample().chain, 2, 2, 0, [9])).ReadAt(2) == Some([9, 0])
  {
    hide *;
    CommittedExampleValid();
    CommittedExampleWrite();
    NotYetWritten();
    ReadYourWrite(CommittedExample(), 2, [9, 0]);
    PutIsStore(CommittedExample(), 2, [9, 0]);
  }

  lemma PutIsStore<V>(v: Volume<V>, e: nat, value: V)
    requires v.Writable(e)
    ensures Apply(v, Put(e, value)) == v.(chain := Store(v.chain, e, value))
  {
    hide Store;
  }

  lemma NotYetWritten()
    ensures !Wrote(CommittedExample().chain, 2)
  {
    NotStored();
  }

  lemma NotStored()
    ensures FirstStored(CommittedExample().chain, 2) == 2
  {
    var chain := CommittedExample().chain;
    assert chain[0].epoch == 1 && chain[1].epoch == 0;
  }

  lemma CommittedExampleWrite()
    ensures CommittedExample().Writable(2)
    ensures WritePage(CommittedExample().chain, 2, 2, 0, [9]) == Store(CommittedExample().chain, 2, [9, 0])
  {
    hide FirstStored, CopyBase, Store;
    var chain := CommittedExample().chain;
    NotStored();
    assert CopyBase(chain, 2) == 1 by {
      assert chain[0].epoch == 1 && chain[1].epoch == 0;
    }
    assert Overlay([0, 0], 0, [9]) == [9, 0];
  }
}
