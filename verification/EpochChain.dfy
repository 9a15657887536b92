/** Version chains and the read rule.  Even epochs are heads, odd epochs are snapshots.
    Every file page, directory slot and file size hangs off a chain of epoch-tagged
    entries, newest first; snapshot, write, commit and soft-delete are steps on the
    current epoch, the mapper and such a chain. */
module EpochChain {
  import opened Mapper
  import opened Options

  datatype Entry<+V> = Entry(epoch: nat, value: V)

  /** A commit (`apply`) re-tags the snapshot's entries; a soft-delete leaves them odd. */
  function Effective(ms: seq<Mapping>, e: nat): nat {
    if Applies(ms, e) then Resolve(ms, e) else e
  }

  predicate Applicable(ms: seq<Mapping>, e: nat, r: nat) {
    var eff := Effective(ms, e);
    eff == r || (eff < r && IsEven(eff))
  }

  /** Index of the first entry a reader at `r` may take; the chain's length if none. */
  function Pick<V>(ms: seq<Mapping>, chain: seq<Entry<V>>, r: nat): (i: nat)
    ensures i <= |chain|
    ensures i < |chain| ==> Applicable(ms, chain[i].epoch, r)
    ensures forall j :: 0 <= j < i ==> !Applicable(ms, chain[j].epoch, r)
  {
    if chain == [] then 0
    else if Applicable(ms, chain[0].epoch, r) then 0
    else
      var i := Pick(ms, chain[1..], r);
      assert forall j :: 0 < j < |chain| ==> chain[j] == chain[1..][j - 1];
      1 + i
  }

  function Read<V>(ms: seq<Mapping>, chain: seq<Entry<V>>, r: nat): Option<V> {
    var i := Pick(ms, chain, r);
    if i < |chain| then Some(chain[i].value) else None
  }

  /** Index of the first entry stored under the raw epoch `e`; the chain's length if none. */
  function FirstStored<V>(chain: seq<Entry<V>>, e: nat): (i: nat)
    ensures i <= |chain|
    ensures i < |chain| ==> chain[i].epoch == e
    ensures forall j :: 0 <= j < i ==> chain[j].epoch != e
  {
    if chain == [] then 0
    else if chain[0].epoch == e then 0
    else
      var i := FirstStored(chain[1..], e);
      assert forall j :: 0 < j < |chain| ==> chain[j] == chain[1..][j - 1];
      1 + i
  }

  predicate Wrote<V>(chain: seq<Entry<V>>, e: nat) {
    FirstStored(chain, e) < |chain|
  }

  /** A page write: in place if the epoch already has an entry, else a new one in front. */
  function Store<V>(chain: seq<Entry<V>>, e: nat, value: V): seq<Entry<V>> {
    var i := FirstStored(chain, e);
    if i < |chain| then chain[i := Entry(e, value)] else [Entry(e, value)] + chain
  }

  /** What the commit scan looks for on one chain: a version of the snapshot together
      with a head-side version younger than the snapshot. */
  predicate Conflict<V>(ms: seq<Mapping>, chain: seq<Entry<V>>, s: nat) {
    && (exists i :: 0 <= i < |chain| && Effective(ms, chain[i].epoch) == s)
    && (exists i :: 0 <= i < |chain| && HeadSide(ms, chain[i].epoch, s))
  }

  predicate HeadSide(ms: seq<Mapping>, e: nat, s: nat) {
    Effective(ms, e) > s && IsEven(Effective(ms, e))
  }

  // ---------------------------------------------------------------------------
  // The step system
  // ---------------------------------------------------------------------------

  /** The volume as one chain sees it. */
  datatype Volume<V> = Volume(head: nat, mapper: seq<Mapping>, chain: seq<Entry<V>>) {

    predicate Issued(s: nat) {
      !IsEven(s) && s < head
    }

    /** Issued and neither committed nor soft-deleted. */
    predicate Active(s: nat) {
      Issued(s) && !IsSource(mapper, s)
    }

    predicate Writable(e: nat) {
      e == head || Active(e)
    }

    function ReadAt(e: nat): Option<V> {
      Read(mapper, chain, Resolve(mapper, e))
    }

    function Eff(i: nat): nat
      requires i < |chain|
    {
      Effective(mapper, chain[i].epoch)
    }

    ghost predicate MapperValid() {
      && SingleHop(mapper)
      && forall i :: 0 <= i < |mapper| ==> MappingValid(mapper[i])
    }

    ghost predicate MappingValid(m: Mapping) {
      && Issued(m.from)
      && IsEven(m.to)
      && (if m.apply then m.from < m.to <= head else m.to == m.from - 1)
    }

    /** Behind an even effective epoch nothing is younger. */
    ghost predicate Ordered() {
      forall i, j :: 0 <= i < j < |chain| && IsEven(Eff(i)) ==> Eff(j) <= Eff(i)
    }

    /** Behind an even effective epoch nothing is stored under a younger one. */
    ghost predicate Stacked() {
      forall i, j :: 0 <= i < j < |chain| && IsEven(Eff(i)) ==> chain[j].epoch <= Eff(i)
    }

    /** A head's own entry is never shadowed by a snapshot committed into that head. */
    ghost predicate OwnFirst() {
      forall i, j :: 0 <= i < j < |chain| && Eff(i) == Eff(j) && IsEven(chain[j].epoch) ==> IsEven(chain[i].epoch)
    }

    /** Mapper and entries belong to epochs issued so far. */
    ghost predicate Consistent() {
      && IsEven(head)
      && MapperValid()
      && (forall i :: 0 <= i < |chain| ==> chain[i].epoch <= head)
    }

    /** What every run keeps, whether or not commits were scanned on this chain. */
    ghost predicate Reached() {
      Consistent() && Stacked()
    }

    /** What runs keep when every commit passed the conflict scan on this chain. */
    ghost predicate Valid() {
      && Consistent()
      && Ordered()
      && OwnFirst()
    }
  }

  /** `Put` writes a page version; `Prepend` is the directory and size form, which never
      overwrites.  A step on another chain leaves this volume view as it is. */
  datatype Step<V> =
    | TakeSnapshot
    | Put(epoch: nat, value: V)
    | Prepend(epoch: nat, value: V)
    | Commit(snapshot: nat)
    | SoftDelete(snapshot: nat)

  /** A commit needs nothing of this chain: directory slots and file sizes are never
      scanned, and neither is a page behind the first one that does not resolve. */
  predicate Enabled<V>(v: Volume<V>, step: Step<V>) {
    match step
    case TakeSnapshot => true
    case Put(e, _) => v.Writable(e)
    case Prepend(e, _) => v.Writable(e)
    case Commit(s) => v.Active(s) && Accepts(v.mapper, s, v.head)
    case SoftDelete(s) => v.Active(s) && Accepts(v.mapper, s, s - 1)
  }

  /** The scan, where it does look at this chain, found nothing against the step. */
  predicate Clear<V>(v: Volume<V>, step: Step<V>) {
    step.Commit? ==> !Conflict(v.mapper, v.chain, step.snapshot)
  }

  function Apply<V>(v: Volume<V>, step: Step<V>): Volume<V>
    requires Enabled(v, step)
  {
    match step
    case TakeSnapshot => v.(head := v.head + 2)
    case Put(e, value) => v.(chain := Store(v.chain, e, value))
    case Prepend(e, value) => v.(chain := [Entry(e, value)] + v.chain)
    case Commit(s) => v.(mapper := [Mapping(s, v.head, true)] + v.mapper)
    case SoftDelete(s) => v.(mapper := [Mapping(s, s - 1, false)] + v.mapper)
  }

  predicate Run<V>(v: Volume<V>, steps: seq<Step<V>>)
    decreases |steps|
  {
    steps == [] || (Enabled(v, steps[0]) && Run(Apply(v, steps[0]), steps[1..]))
  }

  /** A run whose commits all passed the scan on this chain. */
  predicate ClearRun<V>(v: Volume<V>, steps: seq<Step<V>>)
    ensures ClearRun(v, steps) ==> Run(v, steps)
    decreases |steps|
  {
    steps == [] || (Enabled(v, steps[0]) && Clear(v, steps[0]) && ClearRun(Apply(v, steps[0]), steps[1..]))
  }

  function After<V>(v: Volume<V>, steps: seq<Step<V>>): Volume<V>
    requires Run(v, steps)
    decreases |steps|
  {
    if steps == [] then v else After(Apply(v, steps[0]), steps[1..])
  }

  /** A freshly bootstrapped volume. */
  function Fresh<V>(): (v: Volume<V>)
    ensures v.Valid()
  {
    Volume(0, [], [])
  }

  // ---------------------------------------------------------------------------
  // Effective epochs
  // ---------------------------------------------------------------------------

  /** What the effective epoch of a stored epoch can be. */
  lemma EffectiveCases<V>(v: Volume<V>, e: nat)
    requires v.MapperValid()
    ensures
      || Effective(v.mapper, e) == e
      || (v.Issued(e) && e < Effective(v.mapper, e) <= v.head && IsEven(Effective(v.mapper, e)))
    ensures !IsSource(v.mapper, e) ==> Effective(v.mapper, e) == e
    ensures !v.Issued(e) ==> !IsSource(v.mapper, e)
  {
    if IsSource(v.mapper, e) {
      var k :| 0 <= k < |v.mapper| && v.mapper[k].from == e;
      DistinctSources(v.mapper);
      ResolveAt(v.mapper, k);
      assert v.MappingValid(v.mapper[k]);
    } else {
      ResolveUnmapped(v.mapper, e);
    }
  }

  lemma EffectiveAfterInsert(ms: seq<Mapping>, m: Mapping, e: nat)
    ensures Effective([m] + ms, e) == if e != m.from then Effective(ms, e) else if m.apply then m.to else e
  {
    ResolveAfterInsert(ms, m, e);
  }

  /** The first applicable entry is the youngest of all applicable ones, at every epoch. */
  lemma FirstIsYoungest<V>(v: Volume<V>, r: nat)
    requires v.Ordered()
    ensures var i := Pick(v.mapper, v.chain, r);
      forall j :: 0 <= j < |v.chain| && Applicable(v.mapper, v.chain[j].epoch, r) ==>
        i < |v.chain| && v.Eff(j) <= v.Eff(i)
  {
    var i := Pick(v.mapper, v.chain, r);
    forall j | 0 <= j < |v.chain| && Applicable(v.mapper, v.chain[j].epoch, r)
      ensures i < |v.chain| && v.Eff(j) <= v.Eff(i)
    {
      assert i <= j;
    }
  }

  // ---------------------------------------------------------------------------
  // Every step keeps the order
  // ---------------------------------------------------------------------------

  lemma StepKeepsConsistent<V>(v: Volume<V>, step: Step<V>)
    requires v.Consistent() && Enabled(v, step)
    ensures Apply(v, step).Consistent()
  {
    var w := Apply(v, step);
    match step
    case TakeSnapshot =>
      forall i | 0 <= i < |w.mapper| ensures w.MappingValid(w.mapper[i]) {
        assert v.MappingValid(v.mapper[i]);
      }
    case Put(_, _) =>
      forall i | 0 <= i < |w.mapper| ensures w.MappingValid(w.mapper[i]) {
        assert v.MappingValid(v.mapper[i]);
      }
    case Prepend(_, _) =>
      forall i | 0 <= i < |w.mapper| ensures w.MappingValid(w.mapper[i]) {
        assert v.MappingValid(v.mapper[i]);
      }
    case Commit(s) => InsertKeepsMapper(v, Mapping(s, v.head, true));
    case SoftDelete(s) => InsertKeepsMapper(v, Mapping(s, s - 1, false));
  }

  lemma StepKeepsStacked<V>(v: Volume<V>, step: Step<V>)
    requires v.Reached() && Enabled(v, step)
    ensures Apply(v, step).Stacked()
  {
    var w := Apply(v, step);
    match step
    case TakeSnapshot => SameStack(v, w);
    case Put(e, value) =>
      if Wrote(v.chain, e) {
        SameStack(v, w);
      } else {
        PrependKeepsStack(v, e, value);
      }
    case Prepend(e, value) => PrependKeepsStack(v, e, value);
    case Commit(s) =>
      forall i, j | 0 <= i < j < |v.chain| && IsEven(w.Eff(i)) ensures v.chain[j].epoch <= w.Eff(i) {
        EffectiveAfterInsert(v.mapper, Mapping(s, v.head, true), v.chain[i].epoch);
        assert v.chain[j].epoch <= v.head;
        assert IsEven(v.Eff(i)) ==> v.chain[j].epoch <= v.Eff(i);
      }
    case SoftDelete(s) =>
      forall i | 0 <= i < |v.chain| ensures w.Eff(i) == v.Eff(i) {
        EffectiveAfterInsert(v.mapper, Mapping(s, s - 1, false), v.chain[i].epoch);
        EffectiveCases(v, v.chain[i].epoch);
      }
      SameStack(v, w);
  }

  lemma SameStack<V>(v: Volume<V>, w: Volume<V>)
    requires v.Stacked() && |v.chain| == |w.chain|
    requires forall i :: 0 <= i < |v.chain| ==> w.Eff(i) == v.Eff(i) && w.chain[i].epoch == v.chain[i].epoch
    ensures w.Stacked()
  {
    forall i, j | 0 <= i < j < |w.chain| && IsEven(w.Eff(i)) ensures w.chain[j].epoch <= w.Eff(i) {
      assert v.chain[j].epoch <= v.Eff(i);
    }
  }

  lemma PrependKeepsStack<V>(v: Volume<V>, e: nat, value: V)
    requires v.Reached() && v.Writable(e)
    ensures v.(chain := [Entry(e, value)] + v.chain).Stacked()
  {
    var w := v.(chain := [Entry(e, value)] + v.chain);
    EffectiveCases(v, e);
    forall i, j | 0 <= i < j < |w.chain| && IsEven(w.Eff(i)) ensures w.chain[j].epoch <= w.Eff(i) {
      assert w.chain[j] == v.chain[j - 1];
      if i > 0 {
        assert w.Eff(i) == v.Eff(i - 1);
        assert v.chain[j - 1].epoch <= v.Eff(i - 1);
      }
    }
  }

  /** An ordered chain is stacked in particular. */
  lemma ValidIsReached<V>(v: Volume<V>)
    requires v.Valid()
    ensures v.Reached()
  {
    forall i, j | 0 <= i < j < |v.chain| && IsEven(v.Eff(i)) ensures v.chain[j].epoch <= v.Eff(i) {
      assert v.Eff(j) <= v.Eff(i);
      EffectiveCases(v, v.chain[j].epoch);
    }
  }

  lemma InsertKeepsMapper<V>(v: Volume<V>, m: Mapping)
    requires v.MapperValid() && v.MappingValid(m) && Accepts(v.mapper, m.from, m.to)
    ensures v.(mapper := [m] + v.mapper).MapperValid()
  {
    var w := v.(mapper := [m] + v.mapper);
    AcceptsIffSingleHop(v.mapper, m);
    forall i | 0 <= i < |w.mapper| ensures w.MappingValid(w.mapper[i]) {
      if i > 0 {
        assert v.MappingValid(v.mapper[i - 1]);
      }
    }
  }

  /** An entry written at a writable epoch may stand in front of any valid chain. */
  lemma PrependKeepsOrder<V>(v: Volume<V>, e: nat, value: V)
    requires v.Valid() && v.Writable(e)
    ensures v.(chain := [Entry(e, value)] + v.chain).Valid()
  {
    var w := v.(chain := [Entry(e, value)] + v.chain);
    EffectiveCases(v, e);
    forall j | 0 < j < |w.chain|
      ensures w.chain[j] == v.chain[j - 1] && w.Eff(j) == v.Eff(j - 1) <= v.head
    {
      EffectiveCases(v, v.chain[j - 1].epoch);
    }
    forall i, j | 0 <= i < j < |w.chain| && IsEven(w.Eff(i)) ensures w.Eff(j) <= w.Eff(i) {
      if i > 0 {
        assert v.Eff(j - 1) <= v.Eff(i - 1);
      }
    }
    forall i, j | 0 <= i < j < |w.chain| && w.Eff(i) == w.Eff(j) && IsEven(w.chain[j].epoch)
      ensures IsEven(w.chain[i].epoch)
    {
      EffectiveCases(v, w.chain[j].epoch);
      if i > 0 {
        assert IsEven(v.chain[i - 1].epoch);
      }
    }
  }

  lemma OverwriteKeepsOrder<V>(v: Volume<V>, k: nat, value: V)
    requires v.Valid() && k < |v.chain|
    ensures v.(chain := v.chain[k := Entry(v.chain[k].epoch, value)]).Valid()
  {
    var w := v.(chain := v.chain[k := Entry(v.chain[k].epoch, value)]);
    assert forall i :: 0 <= i < |w.chain| ==> w.chain[i].epoch == v.chain[i].epoch && w.Eff(i) == v.Eff(i);
    forall i, j | 0 <= i < j < |w.chain| && IsEven(w.Eff(i)) ensures w.Eff(j) <= w.Eff(i) {
      assert v.Eff(j) <= v.Eff(i);
    }
    forall i, j | 0 <= i < j < |w.chain| && w.Eff(i) == w.Eff(j) && IsEven(w.chain[j].epoch)
      ensures IsEven(w.chain[i].epoch)
    {
      assert IsEven(v.chain[i].epoch);
    }
  }

  /** The heart of the conflict scan: re-tagging a conflict-free snapshot as the head
      leaves the chain ordered. */
  lemma CommitKeepsOrder<V>(v: Volume<V>, s: nat)
    requires v.Valid() && Enabled(v, Commit(s)) && !Conflict(v.mapper, v.chain, s)
    ensures Apply(v, Commit(s)).Ordered()
    ensures Apply(v, Commit(s)).OwnFirst()
  {
    var w := Apply(v, Commit(s));
    forall i | 0 <= i < |v.chain|
      ensures w.Eff(i) == if v.chain[i].epoch == s then v.head else v.Eff(i)
      ensures v.Eff(i) <= v.head
      ensures v.chain[i].epoch == s ==> v.Eff(i) == s
    {
      EffectiveAfterInsert(v.mapper, Mapping(s, v.head, true), v.chain[i].epoch);
      EffectiveCases(v, v.chain[i].epoch);
    }
    forall i, j | 0 <= i < j < |v.chain|
      ensures IsEven(w.Eff(i)) ==> w.Eff(j) <= w.Eff(i)
      ensures w.Eff(i) == w.Eff(j) && IsEven(w.chain[j].epoch) ==> IsEven(w.chain[i].epoch)
    {
      EffectiveCases(v, v.chain[i].epoch);
      EffectiveCases(v, v.chain[j].epoch);
      if v.chain[j].epoch == s && IsEven(v.Eff(i)) {
        assert HeadSide(v.mapper, v.chain[i].epoch, s);
      }
      if v.chain[i].epoch == s && IsEven(v.chain[j].epoch) {
        assert !HeadSide(v.mapper, v.chain[j].epoch, s);
      }
    }
  }

  lemma {:induction false} StepKeepsValid<V>(v: Volume<V>, step: Step<V>)
    requires v.Valid() && Enabled(v, step) && Clear(v, step)
    ensures Apply(v, step).Valid()
  {
    StepKeepsConsistent(v, step);
    match step
    case TakeSnapshot => SameChainOrder(v, Apply(v, step));
    case Put(e, value) =>
      if Wrote(v.chain, e) {
        OverwriteKeepsOrder(v, FirstStored(v.chain, e), value);
      } else {
        PrependKeepsOrder(v, e, value);
      }
    case Prepend(e, value) => PrependKeepsOrder(v, e, value);
    case Commit(s) => CommitKeepsOrder(v, s);
    case SoftDelete(s) =>
      forall i | 0 <= i < |v.chain|
        ensures Effective(Apply(v, step).mapper, v.chain[i].epoch) == v.Eff(i)
      {
        EffectiveAfterInsert(v.mapper, Mapping(s, s - 1, false), v.chain[i].epoch);
        EffectiveCases(v, v.chain[i].epoch);
      }
      SameChainOrder(v, Apply(v, step));
  }

  lemma SameChainOrder<V>(v: Volume<V>, w: Volume<V>)
    requires v.Ordered() && v.OwnFirst() && v.chain == w.chain
    requires forall i :: 0 <= i < |v.chain| ==> w.Eff(i) == v.Eff(i)
    ensures w.Ordered() && w.OwnFirst()
  {
    forall i, j | 0 <= i < j < |w.chain| && IsEven(w.Eff(i)) ensures w.Eff(j) <= w.Eff(i) {
      assert v.Eff(j) <= v.Eff(i);
    }
    forall i, j | 0 <= i < j < |w.chain| && w.Eff(i) == w.Eff(j) && IsEven(w.chain[j].epoch)
      ensures IsEven(w.chain[i].epoch)
    {
      assert v.Eff(i) == v.Eff(j);
    }
  }

  lemma {:induction false} RunKeepsValid<V>(v: Volume<V>, steps: seq<Step<V>>)
    requires v.Valid() && ClearRun(v, steps)
    ensures After(v, steps).Valid()
    decreases |steps|
  {
    if steps != [] {
      StepKeepsValid(v, steps[0]);
      RunKeepsValid(Apply(v, steps[0]), steps[1..]);
    }
  }

  lemma {:induction false} RunKeepsConsistent<V>(v: Volume<V>, steps: seq<Step<V>>)
    requires v.Consistent() && Run(v, steps)
    ensures After(v, steps).Consistent()
    decreases |steps|
  {
    if steps != [] {
      StepKeepsConsistent(v, steps[0]);
      RunKeepsConsistent(Apply(v, steps[0]), steps[1..]);
    }
  }

  lemma {:induction false} RunKeepsReached<V>(v: Volume<V>, steps: seq<Step<V>>)
    requires v.Reached() && Run(v, steps)
    ensures After(v, steps).Reached()
    decreases |steps|
  {
    if steps != [] {
      StepKeepsConsistent(v, steps[0]);
      StepKeepsStacked(v, steps[0]);
      RunKeepsReached(Apply(v, steps[0]), steps[1..]);
    }
  }

  /** In every volume reached by commits that passed the scan, whatever epoch is asked for,
      the entry a reader takes is the youngest one it may take. */
  lemma ReachableReadsYoungest<V>(steps: seq<Step<V>>, e: nat)
    requires ClearRun(Fresh<V>(), steps)
    ensures var v := After(Fresh<V>(), steps);
      var r := Resolve(v.mapper, e);
      var i := Pick(v.mapper, v.chain, r);
      forall j :: 0 <= j < |v.chain| && Applicable(v.mapper, v.chain[j].epoch, r) ==>
        i < |v.chain| && v.Eff(j) <= v.Eff(i)
  {
    RunKeepsValid(Fresh<V>(), steps);
    var v := After(Fresh<V>(), steps);
    FirstIsYoungest(v, Resolve(v.mapper, e));
  }
}
