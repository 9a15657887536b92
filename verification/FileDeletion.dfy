/** The analysis behind a deleted file: which of its data pages can no longer be read from
    the head or from any snapshot still open.  Reference points are the head and the first
    64 active snapshots; a page is dead when no reference point that still sees the file
    can take the version holding it. */
module FileDeletion {
  import opened Mapper
  import opened EpochChain
  import opened Options

  const MAX_ACTIVE: nat := 64

  /** A directory entry: name 0 is a tombstone. */
  datatype DirEntry = DirEntry(name: nat, child: nat)

  type Slot = seq<Entry<DirEntry>>

  /** A version of one page; its value is the data page, 0 if there is none. */
  type Version = Entry<nat>

  /** Segments of page nodes, each with its version chain. */
  type Content = seq<seq<seq<Version>>>

  function First<T>(s: seq<T>, n: nat): seq<T> {
    if |s| <= n then s else s[..n]
  }

  // ---------------------------------------------------------------------------
  // Reference points
  // ---------------------------------------------------------------------------

  predicate Unmapped(ms: seq<Mapping>, s: nat) {
    Resolve(ms, s) == s && !Applies(ms, s)
  }

  /** The active snapshots from `s` up to the head, in order; `s` is odd. */
  function ActiveFrom(ms: seq<Mapping>, s: nat, h: nat): seq<nat>
    decreases h - s
  {
    if s >= h then [] else (if Unmapped(ms, s) then [s] else []) + ActiveFrom(ms, s + 2, h)
  }

  function ActiveBelow(ms: seq<Mapping>, h: nat): seq<nat> {
    ActiveFrom(ms, 1, h)
  }

  /** The earliest ones are kept when there are more than fit. */
  method CollectActive(ms: seq<Mapping>, h: nat, active: array<nat>) returns (n: nat)
    requires active.Length == MAX_ACTIVE
    modifies active
    ensures n <= MAX_ACTIVE && active[..n] == First(ActiveBelow(ms, h), MAX_ACTIVE)
  {
    n := 0;
    var s := 1;
    while s < h && n < MAX_ACTIVE
      invariant n <= MAX_ACTIVE && active[..n] + ActiveFrom(ms, s, h) == ActiveBelow(ms, h)
      decreases h - s
    {
      if Unmapped(ms, s) {
        active[n] := s;
        n := n + 1;
        assert active[..n] == active[..n - 1] + [s];
      }
      s := s + 2;
    }
  }

  predicate Ascending(ms: seq<Mapping>, a: seq<nat>, s: nat, h: nat) {
    && (forall i :: 0 <= i < |a| ==> s <= a[i] < h && !IsEven(a[i]) && Unmapped(ms, a[i]))
    && (forall i, j :: 0 <= i < j < |a| ==> a[i] < a[j])
  }

  lemma {:induction false} ActiveFromSorted(ms: seq<Mapping>, s: nat, h: nat)
    requires !IsEven(s)
    ensures Ascending(ms, ActiveFrom(ms, s, h), s, h)
    decreases h - s
  {
    hide Unmapped;
    if s < h {
      var rest := ActiveFrom(ms, s + 2, h);
      ActiveFromSorted(ms, s + 2, h);
      if Unmapped(ms, s) {
        var a := ActiveFrom(ms, s, h);
        assert a == [s] + rest;
        assert forall i :: 0 < i < |a| ==> a[i] == rest[i - 1];
      } else {
        assert ActiveFrom(ms, s, h) == rest;
      }
    }
  }

  lemma {:induction false} ActiveFromComplete(ms: seq<Mapping>, s: nat, h: nat, t: nat)
    requires !IsEven(s) && !IsEven(t) && s <= t < h && Unmapped(ms, t)
    ensures t in ActiveFrom(ms, s, h)
    decreases h - s
  {
    if s < t {
      ActiveFromComplete(ms, s + 2, h, t);
    }
  }

  /** The list holds exactly the snapshots that were neither committed nor soft-deleted. */
  lemma CollectsActive<V>(v: Volume<V>, s: nat)
    requires v.MapperValid()
    ensures s in ActiveBelow(v.mapper, v.head) <==> v.Active(s)
  {
    hide ActiveFrom, Unmapped;
    ActiveFromSorted(v.mapper, 1, v.head);
    UnmappedIff(v, s);
    if v.Active(s) {
      ActiveFromComplete(v.mapper, 1, v.head, s);
    }
  }

  lemma UnmappedIff<V>(v: Volume<V>, s: nat)
    requires v.MapperValid()
    ensures Unmapped(v.mapper, s) <==> !IsSource(v.mapper, s)
  {
    if IsSource(v.mapper, s) {
      var i :| 0 <= i < |v.mapper| && v.mapper[i].from == s;
      ResolveAt(v.mapper, i);
      assert v.MappingValid(v.mapper[i]);
    } else {
      ResolveUnmapped(v.mapper, s);
    }
  }

  // ---------------------------------------------------------------------------
  // Classification
  // ---------------------------------------------------------------------------

  /** The slot shows the file at `r`: the entry picked there is a live one for it. */
  predicate Visible(ms: seq<Mapping>, slot: Option<Slot>, r: nat, file: nat) {
    slot.Some? &&
    var i := Pick(ms, slot.value, r);
    i < |slot.value| && slot.value[i].value.name != 0 && slot.value[i].value.child == file
  }

  predicate Live(ms: seq<Mapping>, slot: Option<Slot>, file: nat, refs: seq<nat>, e: nat) {
    exists i :: 0 <= i < |refs| && Visible(ms, slot, refs[i], file) && Applicable(ms, e, refs[i])
  }

  /** No reference point that sees the file can take a version stored at `e`. */
  predicate NobodyTakes(ms: seq<Mapping>, slot: Option<Slot>, file: nat, refs: seq<nat>, e: nat) {
    forall k :: 0 <= k < |refs| && Visible(ms, slot, refs[k], file) ==> !Applicable(ms, e, refs[k])
  }

  /** A data page of some version nobody takes. */
  predicate GivenUp(ms: seq<Mapping>, slot: Option<Slot>, file: nat, refs: seq<nat>, vs: seq<Version>, p: nat) {
    p > 0 && exists i :: 0 <= i < |vs| && vs[i].value == p && NobodyTakes(ms, slot, file, refs, vs[i].epoch)
  }

  function Dead(ms: seq<Mapping>, slot: Option<Slot>, file: nat, refs: seq<nat>, versions: seq<Version>): seq<nat> {
    if versions == [] then []
    else
      var v := versions[|versions| - 1];
      Dead(ms, slot, file, refs, versions[..|versions| - 1]) +
      (if !Live(ms, slot, file, refs, v.epoch) && v.value > 0 then [v.value] else [])
  }

  function Concat<T>(ss: seq<seq<T>>): seq<T> {
    if ss == [] then [] else Concat(ss[..|ss| - 1]) + ss[|ss| - 1]
  }

  function Chains(content: Content): seq<seq<Version>> {
    Concat(content)
  }

  function Versions(content: Content): seq<Version> {
    Concat(Chains(content))
  }

  lemma ConcatNext<T>(ss: seq<seq<T>>, i: nat)
    requires i < |ss|
    ensures Concat(ss[..i + 1]) == Concat(ss[..i]) + ss[i]
  {
    assert ss[..i + 1][..i] == ss[..i];
  }

  lemma ConcatPush<T>(ss: seq<seq<T>>, s: seq<T>)
    ensures Concat(ss + [s]) == Concat(ss) + s
  {
    assert (ss + [s])[..|ss|] == ss;
  }

  lemma DeadNext(ms: seq<Mapping>, slot: Option<Slot>, file: nat, refs: seq<nat>, versions: seq<Version>, v: Version)
    ensures Dead(ms, slot, file, refs, versions + [v])
            == Dead(ms, slot, file, refs, versions) +
               (if !Live(ms, slot, file, refs, v.epoch) && v.value > 0 then [v.value] else [])
  {
    assert (versions + [v])[..|versions|] == versions;
  }

  function Refs(ms: seq<Mapping>, h: nat): seq<nat> {
    [h] + First(ActiveBelow(ms, h), MAX_ACTIVE)
  }

  method IsLive(ms: seq<Mapping>, slot: Option<Slot>, file: nat, refs: seq<nat>, visible: array<bool>, e: nat)
    returns (live: bool)
    requires Cached(ms, slot, file, refs, visible)
    ensures live <==> Live(ms, slot, file, refs, e)
    ensures live <==> !NobodyTakes(ms, slot, file, refs, e)
  {
    var i := 0;
    while i < |refs|
      invariant 0 <= i <= |refs|
      invariant forall k :: 0 <= k < i ==> !(Visible(ms, slot, refs[k], file) && Applicable(ms, e, refs[k]))
    {
      if visible[i] {
        var eff := if Applies(ms, e) then Resolve(ms, e) else e;
        if eff == refs[i] || (eff < refs[i] && eff % 2 == 0) {
          return true;
        }
      }
      i := i + 1;
    }
    return false;
  }

  predicate Listed(out: array<nat>, n: nat, dead: seq<nat>)
    reads out
  {
    n <= out.Length && out[..n] == First(dead, out.Length)
  }

  predicate Cached(ms: seq<Mapping>, slot: Option<Slot>, file: nat, refs: seq<nat>, visible: array<bool>)
    reads visible
  {
    visible.Length == |refs| && forall i :: 0 <= i < |refs| ==> visible[i] == Visible(ms, slot, refs[i], file)
  }

  /** One version chain; `done` are the versions seen before it. */
  method ClassifyChain(ms: seq<Mapping>, slot: Option<Slot>, file: nat, refs: seq<nat>, visible: array<bool>,
                       chain: seq<Version>, out: array<nat>, from: nat, ghost done: seq<Version>)
    returns (n: nat)
    requires Cached(ms, slot, file, refs, visible)
    requires Listed(out, from, Dead(ms, slot, file, refs, done))
    modifies out
    ensures Listed(out, n, Dead(ms, slot, file, refs, done + chain))
  {
    hide Dead, Live, Visible;
    n := from;
    assert done + chain[..0] == done;
    for k := 0 to |chain|
      invariant Listed(out, n, Dead(ms, slot, file, refs, done + chain[..k]))
    {
      var v := chain[k];
      var live := IsLive(ms, slot, file, refs, visible, v.epoch);
      DeadNext(ms, slot, file, refs, done + chain[..k], v);
      assert done + chain[..k + 1] == done + chain[..k] + [v];
      if !live && v.value > 0 && n < out.Length {
        out[n] := v.value;
        n := n + 1;
        assert out[..n] == out[..n - 1] + [v.value];
      }
    }
    assert chain[..|chain|] == chain;
  }

  /** Walks segments, page nodes and versions; what does not fit in `out` is left alone. */
  method Classify(ms: seq<Mapping>, slot: Option<Slot>, file: nat, refs: seq<nat>, content: Content, out: array<nat>)
    returns (n: nat)
    modifies out
    ensures Listed(out, n, Dead(ms, slot, file, refs, Versions(content)))
  {
    hide Dead, Live, Visible, First, Concat;
    var visible := VisibleAt(ms, slot, file, refs);
    n := 0;
    NothingYet(ms, slot, file, refs, out);
    for i := 0 to |content|
      invariant Cached(ms, slot, file, refs, visible)
      invariant Listed(out, n, Dead(ms, slot, file, refs, Concat(Concat(content[..i]))))
    {
      var nodes := content[i];
      ghost var before := Concat(content[..i]);
      assert before + nodes[..0] == before;
      for j := 0 to |nodes|
        invariant Cached(ms, slot, file, refs, visible)
        invariant Listed(out, n, Dead(ms, slot, file, refs, Concat(before + nodes[..j])))
      {
        ConcatPush(before + nodes[..j], nodes[j]);
        assert before + nodes[..j + 1] == before + nodes[..j] + [nodes[j]];
        n := ClassifyChain(ms, slot, file, refs, visible, nodes[j], out, n, Concat(before + nodes[..j]));
      }
      ConcatNext(content, i);
      assert nodes[..|nodes|] == nodes;
    }
    assert content[..|content|] == content;
  }

  lemma NothingYet(ms: seq<Mapping>, slot: Option<Slot>, file: nat, refs: seq<nat>, out: array<nat>)
    ensures Listed(out, 0, Dead(ms, slot, file, refs, Concat<Version>(Concat<seq<Version>>([]))))
  {
  }

  method VisibleAt(ms: seq<Mapping>, slot: Option<Slot>, file: nat, refs: seq<nat>) returns (visible: array<bool>)
    ensures fresh(visible) && Cached(ms, slot, file, refs, visible)
  {
    visible := new bool[|refs|](_ => false);
    if slot.Some? {
      for i := 0 to |refs|
        invariant forall k :: 0 <= k < i ==> visible[k] == Visible(ms, slot, refs[k], file)
      {
        visible[i] := Visible(ms, slot, refs[i], file);
      }
    }
  }

  const MAX_DEAD: nat := 1024

  /** The pass up to the point where the dead pages are queued for freeing. */
  method DeadPages<V>(v: Volume<V>, slot: Option<Slot>, file: nat, content: Content) returns (dead: seq<nat>)
    requires v.MapperValid()
    ensures dead == First(Dead(v.mapper, slot, file, Refs(v.mapper, v.head), Versions(content)), MAX_DEAD)
    ensures forall p :: p in dead ==> GivenUp(v.mapper, slot, file, Refs(v.mapper, v.head), Versions(content), p)
    ensures |dead| < MAX_DEAD || |Versions(content)| <= MAX_DEAD ==>
      forall p :: GivenUp(v.mapper, slot, file, Refs(v.mapper, v.head), Versions(content), p) ==> p in dead
    ensures Unshared(content) && |ActiveBelow(v.mapper, v.head)| <= MAX_ACTIVE ==>
      forall r, p {:trigger Readable(v.mapper, slot, file, content, r, p)} ::
        p in dead && (r == v.head || v.Active(r)) ==> !Readable(v.mapper, slot, file, content, r, p)
  {
    hide Dead, Versions, Unshared, Readable, ActiveBelow, GivenUp;
    var active := new nat[MAX_ACTIVE];
    var n := CollectActive(v.mapper, v.head, active);
    var out := new nat[MAX_DEAD];
    var k := Classify(v.mapper, slot, file, [v.head] + active[..n], content, out);
    dead := out[..k];
    ListIsExact(v.mapper, slot, file, Refs(v.mapper, v.head), Versions(content), dead);
    if Unshared(content) && |ActiveBelow(v.mapper, v.head)| <= MAX_ACTIVE {
      FewSnapshotsAreSafe(v.mapper, v.head, slot, file, content);
      forall r, p | p in dead && (r == v.head || v.Active(r)) ensures !Readable(v.mapper, slot, file, content, r, p) {
        CollectsActive(v, r);
      }
    }
  }

  // ---------------------------------------------------------------------------
  // Safety
  // ---------------------------------------------------------------------------

  /** A reader at `r` reaches data page `p` through the file. */
  ghost predicate Readable(ms: seq<Mapping>, slot: Option<Slot>, file: nat, content: Content, r: nat, p: nat) {
    && Visible(ms, slot, r, file)
    && exists c :: c in Chains(content) && Read(ms, c, r) == Some(p)
  }

  /** No data page hangs off two versions. */
  predicate Unshared(content: Content) {
    var vs := Versions(content);
    forall i, j :: 0 <= i < j < |vs| && vs[i].value > 0 ==> vs[i].value != vs[j].value
  }

  /** No page the pass calls dead can be read at the head or at an active snapshot. */
  ghost predicate Safe(ms: seq<Mapping>, h: nat, slot: Option<Slot>, file: nat, content: Content) {
    forall r, p ::
      (r == h || r in ActiveBelow(ms, h)) && p in Dead(ms, slot, file, Refs(ms, h), Versions(content)) ==>
        !Readable(ms, slot, file, content, r, p)
  }

  lemma {:induction false} DeadIsNotLive(ms: seq<Mapping>, slot: Option<Slot>, file: nat, refs: seq<nat>,
                                         vs: seq<Version>, p: nat)
    requires p in Dead(ms, slot, file, refs, vs)
    ensures exists i :: 0 <= i < |vs| && vs[i].value == p && p > 0 && !Live(ms, slot, file, refs, vs[i].epoch)
  {
    hide Live;
    var n := |vs| - 1;
    if p in Dead(ms, slot, file, refs, vs[..n]) {
      DeadIsNotLive(ms, slot, file, refs, vs[..n], p);
      var i :| 0 <= i < n && vs[..n][i].value == p && p > 0 && !Live(ms, slot, file, refs, vs[..n][i].epoch);
      assert vs[i] == vs[..n][i];
    } else {
      assert vs[n].value == p;
    }
  }

  lemma {:induction false} NotLiveIsDead(ms: seq<Mapping>, slot: Option<Slot>, file: nat, refs: seq<nat>,
                                         vs: seq<Version>, i: nat)
    requires i < |vs| && vs[i].value > 0 && !Live(ms, slot, file, refs, vs[i].epoch)
    ensures vs[i].value in Dead(ms, slot, file, refs, vs)
  {
    hide Live;
    var n := |vs| - 1;
    if i < n {
      NotLiveIsDead(ms, slot, file, refs, vs[..n], i);
    }
  }

  /** The file shows at `r` when what the slot reads there is a live entry for it. */
  lemma VisibleIff(ms: seq<Mapping>, slot: Option<Slot>, r: nat, file: nat)
    ensures Visible(ms, slot, r, file) <==>
      slot.Some? && exists name :: name > 0 && Read(ms, slot.value, r) == Some(DirEntry(name, file))
  {
    if Visible(ms, slot, r, file) {
      var e := slot.value[Pick(ms, slot.value, r)].value;
      assert Read(ms, slot.value, r) == Some(DirEntry(e.name, file));
    }
  }

  lemma LiveIff(ms: seq<Mapping>, slot: Option<Slot>, file: nat, refs: seq<nat>, e: nat)
    ensures Live(ms, slot, file, refs, e) <==> !NobodyTakes(ms, slot, file, refs, e)
  {
    hide Visible, Applicable;
  }

  /** Exactly the pages of versions no reference point can take are called dead. */
  lemma DeadIff(ms: seq<Mapping>, slot: Option<Slot>, file: nat, refs: seq<nat>, vs: seq<Version>, p: nat)
    ensures p in Dead(ms, slot, file, refs, vs) <==> GivenUp(ms, slot, file, refs, vs, p)
  {
    hide Live, Dead, NobodyTakes;
    if p in Dead(ms, slot, file, refs, vs) {
      DeadIsNotLive(ms, slot, file, refs, vs, p);
      var i :| 0 <= i < |vs| && vs[i].value == p && p > 0 && !Live(ms, slot, file, refs, vs[i].epoch);
      LiveIff(ms, slot, file, refs, vs[i].epoch);
    }
    if i :| p > 0 && 0 <= i < |vs| && vs[i].value == p && NobodyTakes(ms, slot, file, refs, vs[i].epoch) {
      LiveIff(ms, slot, file, refs, vs[i].epoch);
      NotLiveIsDead(ms, slot, file, refs, vs, i);
    }
  }

  lemma {:induction false} DeadAreFew(ms: seq<Mapping>, slot: Option<Slot>, file: nat, refs: seq<nat>,
                                      vs: seq<Version>)
    ensures |Dead(ms, slot, file, refs, vs)| <= |vs|
  {
    hide Live;
    if vs != [] {
      DeadAreFew(ms, slot, file, refs, vs[..|vs| - 1]);
    }
  }

  /** The list, cut at `MAX_DEAD`, names given-up pages only, and all of them if it fits. */
  lemma ListIsExact(ms: seq<Mapping>, slot: Option<Slot>, file: nat, refs: seq<nat>, vs: seq<Version>, dead: seq<nat>)
    requires dead == First(Dead(ms, slot, file, refs, vs), MAX_DEAD)
    ensures forall p :: p in dead ==> GivenUp(ms, slot, file, refs, vs, p)
    ensures |dead| < MAX_DEAD || |vs| <= MAX_DEAD ==> forall p :: GivenUp(ms, slot, file, refs, vs, p) ==> p in dead
  {
    hide Dead, GivenUp;
    DeadAreFew(ms, slot, file, refs, vs);
    forall p ensures p in Dead(ms, slot, file, refs, vs) <==> GivenUp(ms, slot, file, refs, vs, p) {
      DeadIff(ms, slot, file, refs, vs, p);
    }
  }

  /** Once no reference point sees the file, every data page it has is given up. */
  lemma UnseenFileIsAllDead(ms: seq<Mapping>, slot: Option<Slot>, file: nat, refs: seq<nat>, content: Content, i: nat)
    requires forall k :: 0 <= k < |refs| ==> !Visible(ms, slot, refs[k], file)
    requires i < |Versions(content)| && Versions(content)[i].value > 0
    ensures Versions(content)[i].value in Dead(ms, slot, file, refs, Versions(content))
  {
    hide Visible, Dead, Versions, Applicable;
    NotLiveIsDead(ms, slot, file, refs, Versions(content), i);
  }

  lemma {:induction false} InConcat<T>(ss: seq<seq<T>>, s: seq<T>, x: T)
    requires s in ss && x in s
    ensures x in Concat(ss)
  {
    var n := |ss| - 1;
    if s != ss[n] {
      assert s in ss[..n];
      InConcat(ss[..n], s, x);
    }
  }

  lemma FewSnapshotsAreSafe(ms: seq<Mapping>, h: nat, slot: Option<Slot>, file: nat, content: Content)
    requires |ActiveBelow(ms, h)| <= MAX_ACTIVE && Unshared(content)
    ensures Safe(ms, h, slot, file, content)
  {
    hide Live, Visible, ActiveBelow, Versions, Chains, Dead, Applicable;
    var refs, vs := Refs(ms, h), Versions(content);
    forall r, p | (r == h || r in ActiveBelow(ms, h)) && p in Dead(ms, slot, file, refs, vs)
      ensures !Readable(ms, slot, file, content, r, p)
    {
      DeadIsNotLive(ms, slot, file, refs, vs, p);
      if Readable(ms, slot, file, content, r, p) {
        ReadableIsLive(ms, slot, file, refs, content, r, p);
      }
    }
  }

  lemma ReadPicks(ms: seq<Mapping>, c: seq<Version>, r: nat, p: nat)
    requires Read(ms, c, r) == Some(p)
    ensures Pick(ms, c, r) < |c| && c[Pick(ms, c, r)].value == p && Applicable(ms, c[Pick(ms, c, r)].epoch, r)
  {
  }

  lemma ReadableIsLive(ms: seq<Mapping>, slot: Option<Slot>, file: nat, refs: seq<nat>, content: Content, r: nat,
                       p: nat)
    requires r in refs && Readable(ms, slot, file, content, r, p) && Unshared(content) && p > 0
    ensures forall i :: 0 <= i < |Versions(content)| && Versions(content)[i].value == p ==>
                          Live(ms, slot, file, refs, Versions(content)[i].epoch)
  {
    hide Visible, Chains, Applicable, Pick;
    var vs := Versions(content);
    var c: seq<Version> :| c in Chains(content) && Read(ms, c, r) == Some(p);
    var k := Pick(ms, c, r);
    ReadPicks(ms, c, r, p);
    InConcat(Chains(content), c, c[k]);
    var m :| 0 <= m < |vs| && vs[m] == c[k];
    assert Live(ms, slot, file, refs, c[k].epoch);
    forall i | 0 <= i < |vs| && vs[i].value == p ensures Live(ms, slot, file, refs, vs[i].epoch) {
      assert i == m;
    }
  }

  /** A file made after the 64th snapshot and deleted again after the 65th: the 65th still
      shows it, but is not among the reference points. */
  function LateSlot(h: nat, s: nat, file: nat): Slot
    requires s > 0
  {
    [Entry(h, DirEntry(0, file)), Entry(s - 1, DirEntry(1, file))]
  }

  /** Only the snapshot `s` sees what was made just before it and deleted at the head. */
  lemma LateSlotVisible<V>(v: Volume<V>, s: nat, file: nat, r: nat)
    requires v.MapperValid() && IsEven(v.head) && !IsEven(s) && s < v.head && (r == v.head || r < s - 1 || r == s)
    ensures Visible(v.mapper, Some(LateSlot(v.head, s, file)), r, file) <==> r == s
    ensures Applicable(v.mapper, s - 1, s)
  {
    HeadEffective(v, v.head);
    HeadEffective(v, s - 1);
    var slot := LateSlot(v.head, s, file);
    assert slot[0].epoch == v.head && slot[1].epoch == s - 1;
    assert slot[1..] == [slot[1]] && slot[1..][1..] == [];
  }

  lemma OneVersion(v: Version)
    ensures Chains([[[v]]]) == [[v]] && Versions([[[v]]]) == [v]
  {
    assert [[v]][..0] == [] && [[[v]]][..0] == [];
    assert Concat<seq<Version>>([]) == [] && Concat<Version>([]) == [];
  }

  lemma OneDead(ms: seq<Mapping>, slot: Option<Slot>, file: nat, refs: seq<nat>, v: Version)
    requires v.value > 0 && forall i :: 0 <= i < |refs| ==> !Visible(ms, slot, refs[i], file)
    ensures v.value in Dead(ms, slot, file, refs, [v])
  {
    hide Visible, Applicable;
    DeadNext(ms, slot, file, refs, [], v);
    assert [] + [v] == [v];
  }

  function LateContent(s: nat, p: nat): Content
    requires s > 0
  {
    [[[Entry(s - 1, p)]]]
  }

  lemma LateFileIsLost<V>(v: Volume<V>, s: nat, file: nat, p: nat)
    requires v.MapperValid() && IsEven(v.head) && p > 0
    requires |ActiveBelow(v.mapper, v.head)| > MAX_ACTIVE && s == ActiveBelow(v.mapper, v.head)[MAX_ACTIVE]
    ensures s > 0 && Unshared(LateContent(s, p))
    ensures p in Dead(v.mapper, Some(LateSlot(v.head, s, file)), file, Refs(v.mapper, v.head),
                      Versions(LateContent(s, p)))
    ensures Readable(v.mapper, Some(LateSlot(v.head, s, file)), file, LateContent(s, p), s, p)
  {
    hide ActiveFrom, Visible, Applicable, Pick, Dead, Read, Live, Chains, Versions;
    var ms, h := v.mapper, v.head;
    ActiveFromSorted(ms, 1, h);
    assert Ascending(ms, ActiveBelow(ms, h), 1, h);
    var slot := Some(LateSlot(h, s, file));
    var refs, e: Version := Refs(ms, h), Entry(s - 1, p);
    forall i | 0 <= i < |refs| ensures !Visible(ms, slot, refs[i], file) {
      if i > 0 {
        assert refs[i] == ActiveBelow(ms, h)[i - 1];
      }
      LateSlotVisible(v, s, file, refs[i]);
    }
    OneVersion(e);
    OneDead(ms, slot, file, refs, e);
    LateSlotVisible(v, s, file, s);
    var c := [e];
    OneEntryRead(ms, e, s);
    ReadableThrough(ms, slot, file, LateContent(s, p), c, s, p);
  }

  lemma ReadableThrough(ms: seq<Mapping>, slot: Option<Slot>, file: nat, content: Content, c: seq<Version>, r: nat,
                        p: nat)
    requires Visible(ms, slot, r, file) && c in Chains(content) && Read(ms, c, r) == Some(p)
    ensures Readable(ms, slot, file, content, r, p)
  {
  }

  lemma OneEntryRead(ms: seq<Mapping>, e: Version, r: nat)
    requires Applicable(ms, e.epoch, r)
    ensures Read(ms, [e], r) == Some(e.value)
  {
  }

  lemma HeadEffective<V>(v: Volume<V>, e: nat)
    requires v.MapperValid() && IsEven(e)
    ensures Effective(v.mapper, e) == e
  {
    assert !IsSource(v.mapper, e) by {
      forall i | 0 <= i < |v.mapper| ensures v.mapper[i].from != e {
        assert v.MappingValid(v.mapper[i]);
      }
    }
    ResolveUnmapped(v.mapper, e);
  }

  /** The pass is safe for every file exactly when no more than 64 snapshots are active. */
  lemma SafeIffFewSnapshots<V>(v: Volume<V>)
    requires v.MapperValid() && IsEven(v.head)
    ensures (forall slot, file, content :: Unshared(content) ==> Safe(v.mapper, v.head, slot, file, content))
            <==> |ActiveBelow(v.mapper, v.head)| <= MAX_ACTIVE
  {
    hide Unshared, Safe, ActiveBelow, Dead, Readable, Versions, LateSlot, LateContent, Refs;
    if |ActiveBelow(v.mapper, v.head)| <= MAX_ACTIVE {
      forall slot, file, content | Unshared(content) ensures Safe(v.mapper, v.head, slot, file, content) {
        FewSnapshotsAreSafe(v.mapper, v.head, slot, file, content);
      }
    } else {
      var s := ActiveBelow(v.mapper, v.head)[MAX_ACTIVE];
      LateFileIsLost(v, s, 1, 1);
      var slot, content := Some(LateSlot(v.head, s, 1)), LateContent(s, 1);
      assert !Safe(v.mapper, v.head, slot, 1, content) by {
        NotSafe(v.mapper, v.head, slot, 1, content, s, 1);
      }
    }
  }

  lemma NotSafe(ms: seq<Mapping>, h: nat, slot: Option<Slot>, file: nat, content: Content, r: nat, p: nat)
    requires r in ActiveBelow(ms, h) && p in Dead(ms, slot, file, Refs(ms, h), Versions(content))
    requires Readable(ms, slot, file, content, r, p)
    ensures !Safe(ms, h, slot, file, content)
  {
  }
}
