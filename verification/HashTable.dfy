/** The tombstoned open-addressing hash map over the sparse array: linear probing from
    the key's home slot, deletes leave tombstones, inserts reuse the first one passed.
    Correct for every hash function. */
module HashTable {
  import opened Options
  import opened SparseArray

  datatype Slot = Empty | Occupied(key: int, value: int) | Tombstone

  /** The p-th slot probed from `home`. */
  function Probe(home: nat, p: nat, cap: nat): (i: nat)
    requires home < cap && p < cap
    ensures i < cap
  {
    if home + p < cap then home + p else home + p - cap
  }

  /** How many probes lie between `home` and slot `i`. */
  function Distance(home: nat, i: nat, cap: nat): (d: nat)
    requires home < cap && i < cap
    ensures d < cap && Probe(home, d, cap) == i
    ensures forall p :: 0 <= p < cap && Probe(home, p, cap) == i ==> p == d
  {
    if i >= home then i - home else i + cap - home
  }

  function Home(hash: int -> nat, key: int, cap: nat): (h: nat)
    requires cap > 0
    ensures h < cap
  {
    hash(key) % cap
  }

  predicate Holds(t: seq<Slot>, i: nat, key: int)
    requires i < |t|
  {
    t[i].Occupied? && t[i].key == key
  }

  /** No key is stored twice. */
  ghost predicate Unique(t: seq<Slot>) {
    forall i, j :: 0 <= i < j < |t| && t[i].Occupied? && t[j].Occupied? ==> t[i].key != t[j].key
  }

  /** Nothing empty lies on the way from a key's home to its slot. */
  ghost predicate Reachable(t: seq<Slot>, hash: int -> nat) {
    forall i, p :: 0 <= i < |t| && t[i].Occupied? && 0 <= p < Distance(Home(hash, t[i].key, |t|), i, |t|) ==>
      !t[Probe(Home(hash, t[i].key, |t|), p, |t|)].Empty?
  }

  /** The table stores exactly the map `m`. */
  ghost predicate Stores(t: seq<Slot>, m: map<int, int>) {
    && (forall i :: 0 <= i < |t| && t[i].Occupied? ==> t[i].key in m && m[t[i].key] == t[i].value)
    && (forall k :: k in m ==> exists i :: 0 <= i < |t| && Holds(t, i, k))
  }

  ghost predicate Represents(t: seq<Slot>, hash: int -> nat, m: map<int, int>) {
    |t| > 0 && Unique(t) && Reachable(t, hash) && Stores(t, m)
  }

  /** Slots probed so far: neither empty nor the key looked for. */
  ghost predicate Passed(t: seq<Slot>, home: nat, key: int, n: nat)
    requires home < |t| && n <= |t|
  {
    forall p :: 0 <= p < n ==> !t[Probe(home, p, |t|)].Empty? && !Holds(t, Probe(home, p, |t|), key)
  }

  /** A probe that reaches an empty slot, or has gone full circle, has proved the key absent. */
  lemma PassedMeansAbsent(t: seq<Slot>, hash: int -> nat, m: map<int, int>, key: int, n: nat)
    requires Represents(t, hash, m) && n <= |t| && Passed(t, Home(hash, key, |t|), key, n)
    requires n < |t| ==> t[Probe(Home(hash, key, |t|), n, |t|)].Empty?
    ensures key !in m
  {
    if key in m {
      var i :| 0 <= i < |t| && Holds(t, i, key);
      var d := Distance(Home(hash, key, |t|), i, |t|);
    }
  }

  lemma FoundIsStored(t: seq<Slot>, hash: int -> nat, m: map<int, int>, i: nat)
    requires Represents(t, hash, m) && i < |t| && t[i].Occupied?
    ensures t[i].key in m && m[t[i].key] == t[i].value
  {
  }

  /** Inserting an absent key into a free slot behind a gapless probe. */
  lemma InsertRepresents(t: seq<Slot>, hash: int -> nat, m: map<int, int>, key: int, value: int, n: nat)
    requires Represents(t, hash, m) && key !in m && n < |t|
    requires Passed(t, Home(hash, key, |t|), key, n) && !t[Probe(Home(hash, key, |t|), n, |t|)].Occupied?
    ensures Represents(t[Probe(Home(hash, key, |t|), n, |t|) := Occupied(key, value)], hash, m[key := value])
  {
    var cap := |t|;
    var home := Home(hash, key, cap);
    var at := Probe(home, n, cap);
    var t' := t[at := Occupied(key, value)];
    forall i, p | 0 <= i < cap && t'[i].Occupied? && 0 <= p < Distance(Home(hash, t'[i].key, cap), i, cap)
      ensures !t'[Probe(Home(hash, t'[i].key, cap), p, cap)].Empty?
    {
      if i == at {
        assert Distance(home, at, cap) == n;
      } else {
        assert t[i] == t'[i];
      }
    }
    forall i, j | 0 <= i < j < cap && t'[i].Occupied? && t'[j].Occupied? ensures t'[i].key != t'[j].key {
      if i == at {
        FoundIsStored(t, hash, m, j);
      } else if j == at {
        FoundIsStored(t, hash, m, i);
      }
    }
    StoresAfterInsert(t, m, key, value, at);
  }

  lemma StoresAfterInsert(t: seq<Slot>, m: map<int, int>, key: int, value: int, at: nat)
    requires Stores(t, m) && at < |t|
    requires !t[at].Occupied? && key !in m
    ensures Stores(t[at := Occupied(key, value)], m[key := value])
  {
    var t', m' := t[at := Occupied(key, value)], m[key := value];
    forall i | 0 <= i < |t'| && t'[i].Occupied? ensures t'[i].key in m' && m'[t'[i].key] == t'[i].value {
      if i != at {
        assert t[i] == t'[i];
      }
    }
    forall k | k in m' ensures exists i :: 0 <= i < |t'| && Holds(t', i, k) {
      if k == key {
        assert Holds(t', at, k);
      } else {
        var i :| 0 <= i < |t| && Holds(t, i, k);
        assert Holds(t', i, k);
      }
    }
  }

  lemma UpdateRepresents(t: seq<Slot>, hash: int -> nat, m: map<int, int>, i: nat, value: int)
    requires Represents(t, hash, m) && i < |t| && t[i].Occupied?
    ensures Represents(t[i := Occupied(t[i].key, value)], hash, m[t[i].key := value])
  {
    var key := t[i].key;
    var t', m' := t[i := Occupied(key, value)], m[key := value];
    assert forall j :: 0 <= j < |t| ==> (t'[j].Empty? <==> t[j].Empty?) && (t'[j].Occupied? <==> t[j].Occupied?);
    assert forall j :: 0 <= j < |t| && t[j].Occupied? ==> t'[j].key == t[j].key;
    forall j | 0 <= j < |t'| && t'[j].Occupied? ensures t'[j].key in m' && m'[t'[j].key] == t'[j].value {
    }
    forall k | k in m' ensures exists j :: 0 <= j < |t'| && Holds(t', j, k) {
      FoundIsStored(t, hash, m, i);
      var j :| 0 <= j < |t| && Holds(t, j, k);
      assert Holds(t', j, k);
    }
  }

  /** A tombstone keeps every longer probe sequence intact. */
  lemma DeleteRepresents(t: seq<Slot>, hash: int -> nat, m: map<int, int>, i: nat)
    requires Represents(t, hash, m) && i < |t| && t[i].Occupied?
    ensures Represents(t[i := Tombstone], hash, m - {t[i].key})
  {
    var key := t[i].key;
    var t', m' := t[i := Tombstone], m - {key};
    assert forall j :: 0 <= j < |t| ==> (t'[j].Empty? <==> t[j].Empty?);
    assert forall j :: 0 <= j < |t| && t'[j].Occupied? ==> t'[j] == t[j] && j != i;
    forall j | 0 <= j < |t'| && t'[j].Occupied? ensures t'[j].key in m' && m'[t'[j].key] == t'[j].value {
      assert t[j].key != key;
    }
    forall k | k in m' ensures exists j :: 0 <= j < |t'| && Holds(t', j, k) {
      var j :| 0 <= j < |t| && Holds(t, j, k);
      assert Holds(t', j, k);
    }
  }

  // ---------------------------------------------------------------------------
  // Counters
  // ---------------------------------------------------------------------------

  function Occupancy(t: seq<Slot>): nat {
    if t == [] then 0 else Occupancy(t[1..]) + (if t[0].Occupied? then 1 else 0)
  }

  function Tombstones(t: seq<Slot>): nat {
    if t == [] then 0 else Tombstones(t[1..]) + (if t[0].Tombstone? then 1 else 0)
  }

  lemma {:induction false} CountsAfterWrite(t: seq<Slot>, i: nat, s: Slot)
    requires i < |t|
    ensures Occupancy(t[i := s]) + (if t[i].Occupied? then 1 else 0) == Occupancy(t) + (if s.Occupied? then 1 else 0)
    ensures Tombstones(t[i := s]) + (if t[i].Tombstone? then 1
        else 0) == Tombstones(t) + (if s.Tombstone? then 1 else 0)
  {
    if i == 0 {
      assert t[0 := s][1..] == t[1..];
    } else {
      assert t[i := s][1..] == t[1..][i - 1 := s];
      CountsAfterWrite(t[1..], i - 1, s);
    }
  }

  lemma {:induction false} CountsOfEmpty(t: seq<Slot>)
    requires forall i :: 0 <= i < |t| ==> t[i].Empty?
    ensures Occupancy(t) == 0 && Tombstones(t) == 0
  {
    if t != [] {
      CountsOfEmpty(t[1..]);
    }
  }

  // ---------------------------------------------------------------------------
  // The map
  // ---------------------------------------------------------------------------

  datatype PutResult = Inserted | Updated | Full

  class HashMap {
    const hash: int -> nat
    const capacity: nat
    const slots: VarArray<Slot>
    var size: int
    var tombstones: int
    ghost var model: map<int, int>

    ghost function Table(): (t: seq<Slot>)
      reads slots
      requires slots.Valid()
      ensures |t| == capacity
    {
      seq(capacity, j requires 0 <= j && slots.Valid() reads slots => slots.Content(j))
    }

    ghost predicate Valid()
      reads this, slots
    {
      && slots.Valid()
      && slots.zero == Empty
      && Represents(Table(), hash, model)
      && size == Occupancy(Table()) == |model|
      && tombstones == Tombstones(Table())
    }

    constructor (h: int -> nat, cap: nat, chunkSize: nat)
      requires cap > 0 && chunkSize > 1
      ensures Valid() && fresh(slots) && model == map[] && capacity == cap
    {
      hash, capacity := h, cap;
      slots := new VarArray<Slot>(chunkSize, Empty);
      size, tombstones := 0, 0;
      model := map[];
      new;
      CountsOfEmpty(Table());
    }

    /** A slot the sparse array does not have reads as empty. */
    method SlotAt(i: nat) returns (s: Slot)
      requires Valid() && i < capacity
      ensures s == Table()[i]
    {
      var r := slots.Lookup(i);
      s := if r.Some? then r.value else Empty;
    }

    /** The probe loop of lookup and delete. */
    method Find(key: int) returns (found: bool, i: nat)
      requires Valid()
      ensures found ==> i < capacity && Holds(Table(), i, key)
      ensures found <==> key in model
    {
      ghost var t := Table();
      var home := Home(hash, key, capacity);
      var probes := 0;
      i := home;
      while probes < capacity
        invariant 0 <= probes <= capacity
        invariant probes < capacity ==> i == Probe(home, probes, capacity)
        invariant Passed(t, home, key, probes)
      {
        var s := SlotAt(i);
        if s.Empty? {
          break;
        }
        if s.Occupied? && s.key == key {
          FoundIsStored(t, hash, model, i);
          return true, i;
        }
        i := if i + 1 == capacity then 0 else i + 1;
        probes := probes + 1;
      }
      PassedMeansAbsent(t, hash, model, key, probes);
      found := false;
    }

    method Get(key: int) returns (r: Option<int>)
      requires Valid()
      ensures r == if key in model then Some(model[key]) else None
    {
      var found, i := Find(key);
      if !found {
        return None;
      }
      var s := SlotAt(i);
      FoundIsStored(Table(), hash, model, i);
      r := Some(s.value);
    }

    /** The probe loop of insertion: it also remembers the first tombstone passed.  `n` is
        how many probes away the slot to write is. */
    method Seek(key: int) returns (r: PutResult, i: nat, ghost n: nat)
      requires Valid()
      ensures r.Updated? ==> i < capacity && Holds(Table(), i, key)
      ensures r.Inserted? ==> n < capacity && i == Probe(Home(hash, key, capacity), n, capacity)
      ensures r.Inserted? ==> !Table()[i].Occupied? && Passed(Table(), Home(hash, key, capacity), key, n)
      ensures !r.Updated? ==> key !in model
      ensures r.Full? <==> !r.Updated? && forall j :: 0 <= j < capacity ==> !Table()[j].Empty?
    {
      ghost var t := Table();
      var home := Home(hash, key, capacity);
      var probes, grave := 0, -1;
      i, n := home, 0;
      while probes < capacity
        invariant 0 <= probes <= capacity
        invariant probes < capacity ==> i == Probe(home, probes, capacity)
        invariant Passed(t, home, key, probes)
        invariant grave >= 0 ==> n < probes && grave == Probe(home, n, capacity) && t[grave].Tombstone?
      {
        var s := SlotAt(i);
        if s.Empty? {
          PassedMeansAbsent(t, hash, model, key, probes);
          if grave >= 0 {
            return Inserted, grave, n;
          }
          return Inserted, i, probes;
        }
        if s.Tombstone? {
          if grave < 0 {
            grave, n := i, probes;
          }
        } else if s.key == key {
          return Updated, i, probes;
        }
        i := if i + 1 == capacity then 0 else i + 1;
        probes := probes + 1;
      }
      PassedMeansAbsent(t, hash, model, key, probes);
      FullLap(t, home, key);
      r := Full;
    }

    /** Fails exactly when the key is absent and no slot is empty: tombstones alone do not
        make room. */
    method Put(key: int, value: int) returns (r: PutResult)
      requires Valid()
      modifies this, slots
      ensures Valid()
      ensures r.Updated? <==> key in old(model)
      ensures r.Full? <==> key !in old(model) && forall i :: 0 <= i < capacity ==> !old(Table())[i].Empty?
      ensures model == if r.Full? then old(model) else old(model)[key := value]
      ensures r.Full? ==> Table() == old(Table())
    {
      var i;
      ghost var n;
      r, i, n := Seek(key);
      if r.Inserted? {
        InsertAt(key, value, i, n);
      } else if r.Updated? {
        UpdateAt(i, key, value);
      }
    }

    /** Writes a new key into a free slot, a tombstone if one was passed. */
    method InsertAt(key: int, value: int, at: nat, ghost n: nat)
      requires Valid() && key !in model && n < capacity
      requires at == Probe(Home(hash, key, capacity), n, capacity) && !Table()[at].Occupied?
      requires Passed(Table(), Home(hash, key, capacity), key, n)
      modifies this, slots
      ensures Valid()
      ensures model == old(model)[key := value]
    {
      ghost var t := Table();
      InsertRepresents(t, hash, model, key, value, n);
      CountsAfterWrite(t, at, Occupied(key, value));
      var s := SlotAt(at);
      slots.Set(at, Occupied(key, value));
      assert Table() == t[at := Occupied(key, value)];
      size := size + 1;
      if s.Tombstone? {
        tombstones := tombstones - 1;
      }
      model := model[key := value];
    }

    method UpdateAt(i: nat, key: int, value: int)
      requires Valid() && i < capacity && Holds(Table(), i, key)
      modifies this, slots
      ensures Valid()
      ensures key in old(model) && model == old(model)[key := value]
    {
      ghost var t := Table();
      FoundIsStored(t, hash, model, i);
      UpdateRepresents(t, hash, model, i, value);
      CountsAfterWrite(t, i, Occupied(key, value));
      slots.Set(i, Occupied(key, value));
      assert Table() == t[i := Occupied(key, value)];
      model := model[key := value];
    }

    method BuryAt(i: nat, key: int)
      requires Valid() && i < capacity && Holds(Table(), i, key)
      modifies this, slots
      ensures Valid()
      ensures key in old(model) && model == old(model) - {key}
    {
      ghost var t := Table();
      FoundIsStored(t, hash, model, i);
      DeleteRepresents(t, hash, model, i);
      CountsAfterWrite(t, i, Tombstone);
      MapMinusOne(model, key);
      slots.Set(i, Tombstone);
      assert Table() == t[i := Tombstone];
      model := model - {key};
      size, tombstones := size - 1, tombstones + 1;
    }

    method Delete(key: int) returns (found: bool)
      requires Valid()
      modifies this, slots
      ensures Valid()
      ensures found <==> key in old(model)
      ensures model == old(model) - {key}
    {
      var i;
      found, i := Find(key);
      if found {
        BuryAt(i, key);
      }
    }
  }

  lemma FullLap(t: seq<Slot>, home: nat, key: int)
    requires home < |t| && Passed(t, home, key, |t|)
    ensures forall j :: 0 <= j < |t| ==> !t[j].Empty?
  {
    forall j | 0 <= j < |t| ensures !t[j].Empty? {
      assert Probe(home, Distance(home, j, |t|), |t|) == j;
    }
  }

  lemma MapMinusOne(m: map<int, int>, key: int)
    requires key in m
    ensures |m - {key}| == |m| - 1
  {
    assert (m - {key}).Keys == m.Keys - {key};
  }
}
